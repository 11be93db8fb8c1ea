# User management service: the user table and the decisions made over it

This project models the core of a small user-management HTTP service in Dafny.
The service keeps a table of users (`id`, `email`, `hashed_password`, `is_active`,
`is_superuser`). A generic CRUD layer reads and writes that table, and `/users`
handlers map each outcome to an HTTP status. A chain of authentication guards
resolves the bearer token's subject to a user and checks that user's flags. A
few pure helpers complete the core: the settings defaults, the CORS-origin
splitter, the database-URI validators and the table-name rule.

The database is modelled as an in-memory table. Rows are kept in insertion order,
so "first match" and offset/limit paging both see that order.

| module (file) | source | form |
|---|---|---|
| `Wrappers` (wrappers.dfy) | — | `Option`, and `Result` usable with `:-` |
| `BaseClass` (base_class.dfy) | app/db/base_class.py | table-name rule |
| `UserModel` (user_model.dfy) | app/db/base_class.py, columns used by app/crud/base.py | the row datatype, `getattr` by field |
| `Schemas` (schemas_user.dfy) | app/schemas/user.py | payload and response datatypes with defaults, `model_dump(exclude_unset=True)` |
| `Crud` (crud_base.dfy) | app/crud/base.py | queries as functions over the rows; class `UserStore` with `Create`, `Update` (a loop of `setattr`s) and `Remove` |
| `Deps` (deps.dfy) | app/api/deps.py | guards as functions over `Result` |
| `UsersEndpoints` (users_endpoints.dfy) | app/api/v1/endpoints/users.py | read handlers as functions; create, update and delete handlers as methods on the store |
| `Config` (config.dfy) | app/core/config.py | settings defaults, string splitting and stripping, URI choice |

Update payloads keep "not supplied" apart from "supplied as null". Each
`UserUpdate` field is an `Option<Option<T>>`: the outer `None` means unset, and
`Some(None)` means an explicit null. `is_superuser` is a plain `bool` in the schema,
so it is an `Option<bool>`.

Where the handler and a test disagree, the model follows the handler. tests/test_users.py:49-53 expects status
400 and a "username" message for a duplicate email. The handler answers 409 with
"The user with this email already exists in the system."
(app/api/v1/endpoints/users.py:22-26).

## Model

| member | source | states |
|---|---|---|
| `BaseClass.LowerChar` | app/db/base_class.py:12 | an ASCII capital maps to the letter 32 code points later; every other character is unchanged; the result is never an ASCII capital |
| `BaseClass.TableName` | app/db/base_class.py:9-12 | the table name is the class name lower-cased character by character: same length, no upper-case ASCII letter left |
| `BaseClass.TableNameOfLowerIsIdentity` | app/db/base_class.py:12 | a name with no upper-case letter is its own table name |
| `BaseClass.TableNameIdempotent` | app/db/base_class.py:12 | applying the rule twice gives the same name as applying it once |
| `BaseClass.UserTableName` | app/db/base_class.py:12 | the `User` model's table is `user` |
| `UserModel.FieldValue` | app/crud/base.py:27 | `getattr` on a row: only the key reads as an integer, and it is the row's id; strings come only from email and hashed_password, flags only from is_active and is_superuser; NULL never from id or is_superuser |
| `UserModel.FieldValuesDetermineRow` | app/crud/base.py:27 | two rows that agree on every column read are the same row |
| `UserModel.FieldNamed` | app/crud/base.py:26-27 | each of the five column names id, email, hashed_password, is_active and is_superuser resolves to its own column, and only that name does; every other name resolves to nothing (the `getattr` fault) |
| `UserModel.IsActiveUser` | app/api/deps.py:53 | a user is active exactly when the is_active column reads True; a NULL flag is inactive |
| `UserModel.IsSuperuserUser` | app/api/deps.py:61 | a user is a superuser exactly when the is_superuser column reads True |
| `Crud.FirstIndex` | app/crud/base.py:26-27 | the position of the first row whose field equals the value; no earlier row matches, and the table length is returned when none matches |
| `Crud.GetByField` | app/crud/base.py:26-27 | `None` exactly when no row matches; otherwise a matching row with no match before it |
| `Crud.GetByFieldName` | app/crud/base.py:26-27 | an unknown field name is an `AttributeError` fault, not an empty result; a known name behaves as `GetByField` |
| `Crud.Get` | app/crud/base.py:23-24 | `None` exactly when no row has the id; otherwise a stored row with that id |
| `Crud.GetFindsRow` | app/crud/base.py:23-24 | with unique primary keys, `get(r.id)` returns `r` exactly when `r` is stored |
| `Crud.GetByEmail` | app/api/v1/endpoints/users.py:21 | `get_by_field` on email: `None` exactly when no row has the email, else the first row with it |
| `Crud.GetByEmailAgreesWithGet` | app/api/v1/endpoints/users.py:69 | a user found by email is the very row `get` returns for that user's id |
| `Crud.GetMulti` | app/crud/base.py:29-32 | the page has at most `limit` rows and exactly `min(limit, max(0, rows - skip))` of them; row `i` is stored row `skip + i`; defaults 0 and 100 |
| `Crud.GetMultiSplits` | app/crud/base.py:32 | consecutive pages tile the table: a page of `a + b` is a page of `a` followed by the next page of `b` |
| `Crud.FromCreate` | app/crud/base.py:35-36 | the created row carries the assigned id and the dumped payload's email, password (in the hashed_password column) and flags |
| `Crud.SetAttr` | app/crud/base.py:51 | one `setattr` writes the entry's value into its column, changes no other column and never the id |
| `Crud.ApplyAll` | app/crud/base.py:50-51 | the `setattr` loop keeps the id, does nothing over no entries, and leaves the last entry's value in its column |
| `Crud.ApplyAllKeepsUnnamed` | app/crud/base.py:50-51 | a column that no dumped entry names keeps its value through the `setattr` loop |
| `Crud.ApplyAllConcat` | app/crud/base.py:50-51 | running the `setattr` loop over `a + b` equals running it over `a` and then over `b` |
| `Crud.DumpThenApply` | app/crud/base.py:49-51 | the `setattr` loop over `model_dump(exclude_unset=True)` yields the reference partial update `Patched` |
| `Crud.PatchedChangesExactlySetFields` | app/crud/base.py:49-51 | an update replaces each supplied field with the supplied value, keeps every other field, and keeps the id |
| `Crud.EmptyUpdateIsIdentity` | app/crud/base.py:49-51 | an empty payload leaves the row unchanged |
| `Crud.ExplicitNullOverwrites` | app/crud/base.py:49 | a field supplied as null is written as null (unset fields are excluded, null ones are not) |
| `Crud.OmittedDefaultIsNotApplied` | app/schemas/user.py:7 | omitting is_active keeps the stored flag, even though the payload's attribute reads as the default True |
| `Crud.Replace` | app/crud/base.py:52-54 | committing an updated object keeps the table length |
| `Crud.ReplaceSpec` | app/crud/base.py:52-54 | after the commit of an update, keys stay unique, the key finds the new row, and every other key finds what it found before |
| `Crud.Delete` | app/crud/base.py:57-62 | an absent key leaves the table as it was; a present key removes exactly its row, order kept |
| `Crud.DeleteSpec` | app/crud/base.py:57-62 | after a delete the key finds nothing, every other key finds what it found before, and keys stay unique |
| `Crud.AppendSpec` | app/crud/base.py:36-40 | appending a row under a fresh key makes it findable and hides no other row |
| `Crud.UserStore.constructor` | app/crud/base.py:13-21 | the empty table and the first id 1 stand for a fresh database table and its id sequence |
| `Crud.UserStore.Create` | app/crud/base.py:34-40 | appends exactly one row with a fresh id built from the payload, returns it, and leaves every other key's row unchanged |
| `Crud.UserStore.Update` | app/crud/base.py:42-55 | loops `setattr` over the set fields; the returned and stored row is `Patched(dbObj, objIn)`; no other row and no id changes |
| `Crud.UserStore.Remove` | app/crud/base.py:57-62 | returns the pre-deletion row or `None`; an absent id changes nothing; afterwards `get(id)` is `None` and other keys are unaffected |
| `Schemas.UserUpdate.EmailValue` | app/schemas/user.py:6 | the email attribute is the supplied value if set, else the default None |
| `Schemas.UserUpdate.IsActiveValue` | app/schemas/user.py:7 | the is_active attribute is the supplied value if set, else the default True |
| `Schemas.UserUpdate.IsSuperuserValue` | app/schemas/user.py:8 | the is_superuser attribute is the supplied value if set, else the default False |
| `Schemas.UserUpdate.PasswordValue` | app/schemas/user.py:17 | the password attribute is the supplied value if set, else the default None |
| `Schemas.DumpUnset` | app/crud/base.py:49 | the dump never holds the id and never a field twice, has at most four entries, and is empty exactly for an empty payload |
| `Schemas.DumpListsSuppliedFields` | app/crud/base.py:49 | every supplied field appears in the dump with its supplied value, and every entry is for a supplied field |
| `Schemas.ToUser` | app/schemas/user.py:20-21 | the response carries id, email, is_active and is_superuser of the row |
| `Schemas.ResponseOmitsPassword` | app/schemas/user.py:5-8 | rows differing only in the stored credential serialise identically |
| `Schemas.UserCreateDefaults` | app/schemas/user.py:7-13 | a create payload given only email and password has is_active True and is_superuser False |
| `Schemas.UserUpdateDefaults` | app/schemas/user.py:6-17 | an empty update reads email None, password None, is_active True, is_superuser False, and dumps nothing |
| `Deps.GetCurrentUser` | app/api/deps.py:31-47 | an undecodable token is 403 "Could not validate credentials"; a subject no row has is 404 "User not found"; otherwise the stored row with the subject's id |
| `Deps.GetCurrentActiveUser` | app/api/deps.py:50-55 | passes the upstream failure on; refuses an inactive user with 400 "Inactive user"; else returns the same user |
| `Deps.GetCurrentActiveSuperuser` | app/api/deps.py:58-65 | depends on `get_current_user` only; refuses a non-superuser with 400; else returns the same user |
| `Deps.BadTokenNeverReachesStore` | app/api/deps.py:34-43 | a token that fails to decode gets 403 from every guard, whatever the table holds (no lookup happens) |
| `Deps.CurrentUserIsSubject` | app/api/deps.py:44-47 | with unique keys, the current user is exactly the stored row whose id is the token's subject |
| `Deps.GuardsPassUserUnchanged` | app/api/deps.py:51-65 | whatever a later guard lets through is the first stage's user, and it has the checked flag |
| `Deps.InactiveSuperuserPasses` | app/api/deps.py:59 | an inactive superuser is refused by the active guard but admitted by the superuser guard |
| `UsersEndpoints.Serialize` | app/api/v1/endpoints/users.py:31 | a list response holds the response view of each row, element by element |
| `UsersEndpoints.ReadUsers` | app/api/v1/endpoints/users.py:31-41 | 200 with exactly the `get_multi(skip, limit)` page, defaults 0 and 100 |
| `UsersEndpoints.ReadUserById` | app/api/v1/endpoints/users.py:44-58 | 404 "User not found" exactly when no row has the id, otherwise 200 with that row |
| `UsersEndpoints.ReadUserByEmail` | app/api/v1/endpoints/users.py:61-75 | 404 exactly when no row has the email, otherwise 200 with the first row having it |
| `UsersEndpoints.CreateKeepsEmailsUnique` | app/api/v1/endpoints/users.py:21-27 | the check-then-create of a user keeps emails unique |
| `UsersEndpoints.FirstIndexIgnoresPassword` | app/crud/base.py:24-27 | a lookup on any column but the credential gives the same position whatever the stored credentials are |
| `UsersEndpoints.ResponsesNeverCarryPassword` | app/api/v1/endpoints/users.py:12-75 | no read response depends on stored credentials |
| `UsersEndpoints.CreateUser` | app/api/v1/endpoints/users.py:12-28 | a taken email gives 409 and no change; otherwise one row is created, the id counter advances by one, and 201 returns the row; unique emails stay unique |
| `UsersEndpoints.UpdateUser` | app/api/v1/endpoints/users.py:78-101 | an absent id gives 404 and no update; a `ValueError` gives 400 with its message and no change; otherwise 200 with the patched row, other rows untouched |
| `UsersEndpoints.DeleteUser` | app/api/v1/endpoints/users.py:104-119 | an absent id gives 404 and no change; otherwise the row is removed, 204 with no body, and a later read of the id is 404 |
| `UsersEndpoints.Lifecycle` | app/api/v1/endpoints/users.py:12-119 | on an empty table: create gives 201, read 200, an email change 200 with the new email, delete 204, and a second read 404 |
| `Config.DefaultSettings` | app/core/config.py:6-28 | token lifetime defaults to 60*24*8 = 11520 minutes, the API prefix to "/api/v1", CORS origins to none |
| `Config.Split` | app/core/config.py:34 | `split(",")` gives one more piece than there are commas; no piece holds a comma; joining the pieces gives back the string |
| `Config.SplitJoin` | app/core/config.py:34 | splitting a join of comma-free pieces gives back the pieces |
| `Config.SplitPiece` | app/core/config.py:34 | a comma-free string splits into itself alone |
| `Config.SplitPrefix` | app/core/config.py:34 | splitting `p + "," + t` with comma-free `p` gives `p` followed by the pieces of `t` |
| `Config.IsSpace` | app/core/config.py:34 | space, tab, newline and carriage return are whitespace to `strip()`; no printable non-space ASCII character is |
| `Config.StripStart` | app/core/config.py:34 | the length of the leading whitespace: all whitespace before, none at the position itself |
| `Config.RStrip` | app/core/config.py:34 | the longest prefix that does not end in whitespace, with only whitespace after it |
| `Config.Strip` | app/core/config.py:34 | `strip()` is the substring between the leading and the trailing whitespace, neither end of it whitespace |
| `Config.StripIdempotent` | app/core/config.py:34 | stripping twice equals stripping once |
| `Config.SplitOrigins` | app/core/config.py:34 | as many origins as commas plus one; each is the stripped piece and holds no comma |
| `Config.AssembleCorsOrigins` | app/core/config.py:30-37 | a string not starting with "[" becomes its list of origins; a list, or a string starting with "[", passes unchanged; anything else is a `ValueError` |
| `Config.SingleOrigin` | app/core/config.py:33-34 | a comma-free string gives a single stripped origin |
| `Config.DbPath` | app/core/config.py:49 | the path is "/" followed by the database name; it is just "/" exactly when the name is missing or empty |
| `Config.PassOrBuild` | app/core/config.py:42-50 | a configured URI string is returned unchanged; otherwise a `postgresql` URI is built from the parts |
| `Config.AssembleDbConnection` | app/core/config.py:39-50 | passes a string through, else builds from the POSTGRES_* settings |
| `Config.AssembleTestDbConnection` | app/core/config.py:52-63 | passes a string through, else builds from the TEST_POSTGRES_* settings |

## Left out

- Password hashing, the user repository's overrides of `create` and `update`, and its `get_by_email`, `is_active` and `is_superuser` live in app/crud/user.py and app/core/security, which are not part of this model. `get_by_email` is `get_by_field` on email, and the two predicates read the row's flags. A null is_active counts as inactive, as Python truthiness gives. The repository's mapping of a payload's `password` into the `hashed_password` column is modelled as a copy of the supplied string: no hashing.
- `UsersEndpoints.UpdateUser`: the repository's `ValueError` rule is a parameter, and it is assumed to be raised before any field changes. Where the unseen override raises it is not modelled.
- Token decoding (signature, expiry, algorithm) and `TokenPayload` validation are foreign calls. Decoding is a parameter that yields the subject id or nothing. OAuth2 bearer extraction is not modelled.
- The session lifecycle of `get_db` (app/api/deps.py:22-28) and the singleton connection pool (app/db/db_utils.py) are resource plumbing and concurrency. Neither is modelled.
- Pydantic validation (`EmailStr`, 422 responses) and `PostgresDsn.build` are foreign. Validated payloads are taken as given, and a built URI is kept as the tuple of parts passed to the builder.
- The ORM object identity of `db_obj` is not modelled. A row is a value, and `Crud.UserStore.Update` writes the patched value back under its key, so aliasing through other references to that object is not captured.
- `Crud.GetMulti`, `UsersEndpoints.ReadUsers`: `skip` and `limit` are natural numbers (app/crud/base.py:29-32, app/api/v1/endpoints/users.py:34-35). A negative OFFSET or LIMIT is a database error and is not modelled.
- `Crud.GetByField`: store order is fixed as insertion order. The database leaves it unspecified.
- `UserModel.FieldNamed`: a non-column class attribute (`__tablename__`, `metadata`, `registry`) is modelled as a fault. In the source `getattr` resolves it, the comparison becomes a plain Python bool, and the query filters on WHERE true or WHERE false.
- `BaseClass.TableName`: lower-cases ASCII letters only. Python's `str.lower()` also maps other Unicode letters.
- Concurrency, including the duplicate-email race between two `create_user` calls, is out of scope. The model is sequential.
- `update_user` performs no duplicate-email check, so an update can give two rows the same email. The model does not claim email uniqueness across updates.
- main.py (routing, a debug print loop, uvicorn) and the test fixtures are not modelled.
