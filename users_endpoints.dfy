/**
 * The `/users` HTTP handlers as decisions over the user table. Each handler
 * yields a status code and a body; a body can hold only response-schema
 * users, so no handler can put a stored credential on the wire. The read
 * handlers are functions of the table; the create, update and delete
 * handlers are methods that call the store's mutating operations.
 */
module UsersEndpoints {
  import opened Wrappers
  import opened UserModel
  import opened Schemas
  import opened Crud

  datatype Body = NoContent | One(user: User) | Many(users: seq<User>) | Detail(message: string)

  datatype Response = Response(status: int, body: Body)

  const ConflictDetail := "The user with this email already exists in the system."
  const NotFound := Response(404, Detail("User not found"))

  /** The response-schema view of a list of rows, element by element. */
  function Serialize(rows: seq<UserRecord>): (users: seq<User>)
    ensures |users| == |rows|
    ensures forall i :: 0 <= i < |rows| ==> users[i] == ToUser(rows[i])
  {
    seq(|rows|, i requires 0 <= i < |rows| => ToUser(rows[i]))
  }

  /** `GET /users/`: 200 with the page `get_multi(skip, limit)`, defaults 0 and 100. */
  function ReadUsers(rows: seq<UserRecord>, skip: nat := 0, limit: nat := 100): (resp: Response)
    ensures resp.status == 200 && resp.body.Many?
    ensures |resp.body.users| == |GetMulti(rows, skip, limit)| <= limit
    ensures forall i :: 0 <= i < |resp.body.users| ==> skip + i < |rows| && resp.body.users[i] == ToUser(rows[skip + i])
  {
    Response(200, Many(Serialize(GetMulti(rows, skip, limit))))
  }

  /** `GET /users/{user_id}`: 404 exactly when no row has the id, else 200 with that row. */
  function ReadUserById(rows: seq<UserRecord>, userId: int): (resp: Response)
    ensures resp.status == 200 || resp == NotFound
    ensures resp == NotFound <==> forall j :: 0 <= j < |rows| ==> rows[j].id != userId
    ensures resp.status == 200 ==> exists j :: 0 <= j < |rows| && rows[j].id == userId && resp.body == One(ToUser(rows[j]))
  {
    match Get(rows, userId)
    case None => NotFound
    case Some(user) => Response(200, One(ToUser(user)))
  }

  /** `GET /users/by-email/{email}`: 404 exactly when no row has the email, else 200 with the first that does. */
  function ReadUserByEmail(rows: seq<UserRecord>, email: string): (resp: Response)
    ensures resp.status == 200 || resp == NotFound
    ensures resp == NotFound <==> forall j :: 0 <= j < |rows| ==> rows[j].email != Some(email)
    ensures resp.status == 200 ==> resp.body.One? && resp.body.user.email == Some(email)
    ensures resp.status == 200 ==> exists k :: 0 <= k < |rows| && resp.body == One(ToUser(rows[k])) && NoMatchBefore(rows, Email, StrValue(email), k)
  {
    match GetByEmail(rows, email)
    case None => NotFound
    case Some(user) => Response(200, One(ToUser(user)))
  }

  /** No two rows share an email. */
  predicate EmailsUnique(rows: seq<UserRecord>) {
    forall i, j :: 0 <= i < j < |rows| && rows[i].email.Some? ==> rows[i].email != rows[j].email
  }

  /** Appending a row whose email no row has keeps emails unique (the check-then-act of `create_user`). */
  lemma CreateKeepsEmailsUnique(rows: seq<UserRecord>, rec: UserRecord)
    requires EmailsUnique(rows) && rec.email.Some? && GetByEmail(rows, rec.email.value).None?
    ensures EmailsUnique(rows + [rec])
  {
    var s := rows + [rec];
    forall i, j | 0 <= i < j < |s| && s[i].email.Some? ensures s[i].email != s[j].email {
      assert s[i] == rows[i];
      if j < |rows| {
        assert s[j] == rows[j];
      }
    }
  }

  /** Rows that differ at most in their stored credential. */
  predicate SamePublic(rows: seq<UserRecord>, other: seq<UserRecord>) {
    |rows| == |other| && forall i :: 0 <= i < |rows| ==> other[i] == rows[i].(hashedPassword := other[i].hashedPassword)
  }

  lemma {:induction false} FirstIndexIgnoresPassword(rows: seq<UserRecord>, other: seq<UserRecord>, f: Field, v: Value)
    requires SamePublic(rows, other) && f != HashedPassword
    ensures FirstIndex(rows, f, v) == FirstIndex(other, f, v)
  {
    if rows != [] {
      assert other[0] == rows[0].(hashedPassword := other[0].hashedPassword);
      assert SamePublic(rows[1..], other[1..]) by {
        forall i | 0 <= i < |rows| - 1 ensures other[1..][i] == rows[1..][i].(hashedPassword := other[1..][i].hashedPassword) {
          assert other[i + 1] == rows[i + 1].(hashedPassword := other[i + 1].hashedPassword);
        }
      }
      FirstIndexIgnoresPassword(rows[1..], other[1..], f, v);
    }
  }

  /** No read handler's response depends on stored credentials: changing every password changes no response. */
  lemma ResponsesNeverCarryPassword(rows: seq<UserRecord>, other: seq<UserRecord>, skip: nat, limit: nat, userId: int, email: string)
    requires SamePublic(rows, other)
    ensures ReadUsers(rows, skip, limit) == ReadUsers(other, skip, limit)
    ensures ReadUserById(rows, userId) == ReadUserById(other, userId)
    ensures ReadUserByEmail(rows, email) == ReadUserByEmail(other, email)
  {
    FirstIndexIgnoresPassword(rows, other, Id, IntValue(userId));
    FirstIndexIgnoresPassword(rows, other, Email, StrValue(email));
    var a, b := ReadUsers(rows, skip, limit).body.users, ReadUsers(other, skip, limit).body.users;
    assert |a| == |b|;
    forall i | 0 <= i < |a| ensures a[i] == b[i] {
      assert other[skip + i] == rows[skip + i].(hashedPassword := other[skip + i].hashedPassword);
    }
    var k := FirstIndex(rows, Id, IntValue(userId));
    if k < |rows| {
      assert other[k] == rows[k].(hashedPassword := other[k].hashedPassword);
    }
    var m := FirstIndex(rows, Email, StrValue(email));
    if m < |rows| {
      assert other[m] == rows[m].(hashedPassword := other[m].hashedPassword);
    }
  }

  /** `POST /users/`: 409 and no change when the email is taken; otherwise create and answer 201 with the new user. */
  method CreateUser(store: UserStore, userIn: UserCreate) returns (resp: Response)
    requires store.Valid()
    modifies store
    ensures store.Valid()
    ensures GetByEmail(old(store.rows), userIn.email).Some? ==>
      resp == Response(409, Detail(ConflictDetail)) && store.rows == old(store.rows) && store.nextId == old(store.nextId)
    ensures GetByEmail(old(store.rows), userIn.email).None? ==>
      && resp == Response(201, One(ToUser(FromCreate(old(store.nextId), userIn))))
      && store.rows == old(store.rows) + [FromCreate(old(store.nextId), userIn)]
      && store.nextId == old(store.nextId) + 1
    ensures EmailsUnique(old(store.rows)) ==> EmailsUnique(store.rows)
  {
    var existing := GetByEmail(store.rows, userIn.email);
    if existing.Some? {
      return Response(409, Detail(ConflictDetail));
    }
    ghost var before := store.rows;
    var user := store.Create(userIn);
    if EmailsUnique(before) {
      CreateKeepsEmailsUnique(before, user);
    }
    resp := Response(201, One(ToUser(user)));
  }

  /**
   * `PUT /users/{user_id}`: 404 and no change for an absent id; a `ValueError`
   * from the user repository's update turns into 400 with its message and no
   * change; otherwise 200 with the partially updated row. `valueError` stands
   * for the repository's validity rule, which is not part of this model.
   */
  method UpdateUser(store: UserStore, userId: int, userIn: UserUpdate, valueError: (UserRecord, UserUpdate) -> Option<string>)
    returns (resp: Response)
    requires store.Valid()
    modifies store
    ensures store.Valid() && store.nextId == old(store.nextId)
    ensures Get(old(store.rows), userId).None? ==> resp == NotFound && store.rows == old(store.rows)
    ensures Get(old(store.rows), userId).Some? && valueError(Get(old(store.rows), userId).value, userIn).Some? ==>
      && resp == Response(400, Detail(valueError(Get(old(store.rows), userId).value, userIn).value))
      && store.rows == old(store.rows)
    ensures Get(old(store.rows), userId).Some? && valueError(Get(old(store.rows), userId).value, userIn).None? ==>
      && resp == Response(200, One(ToUser(Patched(Get(old(store.rows), userId).value, userIn))))
      && store.rows == Replace(old(store.rows), Patched(Get(old(store.rows), userId).value, userIn))
      && Get(store.rows, userId) == Some(Patched(Get(old(store.rows), userId).value, userIn))
    ensures forall id :: id != userId ==> Get(store.rows, id) == Get(old(store.rows), id)
  {
    var user := Get(store.rows, userId);
    if user.None? {
      return NotFound;
    }
    var err := valueError(user.value, userIn);
    if err.Some? {
      return Response(400, Detail(err.value));
    }
    var updated := store.Update(user.value, userIn);
    resp := Response(200, One(ToUser(updated)));
  }

  /** `DELETE /users/{user_id}`: 404 and no change for an absent id; otherwise remove the row and answer 204 with no body. */
  method DeleteUser(store: UserStore, userId: int) returns (resp: Response)
    requires store.Valid()
    modifies store
    ensures store.Valid() && store.nextId == old(store.nextId)
    ensures Get(old(store.rows), userId).None? ==> resp == NotFound && store.rows == old(store.rows)
    ensures Get(old(store.rows), userId).Some? ==>
      resp == Response(204, NoContent) && store.rows == Delete(old(store.rows), userId)
    ensures resp.status == 204 ==> ReadUserById(store.rows, userId) == NotFound
    ensures forall id :: id != userId ==> Get(store.rows, id) == Get(old(store.rows), id)
  {
    var user := Get(store.rows, userId);
    if user.None? {
      return NotFound;
    }
    var _ := store.Remove(userId);
    resp := Response(204, NoContent);
  }

  /** What the handlers see on a table holding one row, before and after it is replaced by a row with its key. */
  lemma OneRowLifecycle(row: UserRecord, next: UserRecord)
    requires next.id == row.id
    ensures Get([row], row.id) == Some(row)
    ensures ReadUserById([row], row.id) == Response(200, One(ToUser(row)))
    ensures Replace([row], next) == [next]
    ensures Delete([next], row.id) == []
    ensures ReadUserById([], row.id) == NotFound
  {
    assert [next][..0] + [next][1..] == [];
  }

  /**
   * The lifecycle of one user through the handlers: create (201), read (200),
   * change the email (200), delete (204), read again (404).
   */
  method Lifecycle(store: UserStore, userIn: UserCreate, newEmail: string, noError: (UserRecord, UserUpdate) -> Option<string>)
    returns (created: Response, read: Response, updated: Response, deleted: Response, gone: Response)
    requires store.Valid() && store.rows == []
    requires forall r, u :: noError(r, u).None?
    modifies store
    ensures created.status == 201 && created.body.One? && created.body.user.email == Some(userIn.email)
    ensures read == Response(200, created.body)
    ensures updated.status == 200 && updated.body.One? && updated.body.user.email == Some(newEmail)
    ensures updated.body.user.id == created.body.user.id && updated.body.user.isActive == created.body.user.isActive
    ensures deleted == Response(204, NoContent)
    ensures gone == NotFound
  {
    ghost var first := store.nextId;
    created := CreateUser(store, userIn);
    ghost var row := FromCreate(first, userIn);
    var id := created.body.user.id;
    var change := UserUpdate(email := Some(Some(newEmail)));
    OneRowLifecycle(row, Patched(row, change));
    read := ReadUserById(store.rows, id);
    assert noError(row, change).None?;
    updated := UpdateUser(store, id, change, noError);
    deleted := DeleteUser(store, id);
    gone := ReadUserById(store.rows, id);
  }
}
