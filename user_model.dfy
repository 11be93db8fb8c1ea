/**
 * The persisted user row. The ORM model file that declares its columns is
 * not part of this model. The row has the primary key `id` every model
 * inherits, the `email`, `is_active` and `is_superuser` columns the schemas
 * share with it, and the stored credential column `hashed_password`, which
 * the user repository fills from a payload's `password`. Columns are
 * nullable exactly where the schemas allow `None` to be written into them.
 */
module UserModel {
  import opened Wrappers

  datatype UserRecord = UserRecord(
    id: int,
    email: Option<string>,
    hashedPassword: Option<string>,
    isActive: Option<bool>,
    isSuperuser: bool)

  /** The columns `getattr` can name. */
  datatype Field = Id | Email | HashedPassword | IsActive | IsSuperuser

  /** A column value as the query layer compares it; `NoneValue` is SQL NULL. */
  datatype Value = IntValue(i: int) | StrValue(s: string) | BoolValue(b: bool) | NoneValue

  function OptStr(o: Option<string>): Value {
    if o.Some? then StrValue(o.value) else NoneValue
  }

  function OptBool(o: Option<bool>): Value {
    if o.Some? then BoolValue(o.value) else NoneValue
  }

  /** `getattr(record, field)`: the key is an integer, the other columns strings or flags, NULL only where nullable. */
  function FieldValue(r: UserRecord, f: Field): (v: Value)
    ensures v.IntValue? <==> f == Id
    ensures f == Id ==> v.i == r.id
    ensures v.StrValue? ==> f == Email || f == HashedPassword
    ensures v.BoolValue? ==> f == IsActive || f == IsSuperuser
    ensures v.NoneValue? ==> f != Id && f != IsSuperuser
  {
    match f
    case Id => IntValue(r.id)
    case Email => OptStr(r.email)
    case HashedPassword => OptStr(r.hashedPassword)
    case IsActive => OptBool(r.isActive)
    case IsSuperuser => BoolValue(r.isSuperuser)
  }

  /** The column attribute names of the model; any other name is treated as a `getattr` fault. */
  function FieldNamed(name: string): (f: Option<Field>)
    ensures name == "id" <==> f == Some(Id)
    ensures name == "email" <==> f == Some(Email)
    ensures name == "hashed_password" <==> f == Some(HashedPassword)
    ensures name == "is_active" <==> f == Some(IsActive)
    ensures name == "is_superuser" <==> f == Some(IsSuperuser)
    ensures f.None? <==> name !in {"id", "email", "hashed_password", "is_active", "is_superuser"}
  {
    if name == "id" then Some(Id)
    else if name == "email" then Some(Email)
    else if name == "hashed_password" then Some(HashedPassword)
    else if name == "is_active" then Some(IsActive)
    else if name == "is_superuser" then Some(IsSuperuser)
    else None
  }

  /** A row is determined by what `getattr` reads from its columns. */
  lemma FieldValuesDetermineRow(r: UserRecord, s: UserRecord)
    requires forall f :: FieldValue(r, f) == FieldValue(s, f)
    ensures r == s
  {
    assert FieldValue(r, Id) == FieldValue(s, Id);
    assert FieldValue(r, Email) == FieldValue(s, Email);
    assert FieldValue(r, HashedPassword) == FieldValue(s, HashedPassword);
    assert FieldValue(r, IsActive) == FieldValue(s, IsActive);
    assert FieldValue(r, IsSuperuser) == FieldValue(s, IsSuperuser);
  }

  /** The user repository's `is_active`: a NULL flag is falsy, so such a user is inactive. */
  predicate IsActiveUser(r: UserRecord): (b: bool)
    ensures b <==> FieldValue(r, IsActive) == BoolValue(true)
    ensures r.isActive.None? ==> !b
  {
    r.isActive == Some(true)
  }

  /** The user repository's `is_superuser`. */
  predicate IsSuperuserUser(r: UserRecord): (b: bool)
    ensures b <==> FieldValue(r, IsSuperuser) == BoolValue(true)
  {
    r.isSuperuser
  }
}
