/**
 * The request and response schemas for users. `UserBase` contributes the
 * shared fields and their defaults (email None, is_active True,
 * is_superuser False); `UserCreate` makes email and password required;
 * `UserUpdate` adds an optional password; the response schema `User` adds
 * the id and has no password field at all.
 */
module Schemas {
  import opened Wrappers
  import opened UserModel

  /** A validated create payload; defaults apply to the omitted fields. */
  datatype UserCreate = UserCreate(
    email: string,
    password: string,
    isActive: Option<bool> := Some(true),
    isSuperuser: bool := false)

  /**
   * A validated update payload. For each field the outer `Option` records
   * whether the client supplied it at all: `None` is "not set", `Some(None)`
   * is "explicitly set to null". `is_superuser` is not nullable.
   */
  datatype UserUpdate = UserUpdate(
    email: Option<Option<string>> := None,
    isActive: Option<Option<bool>> := None,
    isSuperuser: Option<bool> := None,
    password: Option<Option<string>> := None)
  {
    /** The attribute values pydantic exposes: the supplied value if set, else the field's default. */
    function EmailValue(): (v: Option<string>)
      ensures email.Some? ==> v == email.value
      ensures email.None? ==> v.None?
    {
      if email.Some? then email.value else None
    }

    function IsActiveValue(): (v: Option<bool>)
      ensures isActive.Some? ==> v == isActive.value
      ensures isActive.None? ==> v == Some(true)
    {
      if isActive.Some? then isActive.value else Some(true)
    }

    function IsSuperuserValue(): (v: bool)
      ensures isSuperuser.Some? ==> v == isSuperuser.value
      ensures isSuperuser.None? ==> !v
    {
      if isSuperuser.Some? then isSuperuser.value else false
    }

    function PasswordValue(): (v: Option<string>)
      ensures password.Some? ==> v == password.value
      ensures password.None? ==> v.None?
    {
      if password.Some? then password.value else None
    }
  }

  /** The response schema: every public column, and no password. */
  datatype User = User(id: int, email: Option<string>, isActive: Option<bool>, isSuperuser: bool)

  /** One `field: value` entry of `model_dump(exclude_unset=True)`. */
  datatype Assignment =
    | SetEmail(email: Option<string>)
    | SetIsActive(isActive: Option<bool>)
    | SetIsSuperuser(isSuperuser: bool)
    | SetPassword(password: Option<string>)

  function AssignedField(a: Assignment): Field {
    match a
    case SetEmail(_) => Email
    case SetIsActive(_) => IsActive
    case SetIsSuperuser(_) => IsSuperuser
    case SetPassword(_) => HashedPassword
  }

  /** The value one dump entry writes into its column. */
  function AssignedValue(a: Assignment): Value {
    match a
    case SetEmail(e) => OptStr(e)
    case SetIsActive(b) => OptBool(b)
    case SetIsSuperuser(b) => BoolValue(b)
    case SetPassword(p) => OptStr(p)
  }

  /** Whether the payload explicitly supplies the column `f`; it never supplies the primary key. */
  predicate IsSetIn(u: UserUpdate, f: Field) {
    match f
    case Id => false
    case Email => u.email.Some?
    case HashedPassword => u.password.Some?
    case IsActive => u.isActive.Some?
    case IsSuperuser => u.isSuperuser.Some?
  }

  /**
   * `model_dump(exclude_unset=True)`: the explicitly supplied fields, in
   * declaration order, each once; fields left at their default are absent.
   */
  function DumpUnset(u: UserUpdate): (data: seq<Assignment>)
    ensures |data| <= 4
    ensures forall i :: 0 <= i < |data| ==> AssignedField(data[i]) != Id
    ensures forall i, j :: 0 <= i < j < |data| ==> AssignedField(data[i]) != AssignedField(data[j])
    ensures data == [] <==> u == UserUpdate()
  {
    (if u.email.Some? then [SetEmail(u.email.value)] else [])
    + (if u.isActive.Some? then [SetIsActive(u.isActive.value)] else [])
    + (if u.isSuperuser.Some? then [SetIsSuperuser(u.isSuperuser.value)] else [])
    + (if u.password.Some? then [SetPassword(u.password.value)] else [])
  }
  /** The dump holds an entry for a field exactly when the payload supplies it, carrying the supplied value. */
  lemma DumpListsSuppliedFields(u: UserUpdate)
    ensures u.email.Some? ==> SetEmail(u.email.value) in DumpUnset(u)
    ensures u.isActive.Some? ==> SetIsActive(u.isActive.value) in DumpUnset(u)
    ensures u.isSuperuser.Some? ==> SetIsSuperuser(u.isSuperuser.value) in DumpUnset(u)
    ensures u.password.Some? ==> SetPassword(u.password.value) in DumpUnset(u)
    ensures forall i :: 0 <= i < |DumpUnset(u)| ==> IsSetIn(u, AssignedField(DumpUnset(u)[i]))
  {
    var e := if u.email.Some? then [SetEmail(u.email.value)] else [];
    var a := if u.isActive.Some? then [SetIsActive(u.isActive.value)] else [];
    var s := if u.isSuperuser.Some? then [SetIsSuperuser(u.isSuperuser.value)] else [];
    var p := if u.password.Some? then [SetPassword(u.password.value)] else [];
    assert DumpUnset(u) == e + a + s + p;
  }


  /** Serialising a row through the response schema (`from_attributes`). */
  function ToUser(r: UserRecord): (u: User)
    ensures u.id == r.id && u.email == r.email
    ensures u.isActive == r.isActive && u.isSuperuser == r.isSuperuser
  {
    User(r.id, r.email, r.isActive, r.isSuperuser)
  }

  /** Two rows that differ only in the stored credential serialise identically. */
  lemma ResponseOmitsPassword(r: UserRecord, pw: Option<string>)
    ensures ToUser(r.(hashedPassword := pw)) == ToUser(r)
  {
  }

  /** `UserCreate(email=..., password=...)` fills in is_active True and is_superuser False. */
  lemma UserCreateDefaults(email: string, password: string)
    ensures UserCreate(email, password).isActive == Some(true)
    ensures !UserCreate(email, password).isSuperuser
  {
  }

  /** An empty `UserUpdate()` reads as email None, password None, is_active True, yet sets nothing. */
  lemma UserUpdateDefaults()
    ensures UserUpdate().EmailValue() == None && UserUpdate().PasswordValue() == None
    ensures UserUpdate().IsActiveValue() == Some(true) && !UserUpdate().IsSuperuserValue()
    ensures DumpUnset(UserUpdate()) == []
  {
  }
}
