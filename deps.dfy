/**
 * The authentication dependencies: decode the bearer token, load the user it
 * names, then check the active or the superuser flag. Each guard either
 * passes the user on unchanged or fails with its own HTTP status and detail,
 * and a later guard runs only when the one it depends on produced a user.
 * Token decoding (signature, expiry, payload shape) is a parameter that
 * yields the subject id or nothing.
 */
module Deps {
  import opened Wrappers
  import opened UserModel
  import Crud

  /** An `HTTPException` raised by a guard. */
  datatype HttpError = HttpError(status: int, detail: string)

  const CredentialsError := HttpError(403, "Could not validate credentials")
  const UserNotFoundError := HttpError(404, "User not found")
  const InactiveError := HttpError(400, "Inactive user")
  const PrivilegesError := HttpError(400, "The user doesn't have enough privileges")

  /** `get_current_user`: a token that does not decode is refused before any lookup; a subject with no row is not found. */
  function GetCurrentUser(rows: seq<UserRecord>, token: string, decode: string -> Option<int>): (r: Result<UserRecord, HttpError>)
    ensures decode(token).None? <==> r == Failure(CredentialsError)
    ensures r == Failure(UserNotFoundError) <==> decode(token).Some? && forall j :: 0 <= j < |rows| ==> rows[j].id != decode(token).value
    ensures r.Success? ==> decode(token).Some? && r.value in rows && r.value.id == decode(token).value
  {
    match decode(token)
    case None => Failure(CredentialsError)
    case Some(sub) =>
      match Crud.Get(rows, sub)
      case None => Failure(UserNotFoundError)
      case Some(user) => Success(user)
  }

  /** `get_current_active_user`: the current user, if that user is active. */
  function GetCurrentActiveUser(rows: seq<UserRecord>, token: string, decode: string -> Option<int>): (r: Result<UserRecord, HttpError>)
    ensures GetCurrentUser(rows, token, decode).Failure? ==> r == GetCurrentUser(rows, token, decode)
    ensures GetCurrentUser(rows, token, decode).Success? ==>
      r == if IsActiveUser(GetCurrentUser(rows, token, decode).value) then GetCurrentUser(rows, token, decode) else Failure(InactiveError)
  {
    var user :- GetCurrentUser(rows, token, decode);
    if !IsActiveUser(user) then Failure(InactiveError) else Success(user)
  }

  /** `get_current_active_superuser`: depends on the current user directly, so it never looks at the active flag. */
  function GetCurrentActiveSuperuser(rows: seq<UserRecord>, token: string, decode: string -> Option<int>): (r: Result<UserRecord, HttpError>)
    ensures GetCurrentUser(rows, token, decode).Failure? ==> r == GetCurrentUser(rows, token, decode)
    ensures GetCurrentUser(rows, token, decode).Success? ==>
      r == if IsSuperuserUser(GetCurrentUser(rows, token, decode).value) then GetCurrentUser(rows, token, decode) else Failure(PrivilegesError)
  {
    var user :- GetCurrentUser(rows, token, decode);
    if !IsSuperuserUser(user) then Failure(PrivilegesError) else Success(user)
  }

  /** A token that fails to decode gets the same 403 from every guard, whatever the table holds. */
  lemma BadTokenNeverReachesStore(rows: seq<UserRecord>, other: seq<UserRecord>, token: string, decode: string -> Option<int>)
    requires decode(token).None?
    ensures GetCurrentUser(rows, token, decode) == GetCurrentUser(other, token, decode) == Failure(CredentialsError)
    ensures GetCurrentActiveUser(rows, token, decode) == Failure(CredentialsError)
    ensures GetCurrentActiveSuperuser(rows, token, decode) == Failure(CredentialsError)
  {
  }

  /** With unique keys, a decodable token resolves to exactly the stored row with the subject's id. */
  lemma CurrentUserIsSubject(rows: seq<UserRecord>, token: string, decode: string -> Option<int>, user: UserRecord)
    requires Crud.UniqueIds(rows)
    ensures GetCurrentUser(rows, token, decode) == Success(user) <==> decode(token) == Some(user.id) && user in rows
  {
    Crud.GetFindsRow(rows, user);
  }

  /** The guards are checks only: whatever they let through is the user the first stage returned. */
  lemma GuardsPassUserUnchanged(rows: seq<UserRecord>, token: string, decode: string -> Option<int>)
    ensures GetCurrentActiveUser(rows, token, decode).Success? ==>
      GetCurrentActiveUser(rows, token, decode) == GetCurrentUser(rows, token, decode)
      && IsActiveUser(GetCurrentUser(rows, token, decode).value)
    ensures GetCurrentActiveSuperuser(rows, token, decode).Success? ==>
      GetCurrentActiveSuperuser(rows, token, decode) == GetCurrentUser(rows, token, decode)
      && IsSuperuserUser(GetCurrentUser(rows, token, decode).value)
  {
  }

  /** An inactive superuser is refused by the active-user guard but admitted by the superuser guard. */
  lemma InactiveSuperuserPasses(rows: seq<UserRecord>, token: string, decode: string -> Option<int>)
    requires GetCurrentUser(rows, token, decode).Success?
    requires var u := GetCurrentUser(rows, token, decode).value; u.isSuperuser && u.isActive != Some(true)
    ensures GetCurrentActiveUser(rows, token, decode) == Failure(InactiveError)
    ensures GetCurrentActiveSuperuser(rows, token, decode) == GetCurrentUser(rows, token, decode)
  {
  }
}
