/**
 * The declarative base every ORM model derives from: each model has an
 * integer primary key `id` (see UserModel.UserRecord) and its table is named
 * after the class, lower-cased.
 */
module BaseClass {

  predicate IsAsciiUpper(c: char) {
    'A' <= c <= 'Z'
  }

  /** `str.lower()` on one character, for the ASCII range. */
  function LowerChar(c: char): (d: char)
    ensures !IsAsciiUpper(d)
    ensures IsAsciiUpper(c) ==> d as int == c as int + 32
    ensures !IsAsciiUpper(c) ==> d == c
  {
    if IsAsciiUpper(c) then (c as int + 32) as char else c
  }

  /** `__tablename__`: the model's class name, lower-cased character by character. */
  function TableName(className: string): (name: string)
    ensures |name| == |className|
    ensures forall i :: 0 <= i < |name| ==> name[i] == LowerChar(className[i])
    ensures forall i :: 0 <= i < |name| ==> !IsAsciiUpper(name[i])
  {
    if className == [] then [] else [LowerChar(className[0])] + TableName(className[1..])
  }

  /** A name with no upper-case letter is its own table name. */
  lemma {:induction false} TableNameOfLowerIsIdentity(name: string)
    requires forall i :: 0 <= i < |name| ==> !IsAsciiUpper(name[i])
    ensures TableName(name) == name
  {
    if name != [] {
      TableNameOfLowerIsIdentity(name[1..]);
    }
  }

  /** Applying the rule twice gives the same table name as applying it once. */
  lemma TableNameIdempotent(className: string)
    ensures TableName(TableName(className)) == TableName(className)
  {
    TableNameOfLowerIsIdentity(TableName(className));
  }

  /** The one model of this service lives in table `user`. */
  lemma UserTableName()
    ensures TableName("User") == "user"
  {
    assert TableName("User") == [LowerChar('U')] + TableName("ser");
    TableNameOfLowerIsIdentity("ser");
  }
}
