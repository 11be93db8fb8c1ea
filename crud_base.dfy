/**
 * The generic CRUD layer instantiated for the user model, over an in-memory
 * table. Rows are kept in insertion order, which fixes the order that
 * "first match" and offset/limit paging observe. Queries are functions of
 * the table; `create`, `update` and `remove` are methods of `UserStore`.
 */
module Crud {
  import opened Wrappers
  import opened UserModel
  import opened Schemas

  /** A programming error: `getattr` on a name the model does not have. */
  datatype Fault = AttributeError(name: string)

  /** Primary keys are unique within the table. */
  predicate UniqueIds(rows: seq<UserRecord>) {
    forall i, j :: 0 <= i < j < |rows| ==> rows[i].id != rows[j].id
  }

  /** No row before position `k` has `f == v`. */
  predicate NoMatchBefore(rows: seq<UserRecord>, f: Field, v: Value, k: int) {
    forall j :: 0 <= j < k && j < |rows| ==> FieldValue(rows[j], f) != v
  }

  /** Position of the first row whose field `f` equals `v`, or `|rows|` if none does. */
  function FirstIndex(rows: seq<UserRecord>, f: Field, v: Value): (k: nat)
    ensures k <= |rows|
    ensures k < |rows| ==> FieldValue(rows[k], f) == v
    ensures NoMatchBefore(rows, f, v, k)
  {
    if rows == [] then 0
    else if FieldValue(rows[0], f) == v then 0
    else 1 + FirstIndex(rows[1..], f, v)
  }

  /** `get_by_field`: `filter(field == value).first()`. */
  function GetByField(rows: seq<UserRecord>, f: Field, v: Value): (r: Option<UserRecord>)
    ensures r.None? <==> forall j :: 0 <= j < |rows| ==> FieldValue(rows[j], f) != v
    ensures r.Some? ==> exists k :: 0 <= k < |rows| && rows[k] == r.value && FieldValue(rows[k], f) == v && NoMatchBefore(rows, f, v, k)
  {
    var k := FirstIndex(rows, f, v);
    if k < |rows| then Some(rows[k]) else None
  }

  /** `get_by_field` with the field given by name: an unknown name is a fault, not an empty result. */
  function GetByFieldName(rows: seq<UserRecord>, name: string, v: Value): (r: Result<Option<UserRecord>, Fault>)
    ensures r.Failure? <==> FieldNamed(name).None?
    ensures r.Failure? ==> r.error == AttributeError(name)
    ensures r.Success? ==> r.value == GetByField(rows, FieldNamed(name).value, v)
  {
    match FieldNamed(name)
    case None => Failure(AttributeError(name))
    case Some(f) => Success(GetByField(rows, f, v))
  }

  /** `get`: the row whose primary key is `id`. */
  function Get(rows: seq<UserRecord>, id: int): (r: Option<UserRecord>)
    ensures r.None? <==> forall j :: 0 <= j < |rows| ==> rows[j].id != id
    ensures r.Some? ==> r.value in rows && r.value.id == id
  {
    GetByField(rows, Id, IntValue(id))
  }

  /** With unique keys, `get` finds every row by its own id, and only it. */
  lemma GetFindsRow(rows: seq<UserRecord>, r: UserRecord)
    requires UniqueIds(rows)
    ensures Get(rows, r.id) == Some(r) <==> r in rows
  {
    if r in rows {
      var k :| 0 <= k < |rows| && rows[k] == r;
      var m := FirstIndex(rows, Id, IntValue(r.id));
      assert m <= k by {
        assert FieldValue(rows[k], Id) == IntValue(r.id);
      }
      assert rows[m].id == r.id;
      assert m == k;
    }
  }

  /** The user repository's `get_by_email`: `get_by_field` on the email column. */
  function GetByEmail(rows: seq<UserRecord>, email: string): (r: Option<UserRecord>)
    ensures r.None? <==> forall j :: 0 <= j < |rows| ==> rows[j].email != Some(email)
    ensures r.Some? ==> r.value in rows && r.value.email == Some(email)
    ensures r.Some? ==> exists k :: 0 <= k < |rows| && rows[k] == r.value && NoMatchBefore(rows, Email, StrValue(email), k)
  {
    GetByField(rows, Email, StrValue(email))
  }

  /** A user found by email is the very row `get` returns for its id. */
  lemma GetByEmailAgreesWithGet(rows: seq<UserRecord>, email: string)
    requires UniqueIds(rows)
    ensures GetByEmail(rows, email).Some? ==> Get(rows, GetByEmail(rows, email).value.id) == GetByEmail(rows, email)
  {
    if GetByEmail(rows, email).Some? {
      GetFindsRow(rows, GetByEmail(rows, email).value);
    }
  }

  function Min(a: int, b: int): int {
    if a < b then a else b
  }

  /** `get_multi`: `OFFSET skip LIMIT limit` over the table in row order. */
  function GetMulti(rows: seq<UserRecord>, skip: nat := 0, limit: nat := 100): (page: seq<UserRecord>)
    ensures |page| <= limit
    ensures |page| == if skip >= |rows| then 0 else Min(limit, |rows| - skip)
    ensures forall i :: 0 <= i < |page| ==> skip + i < |rows| && page[i] == rows[skip + i]
  {
    if skip >= |rows| then [] else rows[skip..skip + Min(limit, |rows| - skip)]
  }

  /** Consecutive pages tile the table: a page of `a + b` rows is a page of `a` followed by the next `b`. */
  lemma {:induction false} GetMultiSplits(rows: seq<UserRecord>, skip: nat, a: nat, b: nat)
    ensures GetMulti(rows, skip, a + b) == GetMulti(rows, skip, a) + GetMulti(rows, skip + a, b)
  {
    var whole, left, right := GetMulti(rows, skip, a + b), GetMulti(rows, skip, a), GetMulti(rows, skip + a, b);
    assert |whole| == |left| + |right|;
    forall i | 0 <= i < |whole|
      ensures whole[i] == (left + right)[i]
    {
      if i >= |left| {
        assert right[i - |left|] == rows[skip + a + (i - |left|)];
      }
    }
  }

  /** The row `self.model(**obj_in.model_dump())` builds, once the store assigns it `id`. */
  function FromCreate(id: int, c: UserCreate): (r: UserRecord)
    ensures r.id == id && r.email == Some(c.email) && r.hashedPassword == Some(c.password)
    ensures r.isActive == c.isActive && r.isSuperuser == c.isSuperuser
  {
    UserRecord(id, Some(c.email), Some(c.password), c.isActive, c.isSuperuser)
  }

  /** `setattr(db_obj, field, value)` for one dumped entry. */
  function SetAttr(r: UserRecord, a: Assignment): (s: UserRecord)
    ensures s.id == r.id
    ensures FieldValue(s, AssignedField(a)) == AssignedValue(a)
    ensures forall f :: f != AssignedField(a) ==> FieldValue(s, f) == FieldValue(r, f)
  {
    match a
    case SetEmail(e) => r.(email := e)
    case SetIsActive(b) => r.(isActive := b)
    case SetIsSuperuser(b) => r.(isSuperuser := b)
    case SetPassword(p) => r.(hashedPassword := p)
  }

  /** The record after the loop over `update_data` has run over `data`, in order. */
  function ApplyAll(r: UserRecord, data: seq<Assignment>): (s: UserRecord)
    ensures s.id == r.id
    ensures data == [] ==> s == r
    ensures data != [] ==> FieldValue(s, AssignedField(data[|data| - 1])) == AssignedValue(data[|data| - 1])
  {
    if data == [] then r else SetAttr(ApplyAll(r, data[..|data| - 1]), data[|data| - 1])
  }

  /** A column that no entry names keeps its value through the `setattr` loop. */
  lemma {:induction false} ApplyAllKeepsUnnamed(r: UserRecord, data: seq<Assignment>, f: Field)
    requires forall i :: 0 <= i < |data| ==> AssignedField(data[i]) != f
    ensures FieldValue(ApplyAll(r, data), f) == FieldValue(r, f)
  {
    if data != [] {
      var init := data[..|data| - 1];
      assert forall i :: 0 <= i < |init| ==> AssignedField(init[i]) != f by {
        forall i | 0 <= i < |init| ensures AssignedField(init[i]) != f {
          assert init[i] == data[i];
        }
      }
      assert AssignedField(data[|data| - 1]) != f;
      ApplyAllKeepsUnnamed(r, init, f);
    }
  }

  lemma {:induction false} ApplyAllConcat(r: UserRecord, a: seq<Assignment>, b: seq<Assignment>)
    ensures ApplyAll(r, a + b) == ApplyAll(ApplyAll(r, a), b)
  {
    if b != [] {
      assert (a + b)[..|a + b| - 1] == a + b[..|b| - 1];
      ApplyAllConcat(r, a, b[..|b| - 1]);
    } else {
      assert a + b == a;
    }
  }

  /** The value the payload supplies for a field it sets. */
  function SuppliedValue(u: UserUpdate, f: Field): Value
    requires IsSetIn(u, f)
  {
    match f
    case Email => OptStr(u.email.value)
    case HashedPassword => OptStr(u.password.value)
    case IsActive => OptBool(u.isActive.value)
    case IsSuperuser => BoolValue(u.isSuperuser.value)
  }

  /** Reference meaning of a partial update: each supplied field replaced, every other field kept. */
  function Patched(r: UserRecord, u: UserUpdate): UserRecord {
    UserRecord(
      r.id,
      if u.email.Some? then u.email.value else r.email,
      if u.password.Some? then u.password.value else r.hashedPassword,
      if u.isActive.Some? then u.isActive.value else r.isActive,
      if u.isSuperuser.Some? then u.isSuperuser.value else r.isSuperuser)
  }

  /** A dump entry that may be absent: applying nothing or applying the one entry. */
  lemma ApplyAtMostOne(r: UserRecord, p: seq<Assignment>, a: Assignment)
    requires p == [] || p == [a]
    ensures ApplyAll(r, p) == if p == [] then r else SetAttr(r, a)
  {
    if p == [a] {
      assert p[..0] == [];
    }
  }

  /** The loop over four consecutive runs of entries is the four loops in turn. */
  lemma ApplyFourRuns(r: UserRecord, e: seq<Assignment>, a: seq<Assignment>, s: seq<Assignment>, p: seq<Assignment>)
    ensures ApplyAll(r, e + a + s + p) == ApplyAll(ApplyAll(ApplyAll(ApplyAll(r, e), a), s), p)
  {
    ApplyAllConcat(r, e + a + s, p);
    ApplyAllConcat(r, e + a, s);
    ApplyAllConcat(r, e, a);
  }

  /** The email entry of a dump, present exactly when the email is supplied. */
  lemma ApplyEmailEntry(r: UserRecord, o: Option<Option<string>>)
    ensures ApplyAll(r, if o.Some? then [SetEmail(o.value)] else []) == r.(email := if o.Some? then o.value else r.email)
  {
    ApplyAtMostOne(r, if o.Some? then [SetEmail(o.value)] else [], SetEmail(if o.Some? then o.value else None));
  }

  /** The is_active entry of a dump, present exactly when the flag is supplied. */
  lemma ApplyIsActiveEntry(r: UserRecord, o: Option<Option<bool>>)
    ensures ApplyAll(r, if o.Some? then [SetIsActive(o.value)] else []) == r.(isActive := if o.Some? then o.value else r.isActive)
  {
    ApplyAtMostOne(r, if o.Some? then [SetIsActive(o.value)] else [], SetIsActive(if o.Some? then o.value else None));
  }

  /** The is_superuser entry of a dump, present exactly when the flag is supplied. */
  lemma ApplyIsSuperuserEntry(r: UserRecord, o: Option<bool>)
    ensures ApplyAll(r, if o.Some? then [SetIsSuperuser(o.value)] else []) == r.(isSuperuser := if o.Some? then o.value else r.isSuperuser)
  {
    ApplyAtMostOne(r, if o.Some? then [SetIsSuperuser(o.value)] else [], SetIsSuperuser(if o.Some? then o.value else false));
  }

  /** The password entry of a dump, present exactly when the password is supplied. */
  lemma ApplyPasswordEntry(r: UserRecord, o: Option<Option<string>>)
    ensures ApplyAll(r, if o.Some? then [SetPassword(o.value)] else []) == r.(hashedPassword := if o.Some? then o.value else r.hashedPassword)
  {
    ApplyAtMostOne(r, if o.Some? then [SetPassword(o.value)] else [], SetPassword(if o.Some? then o.value else None));
  }

  /** Running the `setattr` loop over `model_dump(exclude_unset=True)` is the reference partial update. */
  lemma DumpThenApply(r: UserRecord, u: UserUpdate)
    ensures ApplyAll(r, DumpUnset(u)) == Patched(r, u)
  {
    var e := if u.email.Some? then [SetEmail(u.email.value)] else [];
    var a := if u.isActive.Some? then [SetIsActive(u.isActive.value)] else [];
    var s := if u.isSuperuser.Some? then [SetIsSuperuser(u.isSuperuser.value)] else [];
    var p := if u.password.Some? then [SetPassword(u.password.value)] else [];
    assert DumpUnset(u) == e + a + s + p;
    ApplyFourRuns(r, e, a, s, p);
    var r1 := ApplyAll(r, e);
    ApplyEmailEntry(r, u.email);
    var r2 := ApplyAll(r1, a);
    ApplyIsActiveEntry(r1, u.isActive);
    var r3 := ApplyAll(r2, s);
    ApplyIsSuperuserEntry(r2, u.isSuperuser);
    ApplyPasswordEntry(r3, u.password);
  }

  /** An update changes exactly the supplied fields, to the supplied values, and never the id. */
  lemma PatchedChangesExactlySetFields(r: UserRecord, u: UserUpdate, f: Field)
    ensures Patched(r, u).id == r.id
    ensures !IsSetIn(u, f) ==> FieldValue(Patched(r, u), f) == FieldValue(r, f)
    ensures IsSetIn(u, f) ==> FieldValue(Patched(r, u), f) == SuppliedValue(u, f)
  {
  }

  /** An empty payload leaves the row unchanged. */
  lemma EmptyUpdateIsIdentity(r: UserRecord)
    ensures Patched(r, UserUpdate()) == r
  {
  }

  /** A field supplied as null is written as null: the dump excludes unset fields, not `None` ones. */
  lemma ExplicitNullOverwrites(r: UserRecord, u: UserUpdate)
    requires u.email == Some(None) && u.password == Some(None) && u.isActive == Some(None)
    ensures Patched(r, u).email == None && Patched(r, u).hashedPassword == None && Patched(r, u).isActive == None
  {
  }

  /** Omitting is_active keeps the stored flag, although the payload's attribute reads as the default True. */
  lemma OmittedDefaultIsNotApplied(r: UserRecord, u: UserUpdate)
    requires u.isActive.None?
    ensures u.IsActiveValue() == Some(true)
    ensures Patched(r, u).isActive == r.isActive
  {
  }

  /** The table with the row keyed `rec.id` replaced by `rec` (the commit of an updated object). */
  function Replace(rows: seq<UserRecord>, rec: UserRecord): (s: seq<UserRecord>)
    ensures |s| == |rows|
  {
    var k := FirstIndex(rows, Id, IntValue(rec.id));
    if k < |rows| then rows[k := rec] else rows
  }

  /** The table without the row keyed `id` (the commit of a delete). */
  function Delete(rows: seq<UserRecord>, id: int): (s: seq<UserRecord>)
    ensures Get(rows, id).None? ==> s == rows
    ensures Get(rows, id).Some? ==> exists k :: 0 <= k < |rows| && rows[k].id == id && s == rows[..k] + rows[k + 1..]
  {
    var k := FirstIndex(rows, Id, IntValue(id));
    if k < |rows| then rows[..k] + rows[k + 1..] else rows
  }

  /** Replacing a row by one with the same key keeps keys unique and moves only that key's row. */
  lemma ReplaceSpec(rows: seq<UserRecord>, rec: UserRecord, id: int)
    requires UniqueIds(rows) && Get(rows, rec.id).Some?
    ensures UniqueIds(Replace(rows, rec))
    ensures Get(Replace(rows, rec), rec.id) == Some(rec)
    ensures id != rec.id ==> Get(Replace(rows, rec), id) == Get(rows, id)
  {
    var k := FirstIndex(rows, Id, IntValue(rec.id));
    var s := Replace(rows, rec);
    assert k < |rows|;
    assert s == rows[k := rec] && s[k] == rec;
    assert UniqueIds(s) by {
      forall i, j | 0 <= i < j < |s| ensures s[i].id != s[j].id {
        if i == k { assert s[j] == rows[j]; }
        else if j == k { assert s[i] == rows[i]; }
      }
    }
    GetFindsRow(s, rec);
    if id != rec.id {
      if Get(rows, id).Some? {
        var b := Get(rows, id).value;
        var i :| 0 <= i < |rows| && rows[i] == b;
        assert s[i] == b;
        GetFindsRow(s, b);
      } else {
        forall j | 0 <= j < |s| ensures s[j].id != id {
          assert s[j] == rows[j] || s[j] == rec;
        }
      }
    }
  }

  /** Removing position `k` shifts every later row down by one. */
  lemma RemoveAtIndex(rows: seq<UserRecord>, k: int, s: seq<UserRecord>)
    requires 0 <= k < |rows| && s == rows[..k] + rows[k + 1..]
    ensures |s| == |rows| - 1
    ensures forall i :: 0 <= i < k ==> s[i] == rows[i]
    ensures forall i :: k <= i < |s| ==> s[i] == rows[i + 1]
  {
  }

  /** A replacement under an existing key keeps a table valid for the same id bound and moves only that key's row. */
  lemma ReplaceKeepsStore(rows: seq<UserRecord>, rec: UserRecord, bound: int)
    requires UniqueIds(rows) && Get(rows, rec.id).Some?
    requires forall i :: 0 <= i < |rows| ==> rows[i].id < bound
    ensures UniqueIds(Replace(rows, rec)) && Get(Replace(rows, rec), rec.id) == Some(rec)
    ensures forall i :: 0 <= i < |Replace(rows, rec)| ==> Replace(rows, rec)[i].id < bound
    ensures forall id :: id != rec.id ==> Get(Replace(rows, rec), id) == Get(rows, id)
  {
    forall id | id != rec.id ensures Get(Replace(rows, rec), id) == Get(rows, id) {
      ReplaceSpec(rows, rec, id);
    }
    ReplaceSpec(rows, rec, rec.id);
    var s := Replace(rows, rec);
    forall i | 0 <= i < |s| ensures s[i].id < bound {
      assert s[i] == rows[i] || s[i] == rec;
    }
  }

  /** Deleting a key removes only its row: the key is gone, others are found as before, keys stay unique. */
  lemma DeleteSpec(rows: seq<UserRecord>, id: int, other: int)
    requires UniqueIds(rows)
    ensures UniqueIds(Delete(rows, id))
    ensures Get(Delete(rows, id), id).None?
    ensures other != id ==> Get(Delete(rows, id), other) == Get(rows, other)
  {
    var k := FirstIndex(rows, Id, IntValue(id));
    var s := Delete(rows, id);
    if k < |rows| {
      assert s == rows[..k] + rows[k + 1..];
      RemoveAtIndex(rows, k, s);
      assert UniqueIds(s) by {
        forall i, j | 0 <= i < j < |s| ensures s[i].id != s[j].id {
          assert s[i] == rows[if i < k then i else i + 1];
          assert s[j] == rows[if j < k then j else j + 1];
        }
      }
      forall i | 0 <= i < |s| ensures s[i].id != id {
        assert s[i] == rows[if i < k then i else i + 1];
      }
      if other != id {
        if Get(rows, other).Some? {
          var b := Get(rows, other).value;
          var i :| 0 <= i < |rows| && rows[i] == b;
          assert i != k;
          assert s[if i < k then i else i - 1] == b;
          GetFindsRow(s, b);
        } else {
          forall j | 0 <= j < |s| ensures s[j].id != other {
            assert s[j] == rows[if j < k then j else j + 1];
          }
        }
      }
    }
  }

  /** Appending a row with a fresh key makes it findable and hides no other row. */
  lemma AppendSpec(rows: seq<UserRecord>, rec: UserRecord, id: int)
    requires UniqueIds(rows) && Get(rows, rec.id).None?
    ensures UniqueIds(rows + [rec])
    ensures Get(rows + [rec], rec.id) == Some(rec)
    ensures id != rec.id ==> Get(rows + [rec], id) == Get(rows, id)
  {
    var s := rows + [rec];
    assert UniqueIds(s) by {
      forall i, j | 0 <= i < j < |s| ensures s[i].id != s[j].id {
        if j == |rows| { assert s[i] == rows[i]; }
      }
    }
    GetFindsRow(s, rec);
    if id != rec.id {
      if Get(rows, id).Some? {
        var b := Get(rows, id).value;
        assert b in s;
        GetFindsRow(s, b);
      } else {
        forall j | 0 <= j < |s| ensures s[j].id != id {
          assert j < |rows| ==> s[j] == rows[j];
        }
      }
    }
  }

  /** The user table: rows in insertion order and the next primary key the sequence hands out. */
  class UserStore {
    var rows: seq<UserRecord>
    var nextId: int

    ghost predicate Valid()
      reads this
    {
      && UniqueIds(rows)
      && forall i :: 0 <= i < |rows| ==> rows[i].id < nextId
    }

    constructor ()
      ensures Valid() && rows == [] && nextId == 1
    {
      rows := [];
      nextId := 1;
    }

    /** `create`: add one row built from the dumped payload under a fresh key, and return it. */
    method Create(objIn: UserCreate) returns (rec: UserRecord)
      requires Valid()
      modifies this
      ensures Valid()
      ensures rec == FromCreate(old(nextId), objIn) && nextId == old(nextId) + 1
      ensures Get(old(rows), rec.id).None?
      ensures rows == old(rows) + [rec]
      ensures Get(rows, rec.id) == Some(rec)
      ensures forall id :: id != rec.id ==> Get(rows, id) == Get(old(rows), id)
    {
      rec := FromCreate(nextId, objIn);
      assert Get(rows, rec.id).None?;
      forall id | id != rec.id ensures Get(rows + [rec], id) == Get(rows, id) {
        AppendSpec(rows, rec, id);
      }
      AppendSpec(rows, rec, rec.id);
      rows := rows + [rec];
      nextId := nextId + 1;
    }

    /** `update`: `setattr` each explicitly supplied field on `dbObj`, then commit the row. */
    method Update(dbObj: UserRecord, objIn: UserUpdate) returns (rec: UserRecord)
      requires Valid() && dbObj in rows
      modifies this
      ensures Valid() && nextId == old(nextId)
      ensures rec == Patched(dbObj, objIn)
      ensures rows == Replace(old(rows), rec)
      ensures Get(rows, rec.id) == Some(rec)
      ensures forall id :: id != rec.id ==> Get(rows, id) == Get(old(rows), id)
    {
      var updateData := DumpUnset(objIn);
      var obj := dbObj;
      for i := 0 to |updateData|
        invariant obj == ApplyAll(dbObj, updateData[..i])
      {
        assert updateData[..i + 1][..i] == updateData[..i];
        obj := SetAttr(obj, updateData[i]);
      }
      assert updateData[..|updateData|] == updateData;
      DumpThenApply(dbObj, objIn);
      rec := obj;
      GetFindsRow(rows, dbObj);
      ReplaceKeepsStore(rows, rec, nextId);
      rows := Replace(rows, rec);
    }

    /** `remove`: delete the row keyed `id` if there is one; return what was deleted. */
    method Remove(id: int) returns (removed: Option<UserRecord>)
      requires Valid()
      modifies this
      ensures Valid() && nextId == old(nextId)
      ensures removed == Get(old(rows), id)
      ensures rows == Delete(old(rows), id)
      ensures removed.None? ==> rows == old(rows)
      ensures Get(rows, id).None?
      ensures forall other :: other != id ==> Get(rows, other) == Get(old(rows), other)
    {
      removed := Get(rows, id);
      forall other | other != id ensures Get(Delete(rows, id), other) == Get(rows, other) {
        DeleteSpec(rows, id, other);
      }
      DeleteSpec(rows, id, id);
      ghost var before := rows;
      rows := Delete(rows, id);
      forall i | 0 <= i < |rows| ensures rows[i].id < nextId {
        assert rows[i] in before;
      }
    }
  }
}
