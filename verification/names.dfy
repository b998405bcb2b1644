/** The `names` table of a tree database. An individual has any number of
    names, at most one of them primary. Both `src/lib/individuals.ts` (UUID
    string keys) and `src/db/trees/tables/names.ts` (SQLite integer keys)
    keep this table, so its rows are generic in the key type. */
module Names {
  import opened Wrappers
  import Text
  import Sorting

  datatype NameRow<Id> = NameRow(
    id: Id, createdAt: int, individualId: Id, kind: string,
    firstName: Option<string>, lastName: Option<string>, isPrimary: bool)

  /** The primary key: no two rows share an id. */
  ghost predicate IdsDistinct<Id>(names: seq<NameRow<Id>>) {
    forall i, j :: 0 <= i < j < |names| ==> names[i].id != names[j].id
  }

  /** At most one primary name per individual. */
  ghost predicate PrimaryUnique<Id>(names: seq<NameRow<Id>>) {
    forall a, b :: a in names && b in names && a.isPrimary && b.isPrimary && a.individualId == b.individualId ==> a == b
  }

  /** The invariant the name operations keep. */
  ghost predicate Valid<Id>(names: seq<NameRow<Id>>) {
    IdsDistinct(names) && PrimaryUnique(names)
  }

  /** `UPDATE names SET is_primary = 0 WHERE individual_id = ?`, with
      `AND id != ?` when `except` is given. */
  function Unset<Id(==)>(names: seq<NameRow<Id>>, ind: Id, except: Option<Id>): (r: seq<NameRow<Id>>)
    ensures |r| == |names|
    ensures forall i :: 0 <= i < |r| ==> r[i] == names[i].(isPrimary := r[i].isPrimary)
    ensures forall i :: 0 <= i < |r| ==>
              (r[i].isPrimary <==> names[i].isPrimary && (names[i].individualId != ind || Some(names[i].id) == except))
  {
    seq(|names|, i requires 0 <= i < |names| =>
      if names[i].individualId == ind && Some(names[i].id) != except then names[i].(isPrimary := false) else names[i])
  }

  /** The first row with the given id: `SELECT ... WHERE id = ?` then `result[0]`. */
  function FindName<Id(==)>(names: seq<NameRow<Id>>, id: Id): (r: Option<NameRow<Id>>)
    ensures r.Some? ==> r.value in names && r.value.id == id
    ensures r.None? <==> forall i :: 0 <= i < |names| ==> names[i].id != id
    ensures r.Some? ==> exists i :: 0 <= i < |names| && names[i] == r.value && forall j :: 0 <= j < i ==> names[j].id != id
  {
    if |names| == 0 then None
    else if names[0].id == id then Some(names[0])
    else
      var r := FindName(names[1..], id);
      assert forall i :: 1 <= i < |names| ==> names[i] == names[1..][i - 1];
      if r.Some? then
        var k :| 0 <= k < |names[1..]| && names[1..][k] == r.value && forall j :: 0 <= j < k ==> names[1..][j].id != id;
        assert names[k + 1] == r.value;
        r
      else r
  }

  /** The fields of a new name. */
  datatype NewName<Id> = NewName(
    individualId: Id, kind: string, firstName: Option<string>, lastName: Option<string>, isPrimary: Option<bool>)

  /** The row `createName` inserts: empty parts as null, `isPrimary`
      defaulting to false. */
  function NewRow<Id>(input: NewName<Id>, id: Id, now: int): NameRow<Id> {
    NameRow(id, now, input.individualId, input.kind, Text.NullIfEmpty(input.firstName), Text.NullIfEmpty(input.lastName),
            input.isPrimary.GetOr(false))
  }

  /** The table after `createName`: a primary name first clears the
      individual's other primaries; then the new row is inserted. */
  function InsertName<Id(==)>(names: seq<NameRow<Id>>, input: NewName<Id>, id: Id, now: int): (r: seq<NameRow<Id>>)
    ensures |r| == |names| + 1 && r[|names|] == NewRow(input, id, now)
    ensures !input.isPrimary.GetOr(false) ==> r[..|names|] == names
    ensures input.isPrimary.GetOr(false) ==>
              forall i :: 0 <= i < |names| ==> !(r[i].isPrimary && r[i].individualId == input.individualId)
    ensures forall i :: 0 <= i < |names| ==> r[i] == names[i].(isPrimary := r[i].isPrimary)
    ensures forall i :: 0 <= i < |names| && names[i].individualId != input.individualId ==> r[i] == names[i]
  {
    var cleared := if input.isPrimary.GetOr(false) then Unset(names, input.individualId, None) else names;
    cleared + [NewRow(input, id, now)]
  }

  lemma {:induction false} FindNameAppend<Id>(names: seq<NameRow<Id>>, n: NameRow<Id>)
    requires forall i :: 0 <= i < |names| ==> names[i].id != n.id
    ensures FindName(names + [n], n.id) == Some(n)
    decreases |names|
  {
    if |names| > 0 {
      FindNameAppend(names[1..], n);
      assert (names + [n])[1..] == names[1..] + [n];
    }
  }

  /** With a fresh id, reading the id back after `createName` gives the new row. */
  lemma FindNameOfLast<Id>(names: seq<NameRow<Id>>, input: NewName<Id>, id: Id, now: int)
    requires forall i :: 0 <= i < |names| ==> names[i].id != id
    ensures FindName(InsertName(names, input, id, now), id) == Some(NewRow(input, id, now))
  {
    var r := InsertName(names, input, id, now);
    assert r == r[..|names|] + [NewRow(input, id, now)];
    FindNameAppend(r[..|names|], NewRow(input, id, now));
  }

  /** Inserting a name with a fresh id keeps the table valid, whether or
      not the new name is primary. */
  lemma InsertNameKeepsValid<Id>(names: seq<NameRow<Id>>, input: NewName<Id>, id: Id, now: int)
    requires Valid(names)
    requires forall i :: 0 <= i < |names| ==> names[i].id != id
    ensures Valid(InsertName(names, input, id, now))
  {
    var r := InsertName(names, input, id, now);
    var n := NewRow(input, id, now);
    forall a, b | a in r && b in r && a.isPrimary && b.isPrimary && a.individualId == b.individualId
      ensures a == b
    {
      var i :| 0 <= i < |r| && r[i] == a;
      var j :| 0 <= j < |r| && r[j] == b;
      if i < |names| && j < |names| {
        assert names[i].isPrimary && names[j].isPrimary;
        assert names[i] in names && names[j] in names;
        assert names[i] == names[j];
      }
    }
  }

  /** The fields an update may supply; first and last names may be set to null. */
  datatype NameUpdate = NameUpdate(
    kind: Option<string>, firstName: Option<Option<string>>, lastName: Option<Option<string>>, isPrimary: Option<bool>)

  predicate Writes(u: NameUpdate) {
    u.kind.Some? || u.firstName.Some? || u.lastName.Some? || u.isPrimary.Some?
  }

  function ApplyNameUpdate<Id>(n: NameRow<Id>, u: NameUpdate): NameRow<Id> {
    n.(kind := u.kind.GetOr(n.kind), firstName := u.firstName.GetOr(n.firstName),
       lastName := u.lastName.GetOr(n.lastName), isPrimary := u.isPrimary.GetOr(n.isPrimary))
  }

  /** `UPDATE names SET ... WHERE id = ?`. */
  function UpdateRows<Id(==)>(names: seq<NameRow<Id>>, id: Id, u: NameUpdate): (r: seq<NameRow<Id>>)
    ensures |r| == |names|
    ensures forall i :: 0 <= i < |r| ==> r[i] == if names[i].id == id then ApplyNameUpdate(names[i], u) else names[i]
  {
    seq(|names|, i requires 0 <= i < |names| => if names[i].id == id then ApplyNameUpdate(names[i], u) else names[i])
  }

  lemma FindNameAfterUpdate<Id>(names: seq<NameRow<Id>>, id: Id, u: NameUpdate)
    ensures FindName(UpdateRows(names, id, u), id).Some? <==> FindName(names, id).Some?
    ensures FindName(names, id).Some? ==>
              FindName(UpdateRows(names, id, u), id) == Some(ApplyNameUpdate(FindName(names, id).value, u))
  {
    var r := UpdateRows(names, id, u);
    assert forall i :: 0 <= i < |r| ==> r[i].id == names[i].id;
    if FindName(names, id).Some? {
      var k :| 0 <= k < |names| && names[k] == FindName(names, id).value && forall j :: 0 <= j < k ==> names[j].id != id;
      FindNameFirst(r, id, k);
    }
  }

  /** The name found is the one at the first index with the id. */
  lemma {:induction false} FindNameFirst<Id>(names: seq<NameRow<Id>>, id: Id, k: int)
    requires 0 <= k < |names| && names[k].id == id && forall j :: 0 <= j < k ==> names[j].id != id
    ensures FindName(names, id) == Some(names[k])
    decreases k
  {
    if k > 0 {
      FindNameFirst(names[1..], id, k - 1);
    }
  }

  /** Clearing primaries except on `id` leaves the row with that id alone. */
  lemma {:induction false} FindNameAfterUnset<Id>(names: seq<NameRow<Id>>, ind: Id, id: Id)
    ensures FindName(Unset(names, ind, Some(id)), id) == FindName(names, id)
    decreases |names|
  {
    if |names| > 0 && names[0].id != id {
      FindNameAfterUnset(names[1..], ind, id);
      assert Unset(names, ind, Some(id))[1..] == Unset(names[1..], ind, Some(id));
    }
  }

  /** `updateName`: a primary flag of true first clears the individual's
      other primaries (when the name exists); an update with no field reads
      the row back unchanged. The result is the row as read back, `None`
      when there is no name with that id. */
  function UpdateName<Id(==)>(names: seq<NameRow<Id>>, id: Id, u: NameUpdate): (r: (seq<NameRow<Id>>, Option<NameRow<Id>>))
    ensures r.1.Some? <==> FindName(names, id).Some?
    ensures r.1.Some? ==> r.1.value == ApplyNameUpdate(FindName(names, id).value, u)
    ensures !Writes(u) ==> r.0 == names
    ensures FindName(names, id).None? ==> r.0 == names
    ensures |r.0| == |names|
  {
    var found := FindName(names, id);
    var cleared := if u.isPrimary == Some(true) && found.Some? then Unset(names, found.value.individualId, Some(id)) else names;
    if !Writes(u) then (cleared, FindName(cleared, id))
    else
      var updated := UpdateRows(cleared, id, u);
      if found.Some? then
        FindNameAfterUnset(names, found.value.individualId, id);
        FindNameAfterUpdate(cleared, id, u);
        (updated, FindName(updated, id))
      else
        FindNameAfterUpdate(cleared, id, u);
        (updated, FindName(updated, id))
  }

  /** Row by row: the named row gets the update; any other row keeps its
      fields and may only lose its primary flag, which it does when the
      update makes the named row primary and the row is of the same
      individual. */
  lemma UpdateNameRow<Id>(names: seq<NameRow<Id>>, id: Id, u: NameUpdate, i: int)
    requires 0 <= i < |names|
    ensures var r := UpdateName(names, id, u).0;
      (names[i].id == id ==> r[i] == ApplyNameUpdate(names[i], u))
      && (names[i].id != id ==> r[i] == names[i].(isPrimary := r[i].isPrimary) && (r[i].isPrimary ==> names[i].isPrimary))
      && ((u.isPrimary == Some(true) && FindName(names, id).Some? && names[i].id != id
           && names[i].individualId == FindName(names, id).value.individualId) ==> !r[i].isPrimary)
  {
    var found := FindName(names, id);
    var cleared := if u.isPrimary == Some(true) && found.Some? then Unset(names, found.value.individualId, Some(id)) else names;
    assert cleared[i] == names[i].(isPrimary := cleared[i].isPrimary);
    if Writes(u) {
      assert UpdateName(names, id, u).0 == UpdateRows(cleared, id, u);
    }
  }

  /** `updateName` keeps the table valid. */
  lemma UpdateNameKeepsValid<Id>(names: seq<NameRow<Id>>, id: Id, u: NameUpdate)
    requires Valid(names)
    ensures Valid(UpdateName(names, id, u).0)
  {
    UpdateNameKeepsIds(names, id, u);
    UpdateNameKeepsPrimaryUnique(names, id, u);
  }

  lemma UpdateNameKeepsPrimaryUnique<Id>(names: seq<NameRow<Id>>, id: Id, u: NameUpdate)
    requires Valid(names)
    ensures PrimaryUnique(UpdateName(names, id, u).0)
  {
    var r := UpdateName(names, id, u).0;
    forall i, j | 0 <= i < |r| && 0 <= j < |r|
      ensures r[i].isPrimary && r[j].isPrimary && r[i].individualId == r[j].individualId ==> r[i] == r[j]
    {
      PrimaryPair(names, id, u, i, j);
    }
    PrimaryUniqueByIndex(r);
  }

  lemma PrimaryUniqueByIndex<Id>(r: seq<NameRow<Id>>)
    requires forall i, j :: 0 <= i < |r| && 0 <= j < |r| ==>
      (r[i].isPrimary && r[j].isPrimary && r[i].individualId == r[j].individualId ==> r[i] == r[j])
    ensures PrimaryUnique(r)
  {
    forall a, b | a in r && b in r && a.isPrimary && b.isPrimary && a.individualId == b.individualId
      ensures a == b
    {
      var i :| 0 <= i < |r| && r[i] == a;
      var j :| 0 <= j < |r| && r[j] == b;
    }
  }

  lemma UpdateNameKeepsIds<Id>(names: seq<NameRow<Id>>, id: Id, u: NameUpdate)
    requires Valid(names)
    ensures IdsDistinct(UpdateName(names, id, u).0)
  {
    var r := UpdateName(names, id, u).0;
    forall i, j | 0 <= i < j < |r| ensures r[i].id != r[j].id {
      UpdateNameRow(names, id, u, i);
      UpdateNameRow(names, id, u, j);
    }
  }

  /** With distinct ids, the row found by an id is the one at any index
      holding that id. */
  lemma FindNameAt<Id>(names: seq<NameRow<Id>>, id: Id, i: int)
    requires IdsDistinct(names) && 0 <= i < |names| && names[i].id == id
    ensures FindName(names, id) == Some(names[i])
  {
    assert !(forall j :: 0 <= j < |names| ==> names[j].id != id) by {
      assert names[i].id == id;
    }
    var f := FindName(names, id).value;
    var k :| 0 <= k < |names| && names[k] == f && forall j :: 0 <= j < k ==> names[j].id != id;
    assert names[k].id == id;
    assert forall j :: k < j < |names| ==> names[j].id != names[k].id;
  }

  lemma PrimaryPair<Id>(names: seq<NameRow<Id>>, id: Id, u: NameUpdate, i: int, j: int)
    requires Valid(names) && 0 <= i < |names| && 0 <= j < |names|
    ensures var r := UpdateName(names, id, u).0;
      r[i].isPrimary && r[j].isPrimary && r[i].individualId == r[j].individualId ==> r[i] == r[j]
  {
    var r := UpdateName(names, id, u).0;
    UpdateNameRow(names, id, u, i);
    UpdateNameRow(names, id, u, j);
    if r[i].isPrimary && r[j].isPrimary && r[i].individualId == r[j].individualId {
      assert names[i] in names && names[j] in names;
      if names[i].id == id && names[j].id == id {
        assert i == j;
      } else if names[i].id == id {
        FindNameAt(names, id, i);
      } else if names[j].id == id {
        FindNameAt(names, id, j);
      } else {
        assert names[i] == names[j];
      }
    }
  }

  /** After setting a name primary it is its individual's only primary name. */
  lemma UpdateToPrimaryIsSolePrimary<Id>(names: seq<NameRow<Id>>, id: Id, u: NameUpdate)
    requires Valid(names) && u.isPrimary == Some(true) && FindName(names, id).Some?
    ensures var (r, n) := UpdateName(names, id, u);
      n.Some? && n.value.isPrimary && n.value in r
      && forall m :: m in r && m.individualId == n.value.individualId && m.isPrimary ==> m == n.value
  {
    var (r, n) := UpdateName(names, id, u);
    UpdateNameKeepsValid(names, id, u);
    FindNameAfterUpdate(Unset(names, FindName(names, id).value.individualId, Some(id)), id, u);
  }

  /** `deleteName`: every row with the id goes. */
  function DeleteName<Id(==,!new)>(names: seq<NameRow<Id>>, id: Id): (r: seq<NameRow<Id>>)
    ensures forall n :: n in r <==> n in names && n.id != id
    ensures FindName(r, id).None?
    ensures Valid(names) ==> Valid(r)
  {
    var r := Sorting.Filter(names, (n: NameRow<Id>) => n.id != id);
    assert IdsDistinct(names) ==> IdsDistinct(r) by {
      if IdsDistinct(names) {
        var key := (n: NameRow<Id>) => n.id;
        assert Sorting.DistinctBy(names, key);
        Sorting.FilterKeepsDistinct(names, (n: NameRow<Id>) => n.id != id, key);
        assert Sorting.DistinctBy(r, key);
      }
    }
    r
  }

  // ---------------------------------------------------------------------
  // Reading names back
  // ---------------------------------------------------------------------

  /** `ORDER BY is_primary DESC, created_at`. */
  predicate ListedBefore<Id>(a: NameRow<Id>, b: NameRow<Id>) {
    (a.isPrimary && !b.isPrimary) || (a.isPrimary == b.isPrimary && a.createdAt <= b.createdAt)
  }

  lemma ListedBeforeOrders<Id(!new)>()
    ensures Sorting.Total((a: NameRow<Id>, b: NameRow<Id>) => ListedBefore(a, b))
    ensures Sorting.Transitive((a: NameRow<Id>, b: NameRow<Id>) => ListedBefore(a, b))
  {
  }

  /** The rows in listing order. */
  function Listed<Id(!new)>(names: seq<NameRow<Id>>): (r: seq<NameRow<Id>>)
    ensures multiset(r) == multiset(names)
    ensures forall i, j :: 0 <= i < j < |r| ==> ListedBefore(r[i], r[j])
  {
    var le := (a: NameRow<Id>, b: NameRow<Id>) => ListedBefore(a, b);
    ListedBeforeOrders<Id>();
    Sorting.SortWithSorted(names, le);
    Sorting.SortWith(names, le)
  }

  /** `getNames` / `getNamesByIndividualId`: the individual's names, the
      primary one first, then oldest first. */
  function NamesOf<Id(==,!new)>(names: seq<NameRow<Id>>, ind: Id): (r: seq<NameRow<Id>>)
    ensures forall n :: n in r <==> n in names && n.individualId == ind
    ensures forall i, j :: 0 <= i < j < |r| ==> ListedBefore(r[i], r[j])
  {
    var mine := Sorting.Filter(names, (n: NameRow<Id>) => n.individualId == ind);
    assert forall n :: n in mine <==> n in names && n.individualId == ind;
    var r := Listed(mine);
    assert multiset(r) == multiset(mine);
    assert forall n :: n in r <==> n in mine by {
      forall n ensures n in r <==> n in mine {
        assert n in r <==> n in multiset(r);
        assert n in mine <==> n in multiset(mine);
      }
    }
    r
  }

  /** `getPrimaryName`: the first primary row of the individual, or null. */
  function PrimaryName<Id(==)>(names: seq<NameRow<Id>>, ind: Id): (r: Option<NameRow<Id>>)
    ensures r.Some? ==> r.value in names && r.value.individualId == ind && r.value.isPrimary
    ensures r.None? <==> forall n :: n in names && n.individualId == ind ==> !n.isPrimary
  {
    if |names| == 0 then None
    else if names[0].individualId == ind && names[0].isPrimary then Some(names[0])
    else
      assert names == [names[0]] + names[1..];
      PrimaryName(names[1..], ind)
  }

  /** In a valid table an individual with a primary name has it listed
      first, and it is the one `getPrimaryName` returns. */
  lemma PrimaryListedFirst<Id(!new)>(names: seq<NameRow<Id>>, ind: Id)
    requires PrimaryUnique(names) && PrimaryName(names, ind).Some?
    ensures |NamesOf(names, ind)| > 0 && NamesOf(names, ind)[0] == PrimaryName(names, ind).value
  {
    var p := PrimaryName(names, ind).value;
    var r := NamesOf(names, ind);
    assert p in r;
    var k :| 0 <= k < |r| && r[k] == p;
    if k > 0 {
      assert ListedBefore(r[0], r[k]);
      assert r[0] in names && r[0].isPrimary;
    }
  }
}
