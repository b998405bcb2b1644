/** `src/db/trees/tables/names.ts`: the names table keyed by SQLite integer
    ids. Callers pass ids as strings; each operation parses them with
    `parseInt(…, 10)` and rejects `NaN` before touching the table. Records
    handed back carry the ids as decimal strings. */
module NameRecords {
  import opened Wrappers
  import opened Text
  import Sorting
  import Names

  type Row = Names.NameRow<int>
  type Record = Names.NameRow<string>

  /** The record handed back for a stored row: ids as `toString()`. */
  function AsRecord(n: Row): Record {
    Names.NameRow(IntToString(n.id), n.createdAt, IntToString(n.individualId), n.kind, n.firstName, n.lastName, n.isPrimary)
  }

  function Records(rows: seq<Row>): (r: seq<Record>)
    ensures |r| == |rows|
    ensures forall i :: 0 <= i < |rows| ==> r[i] == AsRecord(rows[i])
  {
    Sorting.Map(rows, AsRecord)
  }

  function InvalidIndividual(s: string): string { "Invalid individual ID: " + s }
  function InvalidName(s: string): string { "Invalid name ID: " + s }

  function WithIndividual(input: Names.NewName<string>, ind: int): Names.NewName<int> {
    Names.NewName(ind, input.kind, input.firstName, input.lastName, input.isPrimary)
  }

  /** `createName`: the row is inserted under the generated id `id` at
      `now`, and the record returned is built from the input, not read back. */
  function CreateName(names: seq<Row>, input: Names.NewName<string>, id: int, now: int): (r: (seq<Row>, Result<Record>))
    ensures ParseInt(input.individualId).None? <==> r.1.Failure?
    ensures r.1.Failure? ==> r.0 == names && r.1.error == InvalidIndividual(input.individualId)
    ensures r.1.Success? ==>
              var ind := ParseInt(input.individualId).value;
              var stored := WithIndividual(input, ind);
              r.0 == Names.InsertName(names, stored, id, now) && r.1.value == AsRecord(Names.NewRow(stored, id, now))
    ensures r.1.Success? ==> (r.1.value.firstName.Some? <==> input.firstName.Some? && input.firstName.value != "")
    ensures r.1.Success? && r.1.value.firstName.Some? ==> r.1.value.firstName == input.firstName
    ensures r.1.Success? ==> (r.1.value.lastName.Some? <==> input.lastName.Some? && input.lastName.value != "")
    ensures r.1.Success? && r.1.value.lastName.Some? ==> r.1.value.lastName == input.lastName
    ensures r.1.Success? ==> r.1.value.isPrimary == (input.isPrimary == Some(true))
  {
    match ParseInt(input.individualId)
    case None => (names, Failure(InvalidIndividual(input.individualId)))
    case Some(ind) =>
      var stored := WithIndividual(input, ind);
      (Names.InsertName(names, stored, id, now), Success(AsRecord(Names.NewRow(stored, id, now))))
  }

  /** `getAllNames`: every name, primary ones first, then oldest first. */
  function GetAllNames(names: seq<Row>): (r: seq<Record>)
    ensures |r| == |names|
    ensures forall i :: 0 <= i < |r| ==> r[i] == AsRecord(Names.Listed(names)[i])
  {
    var listed := Names.Listed(names);
    assert |multiset(listed)| == |multiset(names)|;
    Records(listed)
  }

  /** `getNameById`: null when no row has the parsed id. */
  function GetNameById(names: seq<Row>, id: string): (r: Result<Option<Record>>)
    ensures r.Failure? <==> ParseInt(id).None?
    ensures r.Failure? ==> r.error == InvalidName(id)
    ensures r.Success? ==> (r.value.None? <==> Names.FindName(names, ParseInt(id).value).None?)
    ensures r.Success? && r.value.Some? ==> r.value.value == AsRecord(Names.FindName(names, ParseInt(id).value).value)
  {
    match ParseInt(id)
    case None => Failure(InvalidName(id))
    case Some(k) =>
      match Names.FindName(names, k)
      case None => Success(None)
      case Some(n) => Success(Some(AsRecord(n)))
  }

  /** `getNamesByIndividualId`. */
  function GetNamesByIndividualId(names: seq<Row>, ind: string): (r: Result<seq<Record>>)
    ensures r.Failure? <==> ParseInt(ind).None?
    ensures r.Failure? ==> r.error == InvalidIndividual(ind)
    ensures r.Success? ==> r.value == Records(Names.NamesOf(names, ParseInt(ind).value))
  {
    match ParseInt(ind)
    case None => Failure(InvalidIndividual(ind))
    case Some(k) => Success(Records(Names.NamesOf(names, k)))
  }

  /** `getPrimaryNameByIndividualId`. */
  function GetPrimaryNameByIndividualId(names: seq<Row>, ind: string): (r: Result<Option<Record>>)
    ensures r.Failure? <==> ParseInt(ind).None?
    ensures r.Failure? ==> r.error == InvalidIndividual(ind)
    ensures r.Success? ==> (r.value.None? <==> Names.PrimaryName(names, ParseInt(ind).value).None?)
    ensures r.Success? && r.value.Some? ==> r.value.value.isPrimary && r.value.value.individualId == IntToString(ParseInt(ind).value)
  {
    match ParseInt(ind)
    case None => Failure(InvalidIndividual(ind))
    case Some(k) =>
      match Names.PrimaryName(names, k)
      case None => Success(None)
      case Some(n) => Success(Some(AsRecord(n)))
  }

  function NotFound(id: string): string { "Name with ID " + id + " not found" }
  function NotFoundAfterUpdate(id: string): string { "Name with ID " + id + " not found after update" }

  /** `updateName`: a bad id fails before anything is written; a missing
      name fails with a message that says whether an update was attempted. */
  function UpdateName(names: seq<Row>, id: string, u: Names.NameUpdate): (r: (seq<Row>, Result<Record>))
    ensures ParseInt(id).None? ==> r == (names, Failure(InvalidName(id)))
    ensures ParseInt(id).Some? ==> r.0 == Names.UpdateName(names, ParseInt(id).value, u).0
    ensures ParseInt(id).Some? ==> (r.1.Success? <==> Names.FindName(names, ParseInt(id).value).Some?)
    ensures ParseInt(id).Some? && r.1.Failure? ==>
              r.0 == names && r.1.error == if Names.Writes(u) then NotFoundAfterUpdate(id) else NotFound(id)
    ensures ParseInt(id).Some? && r.1.Success? ==>
              r.1.value == AsRecord(Names.ApplyNameUpdate(Names.FindName(names, ParseInt(id).value).value, u))
  {
    match ParseInt(id)
    case None => (names, Failure(InvalidName(id)))
    case Some(k) =>
      var (names', n) := Names.UpdateName(names, k, u);
      match n
      case None => (names', Failure(if Names.Writes(u) then NotFoundAfterUpdate(id) else NotFound(id)))
      case Some(x) => (names', Success(AsRecord(x)))
  }

  /** `deleteName`. */
  function DeleteName(names: seq<Row>, id: string): (r: Result<seq<Row>>)
    ensures r.Failure? <==> ParseInt(id).None?
    ensures r.Failure? ==> r.error == InvalidName(id)
    ensures r.Success? ==> r.value == Names.DeleteName(names, ParseInt(id).value)
  {
    match ParseInt(id)
    case None => Failure(InvalidName(id))
    case Some(k) => Success(Names.DeleteName(names, k))
  }

  /** Partner of `CreateName`: a name created under a fresh id is read back
      by the id string of the returned record. */
  lemma CreatedNameReadsBack(names: seq<Row>, input: Names.NewName<string>, id: nat, now: int)
    requires forall i :: 0 <= i < |names| ==> names[i].id != id
    ensures var (names', r) := CreateName(names, input, id, now);
      r.Success? ==> GetNameById(names', r.value.id) == Success(Some(r.value))
  {
    var (names', r) := CreateName(names, input, id, now);
    if r.Success? {
      ParseIntOfNatToString(id);
      var stored := WithIndividual(input, ParseInt(input.individualId).value);
      Names.FindNameOfLast(names, stored, id, now);
    }
  }

  /** An id string that parses leaves the table to `Names`; the table's
      invariant survives every write. */
  lemma WritesKeepValid(names: seq<Row>, id: string, u: Names.NameUpdate, input: Names.NewName<string>, newId: int, now: int)
    requires Names.Valid(names)
    requires forall i :: 0 <= i < |names| ==> names[i].id != newId
    ensures Names.Valid(CreateName(names, input, newId, now).0)
    ensures Names.Valid(UpdateName(names, id, u).0)
    ensures DeleteName(names, id).Success? ==> Names.Valid(DeleteName(names, id).value)
  {
    if ParseInt(input.individualId).Some? {
      Names.InsertNameKeepsValid(names, WithIndividual(input, ParseInt(input.individualId).value), newId, now);
    }
    if ParseInt(id).Some? {
      Names.UpdateNameKeepsValid(names, ParseInt(id).value, u);
    }
  }
}
