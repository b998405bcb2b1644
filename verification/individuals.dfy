/** `src/lib/individuals.ts`: individuals and their names in a tree
    database, keyed by UUID strings. */
module Individuals {
  import opened Wrappers
  import Sorting
  import Names

  datatype IndividualRow = IndividualRow(id: string, createdAt: int, gender: string, gedcomId: Option<int>)

  type NameRow = Names.NameRow<string>

  datatype Tree = Tree(individuals: seq<IndividualRow>, names: seq<NameRow>)

  /** `ORDER BY created_at DESC`. */
  predicate NewerFirst(a: IndividualRow, b: IndividualRow) {
    a.createdAt >= b.createdAt
  }

  /** `getAll`: every individual, newest first. */
  function GetAll(t: Tree): (r: seq<IndividualRow>)
    ensures multiset(r) == multiset(t.individuals)
    ensures forall i, j :: 0 <= i < j < |r| ==> r[i].createdAt >= r[j].createdAt
  {
    var le := (a: IndividualRow, b: IndividualRow) => NewerFirst(a, b);
    Sorting.SortWithSorted(t.individuals, le);
    Sorting.SortWith(t.individuals, le)
  }

  /** `getById`: the first row with the id, or null. */
  function GetById(t: Tree, id: string): (r: Option<IndividualRow>)
    ensures r.Some? ==> r.value in t.individuals && r.value.id == id
    ensures r.None? <==> forall i :: 0 <= i < |t.individuals| ==> t.individuals[i].id != id
  {
    Find(t.individuals, id)
  }

  function Find(rows: seq<IndividualRow>, id: string): (r: Option<IndividualRow>)
    ensures r.Some? ==> r.value in rows && r.value.id == id
    ensures r.None? <==> forall i :: 0 <= i < |rows| ==> rows[i].id != id
  {
    if |rows| == 0 then None
    else if rows[0].id == id then Some(rows[0])
    else
      assert forall i :: 1 <= i < |rows| ==> rows[i] == rows[1..][i - 1];
      Find(rows[1..], id)
  }

  /** The primary key's refusal of a second row with a taken id. */
  const IndividualIdTaken: string := "UNIQUE constraint failed: individuals.id"

  /** `create`: inserts the individual under the generated id `id`, created
      at `now`, with no GEDCOM id, and reads back the row with that id. The
      primary key refuses an id already taken, and nothing is inserted. */
  function Create(t: Tree, gender: string, id: string, now: int): (r: (Tree, Result<IndividualRow>))
    ensures r.1.Success? <==> GetById(t, id).None?
    ensures r.1.Failure? ==> r == (t, Failure(IndividualIdTaken))
    ensures r.0.names == t.names
    ensures r.1.Success? ==>
      && r.1.value == IndividualRow(id, now, gender, None)
      && r.0.individuals == t.individuals + [r.1.value]
      && GetById(r.0, id) == Some(r.1.value)
  {
    if Find(t.individuals, id).Some? then (t, Failure(IndividualIdTaken))
    else
      var row := IndividualRow(id, now, gender, None);
      var rows := t.individuals + [row];
      FindLast(t.individuals, row);
      (t.(individuals := rows), Success(Find(rows, id).value))
  }

  lemma {:induction false} FindLast(rows: seq<IndividualRow>, x: IndividualRow)
    requires forall i :: 0 <= i < |rows| ==> rows[i].id != x.id
    ensures Find(rows + [x], x.id) == Some(x)
    decreases |rows|
  {
    if |rows| > 0 {
      FindLast(rows[1..], x);
      assert (rows + [x])[1..] == rows[1..] + [x];
    }
  }

  function NotFound(id: string): string {
    "Individual with id " + id + " not found"
  }

  /** `update`: only the gender can change. Without a gender the row is read
      back as it is; a missing row is an error either way. */
  function Update(t: Tree, id: string, gender: Option<string>): (r: (Tree, Result<IndividualRow>))
    ensures r.1.Success? <==> GetById(t, id).Some?
    ensures r.1.Failure? ==> r.1.error == NotFound(id)
    ensures r.1.Success? ==> r.1.value == GetById(t, id).value.(gender := gender.GetOr(GetById(t, id).value.gender))
    ensures gender.None? ==> r.0 == t
    ensures r.0.names == t.names && |r.0.individuals| == |t.individuals|
    ensures forall i :: 0 <= i < |t.individuals| && t.individuals[i].id != id ==> r.0.individuals[i] == t.individuals[i]
  {
    if gender.None? then
      match GetById(t, id)
      case None => (t, Failure(NotFound(id)))
      case Some(x) => (t, Success(x))
    else
      var rows := SetGender(t.individuals, id, gender.value);
      FindAfterSetGender(t.individuals, id, gender.value);
      var t' := t.(individuals := rows);
      match GetById(t', id)
      case None => (t', Failure(NotFound(id)))
      case Some(x) => (t', Success(x))
  }

  /** `UPDATE individuals SET gender = ? WHERE id = ?`. */
  function SetGender(rows: seq<IndividualRow>, id: string, gender: string): (r: seq<IndividualRow>)
    ensures |r| == |rows|
    ensures forall i :: 0 <= i < |rows| ==> r[i] == if rows[i].id == id then rows[i].(gender := gender) else rows[i]
  {
    seq(|rows|, i requires 0 <= i < |rows| => if rows[i].id == id then rows[i].(gender := gender) else rows[i])
  }

  lemma {:induction false} FindAfterSetGender(rows: seq<IndividualRow>, id: string, gender: string)
    ensures Find(SetGender(rows, id, gender), id).Some? <==> Find(rows, id).Some?
    ensures Find(rows, id).Some? ==> Find(SetGender(rows, id, gender), id) == Some(Find(rows, id).value.(gender := gender))
    decreases |rows|
  {
    if |rows| > 0 && rows[0].id != id {
      FindAfterSetGender(rows[1..], id, gender);
      assert SetGender(rows, id, gender)[1..] == SetGender(rows[1..], id, gender);
    }
  }

  /** Partner of `Update`: reading the individual back gives what `update`
      returned. */
  lemma UpdateReadsBack(t: Tree, id: string, gender: Option<string>)
    ensures var (t', r) := Update(t, id, gender);
      r.Success? ==> GetById(t', id) == Some(r.value)
  {
    if gender.Some? {
      FindAfterSetGender(t.individuals, id, gender.value);
    }
  }

  /** `delete`: the rows with the id go, and with them, through the
      `ON DELETE CASCADE` foreign key on `names.individual_id`, their names. */
  function Delete(t: Tree, id: string): (r: Tree)
    ensures forall x :: x in r.individuals <==> x in t.individuals && x.id != id
    ensures forall n :: n in r.names <==> n in t.names && n.individualId != id
    ensures GetById(r, id).None? && Names.NamesOf(r.names, id) == []
  {
    var r := Tree(Sorting.Filter(t.individuals, (x: IndividualRow) => x.id != id),
                  Sorting.Filter(t.names, (n: NameRow) => n.individualId != id));
    r
  }

  // ---------------------------------------------------------------------
  // Names
  // ---------------------------------------------------------------------

  const NameIdTaken := "UNIQUE constraint failed: names.id"
  const ForeignKeyFailed := "FOREIGN KEY constraint failed"

  /** `createName` under the generated id `id`. A primary name first clears
      the individual's other primaries; that `UPDATE` stays even when the
      `INSERT` after it is refused, by the primary key when the id is taken
      or by the foreign key on `names.individual_id` when no individual has
      the id. Otherwise the first row with the id is read back. */
  function CreateName(t: Tree, input: Names.NewName<string>, id: string, now: int): (r: (Tree, Result<NameRow>))
    ensures r.0.individuals == t.individuals
    ensures r.1.Success? <==> Names.FindName(t.names, id).None? && GetById(t, input.individualId).Some?
    ensures Names.FindName(t.names, id).Some? ==> r.1 == Failure(NameIdTaken)
    ensures Names.FindName(t.names, id).None? && GetById(t, input.individualId).None? ==> r.1 == Failure(ForeignKeyFailed)
    ensures r.1.Failure? ==> r.0.names == Names.InsertName(t.names, input, id, now)[..|t.names|]
    ensures r.1.Success? ==>
      && r.0.names == Names.InsertName(t.names, input, id, now)
      && r.1.value == Names.NewRow(input, id, now)
      && Names.FindName(r.0.names, id) == Some(r.1.value)
  {
    var names := Names.InsertName(t.names, input, id, now);
    if Names.FindName(t.names, id).Some? then (t.(names := names[..|t.names|]), Failure(NameIdTaken))
    else if GetById(t, input.individualId).None? then (t.(names := names[..|t.names|]), Failure(ForeignKeyFailed))
    else
      Names.FindNameOfLast(t.names, input, id, now);
      (t.(names := names), Success(Names.FindName(names, id).value))
  }

  function NameNotFound(id: string): string {
    "Name with id " + id + " not found"
  }

  /** `updateName`: the error when no name has the id, whether or not the
      update writes anything. */
  function UpdateName(t: Tree, id: string, u: Names.NameUpdate): (r: (Tree, Result<NameRow>))
    ensures r.0.individuals == t.individuals
    ensures r.0.names == Names.UpdateName(t.names, id, u).0
    ensures r.1.Success? <==> Names.FindName(t.names, id).Some?
    ensures r.1.Failure? ==> r.1.error == NameNotFound(id) && r.0 == t
    ensures r.1.Success? ==> r.1.value == Names.ApplyNameUpdate(Names.FindName(t.names, id).value, u)
  {
    var (names, n) := Names.UpdateName(t.names, id, u);
    match n
    case None => (t.(names := names), Failure(NameNotFound(id)))
    case Some(x) => (t.(names := names), Success(x))
  }

  /** `getNames`: the individual's names and no other, the primary one
      first, then oldest first. */
  function GetNames(t: Tree, ind: string): (r: seq<NameRow>)
    ensures forall n :: n in r <==> n in t.names && n.individualId == ind
    ensures forall i, j :: 0 <= i < j < |r| ==> Names.ListedBefore(r[i], r[j])
  {
    Names.NamesOf(t.names, ind)
  }

  /** `getAllWithNames`: every individual, newest first, with its primary name. */
  function GetAllWithNames(t: Tree): (r: seq<(IndividualRow, Option<NameRow>)>)
    ensures |r| == |t.individuals|
    ensures forall i :: 0 <= i < |r| ==> r[i].1 == Names.PrimaryName(t.names, r[i].0.id)
    ensures forall i :: 0 <= i < |r| ==> r[i].0 == GetAll(t)[i]
  {
    var all := GetAll(t);
    assert |multiset(all)| == |multiset(t.individuals)|;
    seq(|all|, i requires 0 <= i < |all| => (all[i], Names.PrimaryName(t.names, all[i].id)))
  }

  /** `getByIdWithNames`: null for a missing individual, otherwise the row
      with its names in listing order. */
  function GetByIdWithNames(t: Tree, id: string): (r: Option<(IndividualRow, seq<NameRow>)>)
    ensures r.None? <==> GetById(t, id).None?
    ensures r.Some? ==> r.value.0 == GetById(t, id).value
    ensures r.Some? ==> forall n :: n in r.value.1 <==> n in t.names && n.individualId == id
    ensures r.Some? ==> forall i, j :: 0 <= i < j < |r.value.1| ==> Names.ListedBefore(r.value.1[i], r.value.1[j])
  {
    match GetById(t, id)
    case None => None
    case Some(x) => Some((x, GetNames(t, id)))
  }
}
