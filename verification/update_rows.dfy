/** `updateIndividual` (`src/api/individuals/updateIndividual.ts`) and
    `updateFamily` (`src/api/families/updateFamily.ts`): each overwrites the
    record's own columns and replaces its dependent rows — the names of an
    individual, the children of a family — by the ones in the form. */
module UpdateRows {
  import opened Wrappers
  import opened SupabaseDb
  import Sorting

  // ---------------------------------------------------------------------
  // updateIndividual
  // ---------------------------------------------------------------------

  /** A name as the form sends it; its `id` is not used. */
  datatype NameInput = NameInput(id: Option<string>, firstName: string, lastName: string, surname: string, nameType: string)

  function NameOf(individualId: string, treeId: string): NameRow -> bool {
    (n: NameRow) => n.individualId == individualId && n.treeId == treeId
  }

  function WithGender(individualId: string, treeId: string, gender: string): IndividualRow -> IndividualRow {
    (i: IndividualRow) => if i.id == individualId && i.treeId == treeId then i.(gender := gender) else i
  }

  /** The rows inserted for the form's names, in the form's order. */
  function NewNames(treeId: string, individualId: string, names: seq<NameInput>): (r: seq<NameRow>)
    ensures |r| == |names|
    ensures forall i :: 0 <= i < |r| ==>
              r[i].individualId == individualId && r[i].treeId == treeId
              && r[i].firstName == names[i].firstName && r[i].lastName == names[i].lastName
              && r[i].nameType == names[i].nameType
    ensures forall i :: 0 <= i < |r| ==> (r[i].surname.None? <==> names[i].surname == "")
    ensures forall i :: 0 <= i < |r| ==> r[i].surname.Some? ==> r[i].surname.value == names[i].surname
    ensures forall i :: 0 <= i < |r| ==> (r[i].isPrimary <==> i == 0)
  {
    seq(|names|, i requires 0 <= i < |names| =>
      NameRow(individualId, treeId, names[i].firstName, names[i].lastName,
              OrNull(names[i].surname), names[i].nameType, i == 0))
  }

  /** The names table after the update: the existing names of the
      individual deleted (only if there are any), then the form's names
      inserted. */
  function ReplaceNames(names: seq<NameRow>, treeId: string, individualId: string, input: seq<NameInput>): seq<NameRow> {
    var existing := Sorting.Filter(names, NameOf(individualId, treeId));
    var kept := if |existing| > 0 then Sorting.Filter(names, Sorting.Not(NameOf(individualId, treeId))) else names;
    kept + NewNames(treeId, individualId, input)
  }

  /** `updateIndividual(treeId, individualId, data)`: the gender is
      overwritten and the names replaced. */
  function UpdateIndividual(db: Db, treeId: string, individualId: string, gender: string, names: seq<NameInput>): (r: Saved)
    ensures r.id == individualId
    ensures |r.db.individuals| == |db.individuals|
    ensures forall i :: 0 <= i < |db.individuals| ==>
              var before, after := db.individuals[i], r.db.individuals[i];
              if before.id == individualId && before.treeId == treeId then after == before.(gender := gender)
              else after == before
    ensures r.db.names == ReplaceNames(db.names, treeId, individualId, names)
    ensures r.db.(individuals := db.individuals, names := db.names) == db
  {
    var individuals := Sorting.Map(db.individuals, WithGender(individualId, treeId, gender));
    Saved(db.(individuals := individuals, names := ReplaceNames(db.names, treeId, individualId, names)), individualId)
  }

  lemma NewNamesAreTheIndividuals(treeId: string, individualId: string, names: seq<NameInput>)
    ensures Sorting.Filter(NewNames(treeId, individualId, names), NameOf(individualId, treeId)) == NewNames(treeId, individualId, names)
  {
    Sorting.FilterAll(NewNames(treeId, individualId, names), NameOf(individualId, treeId));
  }

  /** Skipping the delete when the individual has no names is the same as
      deleting none: the names table is the other names, in their order,
      followed by the form's names. */
  lemma ReplaceNamesUnguarded(names: seq<NameRow>, treeId: string, individualId: string, input: seq<NameInput>)
    ensures ReplaceNames(names, treeId, individualId, input)
            == Sorting.Filter(names, Sorting.Not(NameOf(individualId, treeId))) + NewNames(treeId, individualId, input)
  {
    if |Sorting.Filter(names, NameOf(individualId, treeId))| == 0 {
      Sorting.FilterAll(names, Sorting.Not(NameOf(individualId, treeId)));
    }
  }

  /** Partner of `UpdateIndividual`: afterwards the individual's names are
      exactly the form's, in its order. */
  lemma ReplaceNamesOwn(names: seq<NameRow>, treeId: string, individualId: string, input: seq<NameInput>)
    ensures Sorting.Filter(ReplaceNames(names, treeId, individualId, input), NameOf(individualId, treeId))
            == NewNames(treeId, individualId, input)
  {
    ReplaceNamesUnguarded(names, treeId, individualId, input);
    var others := Sorting.Filter(names, Sorting.Not(NameOf(individualId, treeId)));
    var inserted := NewNames(treeId, individualId, input);
    Sorting.FilterConcat(others, inserted, NameOf(individualId, treeId));
    Sorting.FilterNone(others, NameOf(individualId, treeId));
    NewNamesAreTheIndividuals(treeId, individualId, input);
  }

  /** Every name row of anyone else is kept, and none is added. */
  lemma ReplaceNamesKeepsOthers(names: seq<NameRow>, treeId: string, individualId: string, input: seq<NameInput>, n: NameRow)
    requires !NameOf(individualId, treeId)(n)
    ensures n in ReplaceNames(names, treeId, individualId, input) <==> n in names
  {
    ReplaceNamesUnguarded(names, treeId, individualId, input);
  }

  /** With at least one name in the form, the individual has exactly one
      primary name afterwards. */
  lemma ReplaceNamesOnePrimary(names: seq<NameRow>, treeId: string, individualId: string, input: seq<NameInput>)
    requires |input| > 0
    ensures var own := Sorting.Filter(ReplaceNames(names, treeId, individualId, input), NameOf(individualId, treeId));
      |Sorting.Filter(own, (n: NameRow) => n.isPrimary)| == 1
  {
    ReplaceNamesOwn(names, treeId, individualId, input);
    var inserted := NewNames(treeId, individualId, input);
    assert inserted == [inserted[0]] + inserted[1..];
    Sorting.FilterNone(inserted[1..], (n: NameRow) => n.isPrimary);
  }

  /** Replacing by the same names twice is replacing once. */
  lemma ReplaceNamesIdempotent(names: seq<NameRow>, treeId: string, individualId: string, input: seq<NameInput>)
    ensures var once := ReplaceNames(names, treeId, individualId, input);
      ReplaceNames(once, treeId, individualId, input) == once
  {
    var keep := Sorting.Not(NameOf(individualId, treeId));
    var others := Sorting.Filter(names, keep);
    var inserted := NewNames(treeId, individualId, input);
    ReplaceNamesUnguarded(names, treeId, individualId, input);
    ReplaceNamesUnguarded(others + inserted, treeId, individualId, input);
    assert Sorting.Filter(others + inserted, keep) == others by {
      Sorting.FilterConcat(others, inserted, keep);
      Sorting.FilterAll(others, keep);
      Sorting.FilterNone(inserted, keep);
    }
  }

  /** Sending the same form twice leaves the tables as sending it once. */
  lemma UpdateIndividualIdempotent(db: Db, treeId: string, individualId: string, gender: string, names: seq<NameInput>)
    ensures var once := UpdateIndividual(db, treeId, individualId, gender, names).db;
      UpdateIndividual(once, treeId, individualId, gender, names).db == once
  {
    ReplaceNamesIdempotent(db.names, treeId, individualId, names);
  }

  // ---------------------------------------------------------------------
  // updateFamily
  // ---------------------------------------------------------------------

  /** `FamilyFormData`: the spouses' ids ("" for none), the type, and the
      children's ids ("" for an empty slot). */
  datatype FamilyForm = FamilyForm(husbandId: string, wifeId: string, familyType: string, children: seq<string>)

  function ChildOf(familyId: string, treeId: string): ChildRow -> bool {
    (c: ChildRow) => c.familyId == familyId && c.treeId == treeId
  }

  function FamilyWith(familyId: string, treeId: string, form: FamilyForm): FamilyRow -> FamilyRow {
    (f: FamilyRow) =>
      if f.id == familyId && f.treeId == treeId
      then f.(husbandId := OrNull(form.husbandId), wifeId := OrNull(form.wifeId), familyType := form.familyType)
      else f
  }

  function NonEmpty(): string -> bool {
    (id: string) => id != ""
  }

  function ChildRowFor(familyId: string, treeId: string): string -> ChildRow {
    (id: string) => ChildRow(familyId, id, treeId)
  }

  /** The rows inserted for the form's children. */
  function NewChildren(familyId: string, treeId: string, children: seq<string>): (r: seq<ChildRow>)
    ensures forall c :: c in r ==> c.familyId == familyId && c.treeId == treeId && c.individualId != ""
    ensures forall id :: id != "" ==> (ChildRow(familyId, id, treeId) in r <==> id in children)
  {
    var ids := Sorting.Filter(children, NonEmpty());
    var r := Sorting.Map(ids, ChildRowFor(familyId, treeId));
    forall c | c in r
      ensures c.familyId == familyId && c.treeId == treeId && c.individualId != ""
    {
      var k :| 0 <= k < |r| && r[k] == c;
      assert ids[k] in ids;
    }
    forall id | id != "" && id in children
      ensures ChildRow(familyId, id, treeId) in r
    {
      assert id in ids;
      var k :| 0 <= k < |ids| && ids[k] == id;
      assert r[k] == ChildRow(familyId, id, treeId);
    }
    r
  }

  /** The `family_children` table after the update: the family's rows
      deleted, then the form's non-empty children inserted (nothing is sent
      for an empty list). */
  function ReplaceChildren(children: seq<ChildRow>, treeId: string, familyId: string, input: seq<string>): seq<ChildRow> {
    var kept := Sorting.Filter(children, Sorting.Not(ChildOf(familyId, treeId)));
    kept + (if |input| > 0 then NewChildren(familyId, treeId, input) else [])
  }

  /** `updateFamily(treeId, familyId, data)`: the spouses (empty meaning
      none) and type are written and the children replaced. */
  function UpdateFamily(db: Db, treeId: string, familyId: string, form: FamilyForm): (r: Saved)
    ensures r.id == familyId
    ensures |r.db.families| == |db.families|
    ensures forall i :: 0 <= i < |db.families| ==>
              var before, after := db.families[i], r.db.families[i];
              if before.id == familyId && before.treeId == treeId
              then after.id == before.id && after.treeId == before.treeId && after.familyType == form.familyType
                   && (after.husbandId.None? <==> form.husbandId == "") && (after.wifeId.None? <==> form.wifeId == "")
                   && (after.husbandId.Some? ==> after.husbandId.value == form.husbandId)
                   && (after.wifeId.Some? ==> after.wifeId.value == form.wifeId)
              else after == before
    ensures r.db.children == ReplaceChildren(db.children, treeId, familyId, form.children)
    ensures r.db.(families := db.families, children := db.children) == db
  {
    var families := Sorting.Map(db.families, FamilyWith(familyId, treeId, form));
    Saved(db.(families := families, children := ReplaceChildren(db.children, treeId, familyId, form.children)), familyId)
  }

  /** Partner of `UpdateFamily`: afterwards the family's children are
      exactly the form's non-empty ids, and every other child row is kept. */
  lemma ReplaceChildrenEffect(children: seq<ChildRow>, treeId: string, familyId: string, input: seq<string>)
    ensures var after := ReplaceChildren(children, treeId, familyId, input);
      forall id :: ChildRow(familyId, id, treeId) in after <==> id != "" && id in input
    ensures var after := ReplaceChildren(children, treeId, familyId, input);
      forall c :: !ChildOf(familyId, treeId)(c) ==> (c in after <==> c in children)
  {
  }

  /** Replacing by the same children twice is replacing once. */
  lemma ReplaceChildrenIdempotent(children: seq<ChildRow>, treeId: string, familyId: string, input: seq<string>)
    ensures var once := ReplaceChildren(children, treeId, familyId, input);
      ReplaceChildren(once, treeId, familyId, input) == once
  {
    var keep := Sorting.Not(ChildOf(familyId, treeId));
    var kept := Sorting.Filter(children, keep);
    var added := if |input| > 0 then NewChildren(familyId, treeId, input) else [];
    assert Sorting.Filter(kept + added, keep) == kept by {
      Sorting.FilterConcat(kept, added, keep);
      Sorting.FilterAll(kept, keep);
      Sorting.FilterNone(added, keep);
    }
  }

  /** Sending the same form twice leaves the tables as sending it once. */
  lemma UpdateFamilyIdempotent(db: Db, treeId: string, familyId: string, form: FamilyForm)
    ensures var once := UpdateFamily(db, treeId, familyId, form).db;
      UpdateFamily(once, treeId, familyId, form).db == once
  {
    ReplaceChildrenIdempotent(db.children, treeId, familyId, form.children);
  }
}
