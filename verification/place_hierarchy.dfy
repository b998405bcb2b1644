/** `src/api/fetchPlacesRecursively.ts`: the places below a place, fetched
    level by level into a tree of children, and flattened back into the
    pre-order list the place page shows. */
module PlaceHierarchy {
  import opened Wrappers
  import Sorting
  import Text

  /** A place with its type's name, its nesting level and its children. */
  datatype RecursivePlace = RecursivePlace(
    id: string, name: string, typeName: string, createdAt: string,
    children: seq<RecursivePlace>, level: int)

  // ---------------------------------------------------------------------
  // Flattening
  // ---------------------------------------------------------------------

  /** `flattenPlaces`: each place, then its flattened children, sibling by
      sibling. */
  function Flatten(places: seq<RecursivePlace>): (r: seq<RecursivePlace>)
    decreases places
  {
    if |places| == 0 then []
    else FlattenOne(places[0]) + Flatten(places[1..])
  }

  /** One place followed by its descendants. */
  function FlattenOne(p: RecursivePlace): (r: seq<RecursivePlace>)
    decreases p, 0
  {
    [p] + Flatten(p.children)
  }

  /** The number of places in a forest, counting every descendant. */
  function Count(places: seq<RecursivePlace>): nat
    decreases places
  {
    if |places| == 0 then 0
    else 1 + Count(places[0].children) + Count(places[1..])
  }

  lemma {:induction false} FlattenLength(places: seq<RecursivePlace>)
    ensures |Flatten(places)| == Count(places)
    decreases places
  {
    if |places| > 0 {
      FlattenLength(places[0].children);
      FlattenLength(places[1..]);
    }
  }

  /** `Flatten` keeps sibling order: flattening two runs of siblings is
      flattening each in turn. */
  lemma {:induction false} FlattenAppend(a: seq<RecursivePlace>, b: seq<RecursivePlace>)
    ensures Flatten(a + b) == Flatten(a) + Flatten(b)
    decreases |a|
  {
    if |a| > 0 {
      assert (a + b)[0] == a[0];
      assert (a + b)[1..] == a[1..] + b;
      FlattenAppend(a[1..], b);
    } else {
      assert a + b == b;
    }
  }

  /** Every place of the forest sits at `level`, and its children one level
      deeper. */
  predicate Leveled(places: seq<RecursivePlace>, level: int)
    decreases places
  {
    forall i :: 0 <= i < |places| ==> places[i].level == level && Leveled(places[i].children, level + 1)
  }

  /** In the flattened list of a leveled forest the first place is at the
      top level, none is above it, and each place is at most one level
      deeper than the one before it. */
  lemma {:induction false} FlattenLevels(places: seq<RecursivePlace>, level: int)
    requires Leveled(places, level)
    ensures var f := Flatten(places);
      (|f| > 0 ==> f[0].level == level) &&
      (forall i :: 0 <= i < |f| ==> f[i].level >= level) &&
      (forall i :: 0 < i < |f| ==> f[i].level <= f[i - 1].level + 1)
    decreases places
  {
    if |places| > 0 {
      var p := places[0];
      assert p.level == level && Leveled(p.children, level + 1);
      FlattenLevels(p.children, level + 1);
      assert forall i :: 0 <= i < |places| - 1 ==> places[1..][i] == places[i + 1];
      FlattenLevels(places[1..], level);
      var one, rest := FlattenOne(p), Flatten(places[1..]);
      assert one == [p] + Flatten(p.children);
      StepsJoin([p], Flatten(p.children), level);
      StepsJoin(one, rest, level);
    }
  }

  /** Each place at most one level deeper than its predecessor. */
  predicate Steps(f: seq<RecursivePlace>) {
    forall i :: 0 < i < |f| ==> f[i].level <= f[i - 1].level + 1
  }

  predicate AtLeast(f: seq<RecursivePlace>, level: int) {
    forall i :: 0 <= i < |f| ==> f[i].level >= level
  }

  lemma StepsJoin(a: seq<RecursivePlace>, b: seq<RecursivePlace>, level: int)
    requires Steps(a) && Steps(b) && AtLeast(a, level)
    requires |a| > 0 && |b| > 0 ==> b[0].level <= a[|a| - 1].level + 1
    ensures Steps(a + b)
  {
    var f := a + b;
    forall i | 0 < i < |f|
      ensures f[i].level <= f[i - 1].level + 1
    {
      if i < |a| {
        assert f[i] == a[i] && f[i - 1] == a[i - 1];
      } else if i == |a| {
        assert f[i] == b[0] && f[i - 1] == a[|a| - 1];
      } else {
        assert f[i] == b[i - |a|] && f[i - 1] == b[i - 1 - |a|];
      }
    }
  }

  // ---------------------------------------------------------------------
  // Fetching
  // ---------------------------------------------------------------------

  /** A `places` row: its type and parent are nullable. */
  datatype PlaceRow = PlaceRow(id: string, name: string, createdAt: string, typeId: Option<string>, parentId: Option<string>)

  function ChildOf(parentId: string): PlaceRow -> bool {
    (row: PlaceRow) => row.parentId == Some(parentId)
  }

  function RowName(): PlaceRow -> string {
    (row: PlaceRow) => row.name
  }

  /** The type name shown for a place: the name of its type, or "unknown"
      when the place has no type or the type is not found. `types` maps
      `place_types.id` to its name. */
  function TypeName(types: map<string, string>, typeId: Option<string>): (r: string)
    ensures typeId.Some? && typeId.value != "" && typeId.value in types ==> r == types[typeId.value]
    ensures typeId.None? || typeId.value == "" || typeId.value !in types ==> r == "unknown"
  {
    if typeId.Some? && typeId.value != "" && typeId.value in types then types[typeId.value] else "unknown"
  }

  /** The direct children of `parentId`, by name. */
  function ChildRows(rows: seq<PlaceRow>, parentId: string): (r: seq<PlaceRow>)
    ensures forall x :: x in r <==> x in rows && x.parentId == Some(parentId)
    ensures forall i, j :: 0 <= i < j < |r| ==> Text.LexLe(r[i].name, r[j].name)
  {
    var kids := Sorting.Filter(rows, ChildOf(parentId));
    var r := Sorting.SortByKey(kids, RowName());
    forall x
      ensures x in r <==> x in kids
    {
      assert x in r <==> x in multiset(r);
      assert x in kids <==> x in multiset(kids);
    }
    r
  }

  /** `fetchPlacesRecursively(parentId, level)`, over a snapshot of the
      `places` rows, reaching at most `fuel` levels down. */
  function Fetch(rows: seq<PlaceRow>, types: map<string, string>, parentId: string, level: int, fuel: nat): (r: seq<RecursivePlace>)
    ensures Leveled(r, level)
    ensures fuel > 0 ==> |r| == |ChildRows(rows, parentId)|
    ensures fuel > 0 ==> forall i :: 0 <= i < |r| ==>
              var row := ChildRows(rows, parentId)[i];
              r[i].id == row.id && r[i].name == row.name && r[i].createdAt == row.createdAt
              && r[i].typeName == TypeName(types, row.typeId)
    ensures fuel > 0 ==> forall i :: 0 <= i < |r| ==> r[i].children == Fetch(rows, types, r[i].id, level + 1, fuel - 1)
    ensures fuel == 0 || |ChildRows(rows, parentId)| == 0 ==> r == []
    decreases fuel
  {
    if fuel == 0 then []
    else
      var data := ChildRows(rows, parentId);
      var r := seq(|data|, i requires 0 <= i < |data| =>
        RecursivePlace(data[i].id, data[i].name, TypeName(types, data[i].typeId), data[i].createdAt,
                       Fetch(rows, types, data[i].id, level + 1, fuel - 1), level));
      assert forall i :: 0 <= i < |r| ==> r[i].level == level && Leveled(r[i].children, level + 1);
      r
  }

  /** The flattened tree of fetched places starts at the requested level and
      descends at most one level per place. */
  lemma FetchedFlattenLevels(rows: seq<PlaceRow>, types: map<string, string>, parentId: string, level: int, fuel: nat)
    ensures var f := Flatten(Fetch(rows, types, parentId, level, fuel));
      (|f| > 0 ==> f[0].level == level) &&
      (forall i :: 0 <= i < |f| ==> f[i].level >= level) &&
      (forall i :: 0 < i < |f| ==> f[i].level <= f[i - 1].level + 1)
  {
    FlattenLevels(Fetch(rows, types, parentId, level, fuel), level);
  }
}
