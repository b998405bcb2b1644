/** The place tables of one tree database as the library layer reads and
    writes them: place types with their guards (`placeTypes` in
    `src/lib/place-types.ts`) and places with their lazy initialisation, partial
    update and type join (`places` in `src/lib/places.ts`). Row ids are the
    integers SQLite assigns. */
module PlaceDb {
  import opened Wrappers
  import opened Text
  import Sorting
  import Seeding
  import opened Migrations

  /** A `places` row. Coordinates are kept as integers (see README). */
  datatype PlaceRow = PlaceRow(
    id: nat, createdAt: int, name: string, typeId: nat, parentId: Option<nat>,
    latitude: Option<int>, longitude: Option<int>, gedcomId: Option<int>)

  /** The two tables, each in row-id order, and the `sqlite_sequence`
      entry of `place_types` (the largest id it has handed out). */
  datatype Db = Db(types: seq<PlaceTypeRow>, places: seq<PlaceRow>, typeSequence: nat)

  ghost predicate TypeIdsDistinct(ts: seq<PlaceTypeRow>) {
    forall i, j :: 0 <= i < j < |ts| ==> ts[i].id != ts[j].id
  }

  ghost predicate PlaceIdsDistinct(ps: seq<PlaceRow>) {
    forall i, j :: 0 <= i < j < |ps| ==> ps[i].id != ps[j].id
  }

  /** Every place names a type that exists: what the `ON DELETE RESTRICT`
      foreign key, and the usage check in `delete`, protect. */
  ghost predicate TypesReferenced(db: Db) {
    forall i :: 0 <= i < |db.places| ==> FindType(db.types, db.places[i].typeId).Some?
  }

  /** `SELECT … FROM place_types WHERE id = ?`, first row. */
  function FindType(ts: seq<PlaceTypeRow>, id: nat): (r: Option<PlaceTypeRow>)
    ensures r.Some? ==> r.value in ts && r.value.id == id
    ensures r.None? <==> forall i :: 0 <= i < |ts| ==> ts[i].id != id
  {
    if |ts| == 0 then None
    else if ts[0].id == id then Some(ts[0])
    else
      assert forall i :: 1 <= i < |ts| ==> ts[i] == ts[1..][i - 1];
      FindType(ts[1..], id)
  }

  /** `SELECT * FROM places WHERE id = ?`, first row. */
  function FindPlace(ps: seq<PlaceRow>, id: nat): (r: Option<PlaceRow>)
    ensures r.Some? ==> r.value in ps && r.value.id == id
    ensures r.None? <==> forall i :: 0 <= i < |ps| ==> ps[i].id != id
  {
    if |ps| == 0 then None
    else if ps[0].id == id then Some(ps[0])
    else
      assert forall i :: 1 <= i < |ps| ==> ps[i] == ps[1..][i - 1];
      FindPlace(ps[1..], id)
  }

  // ---------------------------------------------------------------------
  // Place types (src/lib/place-types.ts)
  // ---------------------------------------------------------------------

  /** A key marks a system type when it is truthy: present and not empty. */
  predicate IsSystemKey(key: Option<string>) {
    key.Some? && key.value != ""
  }

  /** The fields an update may supply; `key` may be set to null. */
  datatype TypeUpdate = TypeUpdate(name: Option<string>, key: Option<Option<string>>)

  function ApplyTypeUpdate(t: PlaceTypeRow, u: TypeUpdate): PlaceTypeRow {
    t.(name := u.name.GetOr(t.name), key := u.key.GetOr(t.key))
  }

  /** `UPDATE place_types SET … WHERE id = ?`. */
  function UpdateTypeRows(ts: seq<PlaceTypeRow>, id: nat, u: TypeUpdate): (r: seq<PlaceTypeRow>)
    ensures |r| == |ts|
    ensures forall i :: 0 <= i < |ts| ==> r[i].id == ts[i].id
  {
    if |ts| == 0 then []
    else [if ts[0].id == id then ApplyTypeUpdate(ts[0], u) else ts[0]] + UpdateTypeRows(ts[1..], id, u)
  }

  function TypeNotFound(id: nat): string {
    "Place type with id " + NatToString(id) + " not found"
  }

  /** `placeTypes.update`: unknown ids and system types are refused without
      writing; an update that supplies nothing returns the row as it is. */
  function UpdateType(db: Db, id: nat, u: TypeUpdate): (r: (Db, Result<PlaceTypeRow>))
    ensures r.1.Failure? ==> r.0 == db
    ensures FindType(db.types, id).None? ==> r.1 == Failure(TypeNotFound(id))
    ensures FindType(db.types, id).Some? && IsSystemKey(FindType(db.types, id).value.key) ==>
              r.1 == Failure("Cannot modify system place type: " + FindType(db.types, id).value.name)
    ensures r.1.Success? <==> FindType(db.types, id).Some? && !IsSystemKey(FindType(db.types, id).value.key)
    ensures r.1.Success? ==> r.1.value == ApplyTypeUpdate(FindType(db.types, id).value, u)
    ensures u.name.None? && u.key.None? ==> r.0 == db
    ensures r.0.places == db.places
  {
    match FindType(db.types, id)
    case None => (db, Failure(TypeNotFound(id)))
    case Some(t) =>
      if IsSystemKey(t.key) then (db, Failure("Cannot modify system place type: " + t.name))
      else if u.name.None? && u.key.None? then (db, Success(t))
      else
        var db' := db.(types := UpdateTypeRows(db.types, id, u));
        FindTypeAfterUpdate(db.types, id, u, id);
        match FindType(db'.types, id)
        case None => (db', Failure(TypeNotFound(id)))
        case Some(t') => (db', Success(t'))
  }

  /** After an update the row with that id reads back updated; every other
      id reads back as before. */
  lemma {:induction false} FindTypeAfterUpdate(ts: seq<PlaceTypeRow>, id: nat, u: TypeUpdate, q: nat)
    ensures FindType(UpdateTypeRows(ts, id, u), q) ==
              if q == id && FindType(ts, q).Some? then Some(ApplyTypeUpdate(FindType(ts, q).value, u))
              else FindType(ts, q)
    decreases |ts|
  {
    if |ts| > 0 {
      FindTypeAfterUpdate(ts[1..], id, u, q);
      assert UpdateTypeRows(ts, id, u)[1..] == UpdateTypeRows(ts[1..], id, u);
    }
  }

  /** Partner of `UpdateType`: the returned row is what a later `getById`
      sees, and no other type changes. */
  lemma UpdateTypeReadsBack(db: Db, id: nat, u: TypeUpdate, q: nat)
    ensures var r := UpdateType(db, id, u);
      (r.1.Success? ==> FindType(r.0.types, id) == Some(r.1.value))
      && (q != id ==> FindType(r.0.types, q) == FindType(db.types, q))
  {
    FindTypeAfterUpdate(db.types, id, u, q);
    FindTypeAfterUpdate(db.types, id, u, id);
  }

  /** A system type reads back unchanged whatever update is attempted on
      whatever id. */
  lemma SystemTypeUnchanged(db: Db, id: nat, u: TypeUpdate, q: nat)
    requires FindType(db.types, q).Some? && IsSystemKey(FindType(db.types, q).value.key)
    ensures FindType(UpdateType(db, id, u).0.types, q) == FindType(db.types, q)
  {
    UpdateTypeReadsBack(db, id, u, q);
  }

  /** `SELECT COUNT(*) FROM places WHERE type_id = ?`. */
  function UsageCount(ps: seq<PlaceRow>, id: nat): (n: nat)
    ensures n <= |ps|
    ensures n == 0 <==> forall i :: 0 <= i < |ps| ==> ps[i].typeId != id
  {
    if |ps| == 0 then 0
    else
      assert forall i :: 1 <= i < |ps| ==> ps[i] == ps[1..][i - 1];
      (if ps[0].typeId == id then 1 else 0) + UsageCount(ps[1..], id)
  }

  /** `placeTypes.getUsageCount`: the count row's value, or 0 without one. */
  function GetUsageCount(db: Db, id: nat): (n: nat)
    ensures n <= |db.places|
    ensures n == 0 <==> forall i :: 0 <= i < |db.places| ==> db.places[i].typeId != id
  {
    Seeding.CountOrZero([UsageCount(db.places, id)])
  }

  function RemoveType(ts: seq<PlaceTypeRow>, id: nat): (r: seq<PlaceTypeRow>)
    ensures forall t :: t in r <==> t in ts && t.id != id
    ensures |r| <= |ts|
  {
    if |ts| == 0 then []
    else
      assert ts == [ts[0]] + ts[1..];
      (if ts[0].id == id then [] else [ts[0]]) + RemoveType(ts[1..], id)
  }

  /** `placeTypes.delete`: refuses, in this order, an unknown id, a system
      type and a type some place uses; otherwise removes the row. */
  function DeleteType(db: Db, id: nat): (r: (Db, Result<()>))
    ensures r.1.Success? <==>
              FindType(db.types, id).Some? && !IsSystemKey(FindType(db.types, id).value.key)
              && forall i :: 0 <= i < |db.places| ==> db.places[i].typeId != id
    ensures FindType(db.types, id).None? ==> r.1 == Failure(TypeNotFound(id))
    ensures FindType(db.types, id).Some? && IsSystemKey(FindType(db.types, id).value.key) ==>
              r.1 == Failure("Cannot delete system place type: " + FindType(db.types, id).value.name)
    ensures FindType(db.types, id).Some? && !IsSystemKey(FindType(db.types, id).value.key) && UsageCount(db.places, id) > 0 ==>
              r.1 == Failure("Cannot delete place type: " + NatToString(UsageCount(db.places, id)) + " places are using this type")
    ensures r.1.Failure? ==> r.0 == db
    ensures r.0.places == db.places
    ensures r.1.Success? ==> forall t :: t in r.0.types <==> t in db.types && t.id != id
  {
    match FindType(db.types, id)
    case None => (db, Failure(TypeNotFound(id)))
    case Some(t) =>
      if IsSystemKey(t.key) then (db, Failure("Cannot delete system place type: " + t.name))
      else
        var n := UsageCount(db.places, id);
        if n > 0 then (db, Failure("Cannot delete place type: " + NatToString(n) + " places are using this type"))
        else (db.(types := RemoveType(db.types, id)), Success(()))
  }

  lemma {:induction false} FindTypeAfterRemove(ts: seq<PlaceTypeRow>, id: nat, q: nat)
    ensures FindType(RemoveType(ts, id), q) == if q == id then None else FindType(ts, q)
    decreases |ts|
  {
    if |ts| > 0 {
      FindTypeAfterRemove(ts[1..], id, q);
      if ts[0].id == id {
        assert RemoveType(ts, id) == RemoveType(ts[1..], id);
      } else {
        assert RemoveType(ts, id) == [ts[0]] + RemoveType(ts[1..], id);
      }
    }
  }

  /** Partner of `DeleteType`: a removed type is gone, the others remain, and
      since only unused types are removed every place still has its type. */
  lemma DeleteTypeKeepsReferences(db: Db, id: nat, q: nat)
    requires TypesReferenced(db)
    ensures var r := DeleteType(db, id);
      TypesReferenced(r.0)
      && (r.1.Success? ==> FindType(r.0.types, id).None?)
      && (q != id ==> FindType(r.0.types, q) == FindType(db.types, q))
  {
    var r := DeleteType(db, id);
    FindTypeAfterRemove(db.types, id, q);
    if r.1.Success? {
      forall i | 0 <= i < |db.places|
        ensures FindType(r.0.types, db.places[i].typeId).Some?
      {
        FindTypeAfterRemove(db.types, id, db.places[i].typeId);
      }
      FindTypeAfterRemove(db.types, id, id);
    }
  }

  // ---------------------------------------------------------------------
  // Places (src/lib/places.ts)
  // ---------------------------------------------------------------------

  /** How a listed type carries `is_system`: the stored integer, or the
      boolean it is coerced to. */
  datatype Flag = Stored(n: int) | Boolean(b: bool)

  datatype ListedType = ListedType(row: PlaceTypeRow, isSystem: Flag)

  function TypeName(t: PlaceTypeRow): string { t.name }

  function ByName(ts: seq<PlaceTypeRow>): (r: seq<PlaceTypeRow>)
    ensures multiset(r) == multiset(ts)
    ensures forall i, j :: 0 <= i < j < |r| ==> LexLe(r[i].name, r[j].name)
  {
    Sorting.SortByKey(ts, TypeName)
  }

  /** The rows by name, each with its flag stored or coerced. */
  function Listed(ts: seq<PlaceTypeRow>, coerce: bool): (r: seq<ListedType>)
    ensures |r| == |ts|
    ensures forall i :: 0 <= i < |r| ==> r[i].row in ts
    ensures forall t :: t in ts ==> exists i :: 0 <= i < |r| && r[i].row == t
    ensures forall i :: 0 <= i < |r| ==>
              r[i].isSystem == if coerce then Boolean(r[i].row.isSystem) else Stored(if r[i].row.isSystem then 1 else 0)
    ensures forall i, j :: 0 <= i < j < |r| ==> LexLe(r[i].row.name, r[j].row.name)
  {
    var sorted := ByName(ts);
    Sorting.SameMembers(sorted, ts);
    var r := seq(|sorted|, i requires 0 <= i < |sorted| =>
      ListedType(sorted[i], if coerce then Boolean(sorted[i].isSystem) else Stored(if sorted[i].isSystem then 1 else 0)));
    assert forall t :: t in ts ==> exists i :: 0 <= i < |r| && r[i].row == t by {
      forall t | t in ts
        ensures exists i :: 0 <= i < |r| && r[i].row == t
      {
        var i :| 0 <= i < |sorted| && sorted[i] == t;
        assert r[i].row == t;
      }
    }
    r
  }

  /** `places.getPlaceTypes`: the types by name. An empty table first runs
      `initializeDatabase` (`schema` is its outcome) and the re-read rows
      keep `is_system` as stored; otherwise it is coerced to a boolean. */
  function GetPlaceTypes(db: Db, schema: Io): (r: (Db, Result<seq<ListedType>>))
    ensures r.0.places == db.places
    ensures |db.types| > 0 ==> r.0 == db && r.1.Success?
    ensures |db.types| > 0 ==> forall i :: 0 <= i < |r.1.value| ==> r.1.value[i].isSystem.Boolean?
    ensures |db.types| == 0 ==> (r.1.Success? <==> schema.Ok?)
    ensures |db.types| == 0 && schema.Ok? ==>
              |r.1.value| == |Schema.DefaultPlaceTypes|
              && forall i :: 0 <= i < |r.1.value| ==> r.1.value[i].isSystem == Stored(1)
    ensures r.1.Success? ==> |r.1.value| == |r.0.types|
    ensures r.1.Success? ==> forall i :: 0 <= i < |r.1.value| ==> r.1.value[i].row in r.0.types
    ensures r.1.Success? ==> forall t :: t in r.0.types ==> exists i :: 0 <= i < |r.1.value| && r.1.value[i].row == t
    ensures r.1.Success? ==> forall i, j :: 0 <= i < j < |r.1.value| ==> LexLe(r.1.value[i].row.name, r.1.value[j].row.name)
  {
    if |db.types| == 0 then
      if schema.Err? then (db, Failure(schema.msg))
      else
        SeedEmptyTable(db.typeSequence);
        var seeded := SeedPlaceTypes(db.types, db.typeSequence).0;
        (db.(types := seeded, typeSequence := db.typeSequence + |seeded|), Success(Listed(seeded, false)))
    else (db, Success(Listed(db.types, true)))
  }

  /** `places.getPlaceType`. */
  function GetPlaceType(db: Db, id: nat): (r: Result<ListedType>)
    ensures r.Success? <==> exists i :: 0 <= i < |db.types| && db.types[i].id == id
    ensures r.Failure? ==> r.error == TypeNotFound(id)
    ensures r.Success? ==> r.value.row in db.types && r.value.row.id == id && r.value.isSystem == Boolean(r.value.row.isSystem)
  {
    match FindType(db.types, id)
    case None => Failure(TypeNotFound(id))
    case Some(t) => Success(ListedType(t, Boolean(t.isSystem)))
  }

  /** The fields a place update may supply; nullable columns may be set to null. */
  datatype PlaceUpdate = PlaceUpdate(
    name: Option<string>, typeId: Option<nat>, parentId: Option<Option<nat>>,
    latitude: Option<Option<int>>, longitude: Option<Option<int>>, gedcomId: Option<Option<int>>)

  /** Whether the update writes anything. `src/lib/places.ts` has no branch
      for `gedcomId`; `src/lib/places/index.ts` writes every supplied field. */
  predicate Writes(u: PlaceUpdate, withGedcom: bool) {
    u.name.Some? || u.typeId.Some? || u.parentId.Some? || u.latitude.Some? || u.longitude.Some?
    || (withGedcom && u.gedcomId.Some?)
  }

  function ApplyPlaceUpdate(p: PlaceRow, u: PlaceUpdate, withGedcom: bool): PlaceRow {
    p.(name := u.name.GetOr(p.name), typeId := u.typeId.GetOr(p.typeId),
       parentId := u.parentId.GetOr(p.parentId), latitude := u.latitude.GetOr(p.latitude),
       longitude := u.longitude.GetOr(p.longitude),
       gedcomId := if withGedcom then u.gedcomId.GetOr(p.gedcomId) else p.gedcomId)
  }

  function UpdatePlaceRows(ps: seq<PlaceRow>, id: nat, u: PlaceUpdate, withGedcom: bool): (r: seq<PlaceRow>)
    ensures |r| == |ps|
    ensures forall i :: 0 <= i < |ps| ==> r[i].id == ps[i].id
  {
    if |ps| == 0 then []
    else [if ps[0].id == id then ApplyPlaceUpdate(ps[0], u, withGedcom) else ps[0]] + UpdatePlaceRows(ps[1..], id, u, withGedcom)
  }

  lemma {:induction false} FindPlaceAfterUpdate(ps: seq<PlaceRow>, id: nat, u: PlaceUpdate, withGedcom: bool, q: nat)
    ensures FindPlace(UpdatePlaceRows(ps, id, u, withGedcom), q) ==
              if q == id && FindPlace(ps, q).Some? then Some(ApplyPlaceUpdate(FindPlace(ps, q).value, u, withGedcom))
              else FindPlace(ps, q)
    decreases |ps|
  {
    if |ps| > 0 {
      FindPlaceAfterUpdate(ps[1..], id, u, withGedcom, q);
      assert UpdatePlaceRows(ps, id, u, withGedcom)[1..] == UpdatePlaceRows(ps[1..], id, u, withGedcom);
    }
  }

  function PlaceNotFound(id: nat): string {
    "Place with id " + NatToString(id) + " not found"
  }

  /** `places.update` (`withGedcom` false) and the `update` of
      `src/lib/places/index.ts` (`withGedcom` true): an update that writes
      nothing returns the stored place; otherwise the supplied fields are
      written and the row read back. Either way a missing place fails. */
  function UpdatePlace(db: Db, id: nat, u: PlaceUpdate, withGedcom: bool): (r: (Db, Result<PlaceRow>))
    ensures r.1.Failure? <==> FindPlace(db.places, id).None?
    ensures r.1.Failure? ==> r.1.error == PlaceNotFound(id) && r.0 == db
    ensures r.1.Success? ==> r.1.value == ApplyPlaceUpdate(FindPlace(db.places, id).value, u, withGedcom)
    ensures !Writes(u, withGedcom) ==> r.0 == db
    ensures r.0.types == db.types
  {
    if !Writes(u, withGedcom) then
      match FindPlace(db.places, id)
      case None => (db, Failure(PlaceNotFound(id)))
      case Some(p) =>
        assert ApplyPlaceUpdate(p, u, withGedcom) == p;
        (db, Success(p))
    else
      FindPlaceAfterUpdate(db.places, id, u, withGedcom, id);
      if FindPlace(db.places, id).None? then
        assert forall i :: 0 <= i < |db.places| ==> db.places[i].id != id;
        assert UpdatePlaceRows(db.places, id, u, withGedcom) == db.places by {
          UpdateMissingPlace(db.places, id, u, withGedcom);
        }
        (db, Failure(PlaceNotFound(id)))
      else
        var db' := db.(places := UpdatePlaceRows(db.places, id, u, withGedcom));
        match FindPlace(db'.places, id)
        case None => (db', Failure(PlaceNotFound(id)))
        case Some(p') => (db', Success(p'))
  }

  lemma {:induction false} UpdateMissingPlace(ps: seq<PlaceRow>, id: nat, u: PlaceUpdate, withGedcom: bool)
    requires forall i :: 0 <= i < |ps| ==> ps[i].id != id
    ensures UpdatePlaceRows(ps, id, u, withGedcom) == ps
    decreases |ps|
  {
    if |ps| > 0 {
      UpdateMissingPlace(ps[1..], id, u, withGedcom);
      assert ps == [ps[0]] + ps[1..];
    }
  }

  /** Partner of `UpdatePlace`: the returned place is what a later `getById`
      sees, and no other place changes. */
  lemma UpdatePlaceReadsBack(db: Db, id: nat, u: PlaceUpdate, withGedcom: bool, q: nat)
    ensures var r := UpdatePlace(db, id, u, withGedcom);
      (r.1.Success? ==> FindPlace(r.0.places, id) == Some(r.1.value))
      && (q != id ==> FindPlace(r.0.places, q) == FindPlace(db.places, q))
  {
    FindPlaceAfterUpdate(db.places, id, u, withGedcom, q);
    FindPlaceAfterUpdate(db.places, id, u, withGedcom, id);
  }

  /** The two library versions of `update` differ only in `gedcomId`: the
      older one behaves as the newer one given the update without it. */
  lemma LegacyUpdateDropsGedcom(db: Db, id: nat, u: PlaceUpdate)
    ensures UpdatePlace(db, id, u, false) == UpdatePlace(db, id, u.(gedcomId := None), true)
  {
    var u' := u.(gedcomId := None);
    assert Writes(u, false) == Writes(u', true);
    assert forall p :: ApplyPlaceUpdate(p, u, false) == ApplyPlaceUpdate(p, u', true);
    assert UpdatePlaceRows(db.places, id, u, false) == UpdatePlaceRows(db.places, id, u', true) by {
      SameRows(db.places, id, u, u');
    }
  }

  lemma {:induction false} SameRows(ps: seq<PlaceRow>, id: nat, u: PlaceUpdate, u': PlaceUpdate)
    requires forall p :: ApplyPlaceUpdate(p, u, false) == ApplyPlaceUpdate(p, u', true)
    ensures UpdatePlaceRows(ps, id, u, false) == UpdatePlaceRows(ps, id, u', true)
    decreases |ps|
  {
    if |ps| > 0 {
      SameRows(ps[1..], id, u, u');
    }
  }

  /** `SELECT COUNT(*) FROM places WHERE parent_id = ?`. */
  function ChildCount(ps: seq<PlaceRow>, parent: nat): (n: nat)
    ensures n <= |ps|
    ensures n == 0 <==> forall i :: 0 <= i < |ps| ==> ps[i].parentId != Some(parent)
  {
    if |ps| == 0 then 0
    else
      assert forall i :: 1 <= i < |ps| ==> ps[i] == ps[1..][i - 1];
      (if ps[0].parentId == Some(parent) then 1 else 0) + ChildCount(ps[1..], parent)
  }

  /** `places.getChildrenCount`: the count row's value, or 0 without one. */
  function GetChildrenCount(db: Db, parent: nat): (n: nat)
    ensures n <= |db.places|
    ensures n == 0 <==> forall i :: 0 <= i < |db.places| ==> db.places[i].parentId != Some(parent)
  {
    Seeding.CountOrZero([ChildCount(db.places, parent)])
  }

  function PlaceName(p: PlaceRow): string { p.name }

  /** `places.getAll`: `ORDER BY name`. */
  function GetAll(db: Db): (r: seq<PlaceRow>)
    ensures multiset(r) == multiset(db.places)
    ensures forall i, j :: 0 <= i < j < |r| ==> LexLe(r[i].name, r[j].name)
  {
    Sorting.SortByKey(db.places, PlaceName)
  }

  /** `map.get` on a `Map` filled by `set` in list order: the last entry
      with the key wins. */
  function LastWith<T, K(==)>(ts: seq<T>, key: T -> K, k: K): (r: Option<T>)
    ensures r.Some? ==> r.value in ts && key(r.value) == k
    ensures r.None? <==> forall i :: 0 <= i < |ts| ==> key(ts[i]) != k
  {
    if |ts| == 0 then None
    else
      var last := ts[|ts| - 1];
      if key(last) == k then Some(last)
      else
        assert forall i :: 0 <= i < |ts| - 1 ==> ts[i] == ts[..|ts| - 1][i];
        LastWith(ts[..|ts| - 1], key, k)
  }

  /** The `map` step of `getAllWithTypes`: each place paired with its type,
      or the error for the first place whose type is missing. */
  function PairAll<P, T, K(==)>(ps: seq<P>, ts: seq<T>, typeOf: P -> K, key: T -> K, missing: P -> string)
    : (r: Result<seq<(P, T)>>)
    ensures r.Success? <==> forall i :: 0 <= i < |ps| ==> LastWith(ts, key, typeOf(ps[i])).Some?
    ensures r.Success? ==> |r.value| == |ps|
    ensures r.Success? ==> forall i :: 0 <= i < |ps| ==>
              r.value[i].0 == ps[i] && r.value[i].1 in ts && key(r.value[i].1) == typeOf(ps[i])
    ensures r.Failure? ==> exists i :: (0 <= i < |ps| && LastWith(ts, key, typeOf(ps[i])).None?
              && (forall j :: 0 <= j < i ==> LastWith(ts, key, typeOf(ps[j])).Some?)
              && r.error == missing(ps[i]))
  {
    if |ps| == 0 then Success([])
    else
      match LastWith(ts, key, typeOf(ps[0]))
      case None => Failure(missing(ps[0]))
      case Some(t) =>
        assert forall i :: 1 <= i < |ps| ==> ps[i] == ps[1..][i - 1];
        match PairAll(ps[1..], ts, typeOf, key, missing)
        case Failure(e) =>
          var i :| 0 <= i < |ps[1..]| && LastWith(ts, key, typeOf(ps[1..][i])).None?
                   && (forall j :: 0 <= j < i ==> LastWith(ts, key, typeOf(ps[1..][j])).Some?)
                   && e == missing(ps[1..][i]);
          assert forall j :: 0 <= j < i + 1 ==> LastWith(ts, key, typeOf(ps[j])).Some?;
          Failure(e)
        case Success(rest) => Success([(ps[0], t)] + rest)
  }

  /** The `map` and `sort` of `getAllWithTypes`: every place paired with
      its type, or the error for the first place without one; the pairs
      sorted by place name. */
  function Join<P(!new), T(!new), K(==)>(ps: seq<P>, ts: seq<T>, typeOf: P -> K, key: T -> K,
                                         missing: P -> string, name: P -> string)
    : (r: Result<seq<(P, T)>>)
    ensures r.Success? <==> forall i :: 0 <= i < |ps| ==> LastWith(ts, key, typeOf(ps[i])).Some?
    ensures r.Success? ==> |r.value| == |ps|
    ensures r.Success? ==> forall w :: w in r.value ==> w.0 in ps && w.1 in ts && key(w.1) == typeOf(w.0)
    ensures r.Success? ==> forall p :: p in ps ==> exists i :: 0 <= i < |r.value| && r.value[i].0 == p
    ensures r.Success? ==> forall i, j :: 0 <= i < j < |r.value| ==> LexLe(name(r.value[i].0), name(r.value[j].0))
    ensures r.Failure? ==> exists p :: p in ps && LastWith(ts, key, typeOf(p)).None? && r.error == missing(p)
  {
    match PairAll(ps, ts, typeOf, key, missing)
    case Failure(e) => Failure(e)
    case Success(pairs) =>
      var sorted := Sorting.SortByKey(pairs, (w: (P, T)) => name(w.0));
      Sorting.SameMembers(sorted, pairs);
      assert |sorted| == |pairs| by {
        assert |multiset(sorted)| == |multiset(pairs)|;
      }
      assert forall p :: p in ps ==> exists i :: 0 <= i < |sorted| && sorted[i].0 == p by {
        forall p | p in ps
          ensures exists i :: 0 <= i < |sorted| && sorted[i].0 == p
        {
          var k :| 0 <= k < |ps| && ps[k] == p;
          assert pairs[k] in sorted;
          var i :| 0 <= i < |sorted| && sorted[i] == pairs[k];
        }
      }
      Success(sorted)
  }

  /** A place with its type, as `getAllWithTypes` returns it. */
  type PlaceWithType = (PlaceRow, ListedType)

  function PlaceTypeId(p: PlaceRow): nat { p.typeId }
  function ListedId(t: ListedType): nat { t.row.id }
  function MissingType(p: PlaceRow): string {
    "Place type with id " + NatToString(p.typeId) + " not found for place " + p.name
  }

  /** `places.getAllWithTypes`: both lists are read, each place is paired
      with the type of its `type_id`, and the pairs are sorted by name. */
  function GetAllWithTypes(db: Db, schema: Io): (r: (Db, Result<seq<PlaceWithType>>))
    ensures r.0 == GetPlaceTypes(db, schema).0
    ensures r.0.places == db.places
    ensures r.1.Success? ==> |r.1.value| == |db.places|
    ensures r.1.Success? ==> forall w :: w in r.1.value ==>
              w.0 in db.places && w.1.row.id == w.0.typeId && w.1.row in r.0.types
    ensures r.1.Success? ==> forall p :: p in db.places ==> exists i :: 0 <= i < |r.1.value| && r.1.value[i].0 == p
    ensures r.1.Success? ==> forall i, j :: 0 <= i < j < |r.1.value| ==> LexLe(r.1.value[i].0.name, r.1.value[j].0.name)
    ensures GetPlaceTypes(db, schema).1.Success? ==>
              (r.1.Success? <==> forall i :: 0 <= i < |db.places| ==> FindType(r.0.types, db.places[i].typeId).Some?)
    ensures r.1.Failure? && GetPlaceTypes(db, schema).1.Success? ==>
              exists p :: p in db.places && FindType(r.0.types, p.typeId).None? && r.1.error == MissingType(p)
  {
    var (db', listed) := GetPlaceTypes(db, schema);
    if listed.Failure? then (db', Failure(listed.error))
    else
      var ps := GetAll(db);
      JoinAgainstStore(ps, listed.value, db'.types, db.places);
      (db', Join(ps, listed.value, PlaceTypeId, ListedId, MissingType, PlaceName))
  }

  /** `Join` over a listing of the stored types, stated in terms of the store. */
  lemma JoinAgainstStore(ps: seq<PlaceRow>, listed: seq<ListedType>, ts: seq<PlaceTypeRow>, places: seq<PlaceRow>)
    requires forall i :: 0 <= i < |listed| ==> listed[i].row in ts
    requires forall t :: t in ts ==> exists i :: 0 <= i < |listed| && listed[i].row == t
    requires multiset(ps) == multiset(places)
    ensures var r := Join(ps, listed, PlaceTypeId, ListedId, MissingType, PlaceName);
      (r.Success? <==> forall i :: 0 <= i < |places| ==> FindType(ts, places[i].typeId).Some?)
      && (r.Success? ==> |r.value| == |places|)
      && (r.Success? ==> forall w :: w in r.value ==>
            w.0 in places && w.1.row.id == w.0.typeId && w.1.row in ts)
      && (r.Success? ==> forall p :: p in places ==> exists i :: 0 <= i < |r.value| && r.value[i].0 == p)
      && (r.Failure? ==> exists p :: p in places && FindType(ts, p.typeId).None? && r.error == MissingType(p))
  {
    Sorting.SameMembers(ps, places);
    assert |ps| == |places| by {
      assert |multiset(ps)| == |multiset(places)|;
    }
    ListedCoversTypes(listed, ts);
    assert forall i :: 0 <= i < |places| ==> places[i] in ps;
    assert forall i :: 0 <= i < |ps| ==> ps[i] in places;
  }


  /** The listed types are exactly the stored rows, by id. */
  lemma ListedCoversTypes(listed: seq<ListedType>, ts: seq<PlaceTypeRow>)
    requires forall i :: 0 <= i < |listed| ==> listed[i].row in ts
    requires forall t :: t in ts ==> exists i :: 0 <= i < |listed| && listed[i].row == t
    ensures forall k :: LastWith(listed, ListedId, k).Some? <==> FindType(ts, k).Some?
  {
    forall k
      ensures LastWith(listed, ListedId, k).Some? <==> FindType(ts, k).Some?
    {
      if FindType(ts, k).Some? {
        var i :| 0 <= i < |listed| && listed[i].row == FindType(ts, k).value;
        assert ListedId(listed[i]) == k;
      }
      if LastWith(listed, ListedId, k).Some? {
        var t := LastWith(listed, ListedId, k).value;
        assert t.row in ts && t.row.id == k;
      }
    }
  }
}
