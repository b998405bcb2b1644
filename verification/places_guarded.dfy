/** The guarded place reads of `src/lib/places/index.ts`: every row a query
    returns is checked with the type guards of `PlaceRows` before it is
    converted, and rows that fail are dropped. `update` is
    `PlaceDb.UpdatePlace` with `gedcomId` written. */
module PlacesGuarded {
  import opened Wrappers
  import opened Text
  import opened PlaceRows
  import PlaceDb
  import Migrations
  import Sorting

  /** `.filter(isRawPlaceRow).map(rawPlaceToPlace)`. */
  function GuardedPlaces(rows: seq<Json>): (r: seq<Place>)
    ensures |r| <= |rows|
    ensures forall x :: x in r <==> exists v :: v in rows && IsRawPlaceRow(v) && x == RawPlaceToPlace(v)
  {
    if |rows| == 0 then []
    else
      assert rows == [rows[0]] + rows[1..];
      (if IsRawPlaceRow(rows[0]) then [RawPlaceToPlace(rows[0])] else []) + GuardedPlaces(rows[1..])
  }

  /** `.filter(isRawPlaceTypeRow).map(rawPlaceTypeToPlaceType)`. */
  function GuardedTypes(rows: seq<Json>): (r: seq<PlaceType>)
    ensures |r| <= |rows|
    ensures forall x :: x in r <==> exists v :: v in rows && IsRawPlaceTypeRow(v) && x == RawPlaceTypeToPlaceType(v)
  {
    if |rows| == 0 then []
    else
      assert rows == [rows[0]] + rows[1..];
      (if IsRawPlaceTypeRow(rows[0]) then [RawPlaceTypeToPlaceType(rows[0])] else []) + GuardedTypes(rows[1..])
  }

  /** A malformed row adds nothing wherever it appears. */
  lemma {:induction false} MalformedRowDropped(a: seq<Json>, v: Json, b: seq<Json>)
    requires !IsRawPlaceRow(v)
    ensures GuardedPlaces(a + [v] + b) == GuardedPlaces(a + b)
    decreases |a|
  {
    if |a| == 0 {
      assert a + [v] + b == [v] + b && a + b == b;
      assert ([v] + b)[0] == v && ([v] + b)[1..] == b;
    } else {
      MalformedRowDropped(a[1..], v, b);
      assert (a + [v] + b)[0] == a[0] && (a + [v] + b)[1..] == a[1..] + [v] + b;
      assert (a + b)[0] == a[0] && (a + b)[1..] == a[1..] + b;
    }
  }

  /** What a place query returns for stored rows. */
  function Encoded(ps: seq<PlaceDb.PlaceRow>): (r: seq<Json>)
    ensures |r| == |ps|
    ensures forall i :: 0 <= i < |ps| ==> r[i] == EncodePlace(ps[i])
  {
    seq(|ps|, i requires 0 <= i < |ps| => EncodePlace(ps[i]))
  }

  /** On rows the store returns the guard drops nothing: every row is
      converted, in order, and each reads back as the stored place. */
  lemma {:induction false} StoredRowsKept(ps: seq<PlaceDb.PlaceRow>)
    ensures |GuardedPlaces(Encoded(ps))| == |ps|
    ensures forall i :: 0 <= i < |ps| ==>
              GuardedPlaces(Encoded(ps))[i] == AsPlace(ps[i]) && DecodePlace(GuardedPlaces(Encoded(ps))[i]) == Some(ps[i])
    decreases |ps|
  {
    if |ps| > 0 {
      StoredRowsKept(ps[1..]);
      PlaceRowRoundTrip(ps[0]);
      assert Encoded(ps)[1..] == Encoded(ps[1..]);
      assert GuardedPlaces(Encoded(ps)) == [AsPlace(ps[0])] + GuardedPlaces(Encoded(ps[1..]));
      forall i | 0 <= i < |ps|
        ensures GuardedPlaces(Encoded(ps))[i] == AsPlace(ps[i]) && DecodePlace(GuardedPlaces(Encoded(ps))[i]) == Some(ps[i])
      {
        PlaceRowRoundTrip(ps[i]);
        if i > 0 {
          assert ps[i] == ps[1..][i - 1];
        }
      }
    }
  }

  /** `places.getAll`: the guarded rows of `SELECT * FROM places ORDER BY name`. */
  function GetAll(rows: seq<Json>): (r: seq<Place>)
    ensures forall x :: x in r <==> exists v :: v in rows && IsRawPlaceRow(v) && x == RawPlaceToPlace(v)
  {
    GuardedPlaces(rows)
  }

  /** `places.getById`: `null` for a missing or malformed first row. */
  function GetById(rows: seq<Json>): (r: Option<Place>)
    ensures r.None? <==> |rows| == 0 || !IsRawPlaceRow(rows[0])
    ensures r.Some? ==> r.value == RawPlaceToPlace(rows[0])
  {
    if |rows| == 0 || !IsRawPlaceRow(rows[0]) then None else Some(RawPlaceToPlace(rows[0]))
  }

  /** `SELECT * FROM places WHERE id = ?` against the store. */
  function SelectPlace(ps: seq<PlaceDb.PlaceRow>, id: nat): (r: seq<PlaceDb.PlaceRow>)
    ensures |r| == 0 <==> PlaceDb.FindPlace(ps, id).None?
    ensures |r| > 0 ==> r[0] == PlaceDb.FindPlace(ps, id).value
  {
    if |ps| == 0 then []
    else if ps[0].id == id then [ps[0]] + SelectPlace(ps[1..], id)
    else SelectPlace(ps[1..], id)
  }

  /** Partner of `GetById`: against the store it finds exactly the stored place. */
  lemma GetByIdFindsStored(ps: seq<PlaceDb.PlaceRow>, id: nat)
    ensures var r := GetById(Encoded(SelectPlace(ps, id)));
      (r.None? <==> PlaceDb.FindPlace(ps, id).None?)
      && (r.Some? ==> r.value == AsPlace(PlaceDb.FindPlace(ps, id).value)
                      && DecodePlace(r.value) == Some(PlaceDb.FindPlace(ps, id).value))
  {
    var sel := SelectPlace(ps, id);
    if |sel| > 0 {
      PlaceRowRoundTrip(sel[0]);
    }
  }

  /** `places.getPlaceType`: a missing or malformed row is an error. */
  function GetPlaceType(rows: seq<Json>, id: nat): (r: Result<PlaceType>)
    ensures r.Failure? <==> |rows| == 0 || !IsRawPlaceTypeRow(rows[0])
    ensures r.Failure? ==> r.error == "Place type with id " + NatToString(id) + " not found or invalid data structure"
    ensures r.Success? ==> r.value == RawPlaceTypeToPlaceType(rows[0])
  {
    if |rows| == 0 || !IsRawPlaceTypeRow(rows[0]) then
      Failure("Place type with id " + NatToString(id) + " not found or invalid data structure")
    else Success(RawPlaceTypeToPlaceType(rows[0]))
  }

  /** What a place-type query returns for stored rows, each created at `at(t)`. */
  function EncodedTypes(ts: seq<Migrations.PlaceTypeRow>, at: Migrations.PlaceTypeRow -> int): (r: seq<Json>)
    ensures |r| == |ts|
    ensures forall i :: 0 <= i < |ts| ==> r[i] == EncodeType(ts[i], at(ts[i]))
  {
    seq(|ts|, i requires 0 <= i < |ts| => EncodeType(ts[i], at(ts[i])))
  }

  lemma {:induction false} StoredTypesKept(ts: seq<Migrations.PlaceTypeRow>, at: Migrations.PlaceTypeRow -> int)
    ensures |GuardedTypes(EncodedTypes(ts, at))| == |ts|
    ensures forall i :: 0 <= i < |ts| ==>
              DecodeType(GuardedTypes(EncodedTypes(ts, at))[i]) == Some((ts[i], at(ts[i])))
    decreases |ts|
  {
    if |ts| > 0 {
      StoredTypesKept(ts[1..], at);
      PlaceTypeRowRoundTrip(ts[0], at(ts[0]));
      assert EncodedTypes(ts, at)[1..] == EncodedTypes(ts[1..], at);
      assert GuardedTypes(EncodedTypes(ts, at))
          == [RawPlaceTypeToPlaceType(EncodeType(ts[0], at(ts[0])))] + GuardedTypes(EncodedTypes(ts[1..], at));
      forall i | 1 <= i < |ts|
        ensures DecodeType(GuardedTypes(EncodedTypes(ts, at))[i]) == Some((ts[i], at(ts[i])))
      {
        assert ts[i] == ts[1..][i - 1];
      }
    }
  }

  /** The guarded rows of `SELECT * FROM place_types ORDER BY name`: one
      per stored type, each decoding to a stored type, by name. */
  function TypeListing(ts: seq<Migrations.PlaceTypeRow>, at: Migrations.PlaceTypeRow -> int): (r: seq<PlaceType>)
    ensures |r| == |ts|
    ensures forall i :: 0 <= i < |r| ==> DecodeType(r[i]).Some? && DecodeType(r[i]).value.0 in ts
    ensures forall t :: t in ts ==> exists i :: 0 <= i < |r| && DecodeType(r[i]).value.0 == t
    ensures forall i, j :: 0 <= i < j < |r| ==> LexLe(r[i].name, r[j].name)
  {
    var sorted := PlaceDb.ByName(ts);
    ListingOfSorted(sorted, at);
    ListingCoversStored(ts, at);
    GuardedTypes(EncodedTypes(sorted, at))
  }

  /** The guarded rows of a sorted listing follow it row by row. */
  lemma ListingOfSorted(sorted: seq<Migrations.PlaceTypeRow>, at: Migrations.PlaceTypeRow -> int)
    requires forall i, j :: 0 <= i < j < |sorted| ==> LexLe(sorted[i].name, sorted[j].name)
    ensures var r := GuardedTypes(EncodedTypes(sorted, at));
      && |r| == |sorted|
      && (forall i :: 0 <= i < |r| ==> DecodeType(r[i]) == Some((sorted[i], at(sorted[i]))))
      && (forall i, j :: 0 <= i < j < |r| ==> LexLe(r[i].name, r[j].name))
  {
    var r := GuardedTypes(EncodedTypes(sorted, at));
    StoredTypesKept(sorted, at);
    forall i | 0 <= i < |r|
      ensures r[i].name == sorted[i].name
    {
      assert DecodeType(r[i]) == Some((sorted[i], at(sorted[i])));
    }
  }

  /** Every stored type has its row in the listing, and every row is of a
      stored type. */
  lemma ListingCoversStored(ts: seq<Migrations.PlaceTypeRow>, at: Migrations.PlaceTypeRow -> int)
    ensures var sorted := PlaceDb.ByName(ts);
      var r := GuardedTypes(EncodedTypes(sorted, at));
      && |r| == |ts|
      && (forall i :: 0 <= i < |r| ==> DecodeType(r[i]).Some? && DecodeType(r[i]).value.0 in ts)
      && (forall t :: t in ts ==> exists i :: 0 <= i < |r| && DecodeType(r[i]).value.0 == t)
  {
    var sorted := PlaceDb.ByName(ts);
    Sorting.SameMembers(sorted, ts);
    assert |sorted| == |ts| by {
      assert |multiset(sorted)| == |multiset(ts)|;
    }
    StoredTypesKept(sorted, at);
    var r := GuardedTypes(EncodedTypes(sorted, at));
    forall t | t in ts
      ensures exists i :: 0 <= i < |r| && DecodeType(r[i]).value.0 == t
    {
      var i :| 0 <= i < |sorted| && sorted[i] == t;
      assert DecodeType(r[i]).value.0 == t;
    }
  }

  /** `places.getPlaceTypes`: the guarded rows by name; an empty table is
      initialised first (`schema` is the outcome) and read again. Unlike
      `PlaceDb.GetPlaceTypes`, both paths coerce `is_system`. */
  function GetPlaceTypes(db: PlaceDb.Db, schema: Io, at: Migrations.PlaceTypeRow -> int)
    : (r: (PlaceDb.Db, Result<seq<PlaceType>>))
    ensures r.0 == PlaceDb.GetPlaceTypes(db, schema).0
    ensures r.1.Success? <==> PlaceDb.GetPlaceTypes(db, schema).1.Success?
    ensures r.1.Failure? ==> r.1.error == schema.msg
    ensures r.1.Success? ==> |r.1.value| == |r.0.types|
    ensures r.1.Success? ==> forall i :: 0 <= i < |r.1.value| ==>
              DecodeType(r.1.value[i]).Some? && DecodeType(r.1.value[i]).value.0 in r.0.types
    ensures r.1.Success? ==> forall t :: t in r.0.types ==>
              exists i :: 0 <= i < |r.1.value| && DecodeType(r.1.value[i]).value.0 == t
    ensures r.1.Success? ==> forall i, j :: 0 <= i < j < |r.1.value| ==> LexLe(r.1.value[i].name, r.1.value[j].name)
  {
    var (db', plain) := PlaceDb.GetPlaceTypes(db, schema);
    if plain.Failure? then (db', Failure(schema.msg))
    else (db', Success(TypeListing(db'.types, at)))
  }

  /** `places.getChildrenCount`: the first row's `count` when it is an
      object holding one, otherwise 0; the value is not type-checked. */
  function GetChildrenCount(rows: seq<Json>): (r: Json)
    ensures |rows| == 0 || !HasProperty(rows[0], "count") ==> r == Num(0)
    ensures |rows| > 0 && HasProperty(rows[0], "count") ==> r == rows[0].fields["count"]
  {
    if |rows| == 0 || !HasProperty(rows[0], "count") then Num(0) else rows[0].fields["count"]
  }

  /** Partner of `GetChildrenCount`: on the count row the store returns it is
      the number of children. */
  lemma ChildrenCountFromStore(db: PlaceDb.Db, parent: nat)
    ensures GetChildrenCount([Obj(map["count" := Num(PlaceDb.ChildCount(db.places, parent))])])
         == Num(PlaceDb.GetChildrenCount(db, parent))
  {
  }

  function TypeIdOf(p: Place): int { p.typeId }
  function IdOf(t: PlaceType): int { t.id }
  function NameOf(p: Place): string { p.name }
  function MissingType(p: Place): string {
    "Place type with id " + IntToString(p.typeId) + " not found for place " + p.name
  }

  /** The join of the stored places, read through the guard, with a
      guarded listing of the stored types `ts`. */
  function JoinStored(stored: seq<PlaceDb.PlaceRow>, listed: seq<PlaceType>, ts: seq<Migrations.PlaceTypeRow>)
    : (r: Result<seq<(Place, PlaceType)>>)
    requires forall i :: 0 <= i < |listed| ==> DecodeType(listed[i]).Some? && DecodeType(listed[i]).value.0 in ts
    requires forall t :: t in ts ==> exists i :: 0 <= i < |listed| && DecodeType(listed[i]).value.0 == t
    ensures r.Success? <==> forall i :: 0 <= i < |stored| ==> PlaceDb.FindType(ts, stored[i].typeId).Some?
    ensures r.Success? ==> |r.value| == |stored|
    ensures r.Success? ==> forall w :: w in r.value ==>
              w.1.id == w.0.typeId && w.1 in listed
              && DecodePlace(w.0).Some? && DecodePlace(w.0).value in stored
    ensures r.Success? ==> forall p :: p in stored ==> exists i :: 0 <= i < |r.value| && r.value[i].0 == AsPlace(p)
    ensures r.Success? ==> forall i, j :: 0 <= i < j < |r.value| ==> LexLe(r.value[i].0.name, r.value[j].0.name)
    ensures r.Failure? ==> exists p :: p in stored && PlaceDb.FindType(ts, p.typeId).None? && r.error == MissingType(AsPlace(p))
  {
    var ps := GetAll(Encoded(stored));
    var r := PlaceDb.Join(ps, listed, TypeIdOf, IdOf, MissingType, NameOf);
    GuardedStoredRows(stored, ps);
    JoinStoredSucceeds(stored, ps, listed, ts, r);
    JoinStoredPairs(stored, ps, listed, r);
    JoinStoredCovers(stored, ps, listed, r);
    JoinStoredFails(stored, ps, listed, ts, r);
    r
  }

  lemma JoinStoredSucceeds(stored: seq<PlaceDb.PlaceRow>, ps: seq<Place>, listed: seq<PlaceType>,
                           ts: seq<Migrations.PlaceTypeRow>, r: Result<seq<(Place, PlaceType)>>)
    requires forall i :: 0 <= i < |listed| ==> DecodeType(listed[i]).Some? && DecodeType(listed[i]).value.0 in ts
    requires forall t :: t in ts ==> exists i :: 0 <= i < |listed| && DecodeType(listed[i]).value.0 == t
    requires |ps| == |stored| && forall i :: 0 <= i < |ps| ==> ps[i] == AsPlace(stored[i])
    requires r == PlaceDb.Join(ps, listed, TypeIdOf, IdOf, MissingType, NameOf)
    ensures r.Success? <==> forall i :: 0 <= i < |stored| ==> PlaceDb.FindType(ts, stored[i].typeId).Some?
  {
    forall i | 0 <= i < |ps|
      ensures ps[i].typeId == stored[i].typeId
    {
      PlaceRowRoundTrip(stored[i]);
    }
    TypesFound(listed, ts, ps, stored);
  }

  lemma JoinStoredPairs(stored: seq<PlaceDb.PlaceRow>, ps: seq<Place>, listed: seq<PlaceType>,
                        r: Result<seq<(Place, PlaceType)>>)
    requires |ps| == |stored|
    requires forall x :: x in ps ==> DecodePlace(x).Some? && DecodePlace(x).value in stored
    requires r == PlaceDb.Join(ps, listed, TypeIdOf, IdOf, MissingType, NameOf)
    ensures r.Success? ==> |r.value| == |stored|
    ensures r.Success? ==> forall w :: w in r.value ==>
              w.1.id == w.0.typeId && w.1 in listed
              && DecodePlace(w.0).Some? && DecodePlace(w.0).value in stored
    ensures r.Success? ==> forall i, j :: 0 <= i < j < |r.value| ==> LexLe(r.value[i].0.name, r.value[j].0.name)
  {
    if r.Success? {
      assert forall w :: w in r.value ==> IdOf(w.1) == TypeIdOf(w.0);
      assert forall i, j :: 0 <= i < j < |r.value| ==> LexLe(NameOf(r.value[i].0), NameOf(r.value[j].0));
    }
  }

  lemma JoinStoredCovers(stored: seq<PlaceDb.PlaceRow>, ps: seq<Place>, listed: seq<PlaceType>,
                         r: Result<seq<(Place, PlaceType)>>)
    requires forall p :: p in stored ==> AsPlace(p) in ps
    requires r == PlaceDb.Join(ps, listed, TypeIdOf, IdOf, MissingType, NameOf)
    ensures r.Success? ==> forall p :: p in stored ==> exists i :: 0 <= i < |r.value| && r.value[i].0 == AsPlace(p)
  {
    if r.Success? {
      forall p | p in stored
        ensures exists i :: 0 <= i < |r.value| && r.value[i].0 == AsPlace(p)
      {
        var x := AsPlace(p);
        assert x in ps;
        var i :| 0 <= i < |r.value| && r.value[i].0 == x;
      }
    }
  }

  lemma JoinStoredFails(stored: seq<PlaceDb.PlaceRow>, ps: seq<Place>, listed: seq<PlaceType>,
                        ts: seq<Migrations.PlaceTypeRow>, r: Result<seq<(Place, PlaceType)>>)
    requires forall i :: 0 <= i < |listed| ==> DecodeType(listed[i]).Some? && DecodeType(listed[i]).value.0 in ts
    requires forall t :: t in ts ==> exists i :: 0 <= i < |listed| && DecodeType(listed[i]).value.0 == t
    requires |ps| == |stored| && forall i :: 0 <= i < |ps| ==> ps[i] == AsPlace(stored[i])
    requires r == PlaceDb.Join(ps, listed, TypeIdOf, IdOf, MissingType, NameOf)
    ensures r.Failure? ==> exists p :: p in stored && PlaceDb.FindType(ts, p.typeId).None? && r.error == MissingType(AsPlace(p))
  {
    if r.Failure? {
      var p :| p in ps && PlaceDb.LastWith(listed, IdOf, TypeIdOf(p)).None? && r.error == MissingType(p);
      var i :| 0 <= i < |ps| && ps[i] == p;
      PlaceRowRoundTrip(stored[i]);
      TypeFoundById(listed, ts, stored[i].typeId);
      assert stored[i] in stored;
    }
  }

  /** The guarded rows of stored places: one per stored place, in order,
      each decoding to it. */
  lemma GuardedStoredRows(stored: seq<PlaceDb.PlaceRow>, ps: seq<Place>)
    requires ps == GetAll(Encoded(stored))
    ensures |ps| == |stored|
    ensures forall i :: 0 <= i < |ps| ==> ps[i] == AsPlace(stored[i]) && DecodePlace(ps[i]) == Some(stored[i])
    ensures forall x :: x in ps ==> DecodePlace(x).Some? && DecodePlace(x).value in stored
    ensures forall p :: p in stored ==> AsPlace(p) in ps
  {
    StoredRowsKept(stored);
    forall p | p in stored
      ensures AsPlace(p) in ps
    {
      var i :| 0 <= i < |stored| && stored[i] == p;
      assert ps[i] == AsPlace(p);
    }
  }

  /** `places.getAllWithTypes`: the guarded places and guarded types joined
      on `typeId`, sorted by name. */
  function GetAllWithTypes(db: PlaceDb.Db, schema: Io, at: Migrations.PlaceTypeRow -> int)
    : (r: (PlaceDb.Db, Result<seq<(Place, PlaceType)>>))
    ensures r.0 == PlaceDb.GetPlaceTypes(db, schema).0
    ensures GetPlaceTypes(db, schema, at).1.Failure? ==> r.1 == Failure(schema.msg)
    ensures r.1.Success? ==> |r.1.value| == |db.places|
    ensures r.1.Success? ==> forall w :: w in r.1.value ==>
              w.1.id == w.0.typeId && DecodeType(w.1).Some? && DecodeType(w.1).value.0 in r.0.types
              && DecodePlace(w.0).Some? && DecodePlace(w.0).value in db.places
    ensures r.1.Success? ==> forall p :: p in db.places ==> exists i :: 0 <= i < |r.1.value| && r.1.value[i].0 == AsPlace(p)
    ensures r.1.Success? ==> forall i, j :: 0 <= i < j < |r.1.value| ==> LexLe(r.1.value[i].0.name, r.1.value[j].0.name)
    ensures GetPlaceTypes(db, schema, at).1.Success? ==>
              (r.1.Success? <==> forall i :: 0 <= i < |db.places| ==> PlaceDb.FindType(r.0.types, db.places[i].typeId).Some?)
    ensures r.1.Failure? && GetPlaceTypes(db, schema, at).1.Success? ==>
              exists p :: p in db.places && PlaceDb.FindType(r.0.types, p.typeId).None? && r.1.error == MissingType(AsPlace(p))
  {
    var (db', types) := GetPlaceTypes(db, schema, at);
    if types.Failure? then (db', Failure(types.error))
    else
      var sorted := PlaceDb.GetAll(db);
      Sorting.SameMembers(sorted, db.places);
      assert |sorted| == |db.places| by {
        assert |multiset(sorted)| == |multiset(db.places)|;
      }
      var joined := JoinStored(sorted, types.value, db'.types);
      TypesFoundInReorder(sorted, db.places, db'.types);
      (db', joined)
  }

  /** Whether every place's type is stored does not depend on the order
      of the places. */
  lemma TypesFoundInReorder(a: seq<PlaceDb.PlaceRow>, b: seq<PlaceDb.PlaceRow>, ts: seq<Migrations.PlaceTypeRow>)
    requires forall x :: x in a <==> x in b
    ensures (forall i :: 0 <= i < |a| ==> PlaceDb.FindType(ts, a[i].typeId).Some?)
        <==> (forall i :: 0 <= i < |b| ==> PlaceDb.FindType(ts, b[i].typeId).Some?)
  {
    if forall i :: 0 <= i < |a| ==> PlaceDb.FindType(ts, a[i].typeId).Some? {
      forall i | 0 <= i < |b|
        ensures PlaceDb.FindType(ts, b[i].typeId).Some?
      {
        assert b[i] in a;
        var j :| 0 <= j < |a| && a[j] == b[i];
      }
    }
    if forall i :: 0 <= i < |b| ==> PlaceDb.FindType(ts, b[i].typeId).Some? {
      forall i | 0 <= i < |a|
        ensures PlaceDb.FindType(ts, a[i].typeId).Some?
      {
        assert a[i] in b;
        var j :| 0 <= j < |b| && b[j] == a[i];
      }
    }
  }

  /** A guarded listing of the stored types has a type with id `k`
      exactly when the store has one. */
  lemma TypeFoundById(listed: seq<PlaceType>, ts: seq<Migrations.PlaceTypeRow>, k: nat)
    requires forall i :: 0 <= i < |listed| ==> DecodeType(listed[i]).Some? && DecodeType(listed[i]).value.0 in ts
    requires forall t :: t in ts ==> exists i :: 0 <= i < |listed| && DecodeType(listed[i]).value.0 == t
    ensures PlaceDb.LastWith(listed, IdOf, k).Some? <==> PlaceDb.FindType(ts, k).Some?
  {
    if PlaceDb.FindType(ts, k).Some? {
      var t := PlaceDb.FindType(ts, k).value;
      var j :| 0 <= j < |listed| && DecodeType(listed[j]).value.0 == t;
      assert IdOf(listed[j]) == k;
    }
    if PlaceDb.LastWith(listed, IdOf, k).Some? {
      var l := PlaceDb.LastWith(listed, IdOf, k).value;
      var j :| 0 <= j < |listed| && listed[j] == l;
      assert DecodeType(listed[j]).value.0.id == k;
    }
  }

  /** Every place's type is in the guarded listing exactly when the store
      has every place's type. */
  lemma TypesFound(listed: seq<PlaceType>, ts: seq<Migrations.PlaceTypeRow>, ps: seq<Place>, stored: seq<PlaceDb.PlaceRow>)
    requires forall i :: 0 <= i < |listed| ==> DecodeType(listed[i]).Some? && DecodeType(listed[i]).value.0 in ts
    requires forall t :: t in ts ==> exists i :: 0 <= i < |listed| && DecodeType(listed[i]).value.0 == t
    requires |ps| == |stored|
    requires forall i :: 0 <= i < |ps| ==> ps[i].typeId == stored[i].typeId
    ensures (forall i :: 0 <= i < |ps| ==> PlaceDb.LastWith(listed, IdOf, TypeIdOf(ps[i])).Some?)
        <==> (forall i :: 0 <= i < |stored| ==> PlaceDb.FindType(ts, stored[i].typeId).Some?)
  {
    forall i | 0 <= i < |ps|
      ensures PlaceDb.LastWith(listed, IdOf, TypeIdOf(ps[i])).Some? <==> PlaceDb.FindType(ts, stored[i].typeId).Some?
    {
      TypeFoundById(listed, ts, stored[i].typeId);
    }
  }
}
