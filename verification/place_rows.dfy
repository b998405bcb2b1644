/** Runtime validation of rows read back from SQLite (`src/lib/db/types.ts`):
    the guards that decide whether an untyped value is a place row, a
    place-type row or a count row, and the conversions to typed records. */
module PlaceRows {
  import opened Wrappers
  import opened Text
  import PlaceDb
  import Migrations

  /** A JavaScript value as a query hands it back. Numbers are integers
      (see README). */
  datatype Json = Undefined | Null | Bool(b: bool) | Num(n: int) | Str(s: string) | Obj(fields: map<string, Json>)

  /** `key in obj` for an object. */
  predicate HasProperty(v: Json, key: string) {
    v.Obj? && key in v.fields
  }

  /** `obj[key]`, `undefined` when absent. */
  function Get(v: Json, key: string): Json {
    if HasProperty(v, key) then v.fields[key] else Undefined
  }

  /** `isRawPlaceRow`: a non-null object with a numeric `id`, a string
      `name` and a numeric `type_id`; nothing else is checked. */
  predicate IsRawPlaceRow(v: Json) {
    HasProperty(v, "id") && HasProperty(v, "name") && HasProperty(v, "type_id")
    && Get(v, "id").Num? && Get(v, "name").Str? && Get(v, "type_id").Num?
  }

  /** `isRawPlaceTypeRow`: a numeric `id` and a string `name`. */
  predicate IsRawPlaceTypeRow(v: Json) {
    HasProperty(v, "id") && HasProperty(v, "name") && Get(v, "id").Num? && Get(v, "name").Str?
  }

  /** `isCountResult`: a numeric `count`. */
  predicate IsCountResult(v: Json) {
    HasProperty(v, "count") && Get(v, "count").Num?
  }

  /** `Boolean(v)`. */
  predicate Truthy(v: Json) {
    match v
    case Undefined => false
    case Null => false
    case Bool(b) => b
    case Num(n) => n != 0
    case Str(s) => s != ""
    case Obj(_) => true
  }

  /** The time value of `new Date(v * 1000)`; `None` is an invalid date. */
  function Millis(v: Json): Option<int> {
    if v.Num? then Some(v.n * 1000) else None
  }

  /** The typed place: the guarded fields typed, the others copied as they are. */
  datatype Place = Place(
    id: int, createdAt: Option<int>, name: string, typeId: int,
    parentId: Json, latitude: Json, longitude: Json, gedcomId: Json)

  datatype PlaceType = PlaceType(id: int, createdAt: Option<int>, name: string, key: Json, isSystem: bool)

  /** Only `id`, `name` and `type_id` are checked: setting any other
      column to any value leaves the verdict of `isRawPlaceRow` as it was. */
  lemma PlaceGuardIgnoresOtherColumns(fields: map<string, Json>, column: string, x: Json)
    requires column != "id" && column != "name" && column != "type_id"
    ensures IsRawPlaceRow(Obj(fields[column := x])) <==> IsRawPlaceRow(Obj(fields))
  {
    assert Get(Obj(fields[column := x]), "id") == Get(Obj(fields), "id");
    assert Get(Obj(fields[column := x]), "name") == Get(Obj(fields), "name");
    assert Get(Obj(fields[column := x]), "type_id") == Get(Obj(fields), "type_id");
  }

  /** The same for `isRawPlaceTypeRow`, which checks `id` and `name` only. */
  lemma PlaceTypeGuardIgnoresOtherColumns(fields: map<string, Json>, column: string, x: Json)
    requires column != "id" && column != "name"
    ensures IsRawPlaceTypeRow(Obj(fields[column := x])) <==> IsRawPlaceTypeRow(Obj(fields))
  {
    assert Get(Obj(fields[column := x]), "id") == Get(Obj(fields), "id");
    assert Get(Obj(fields[column := x]), "name") == Get(Obj(fields), "name");
  }

  /** The guards do not tell the two kinds of row apart: every place row
      also passes as a place-type row; and a value that is not an object,
      or lacks a numeric `id`, passes neither. */
  lemma GuardsOverlap(v: Json)
    ensures IsRawPlaceRow(v) ==> IsRawPlaceTypeRow(v)
    ensures !v.Obj? || !Get(v, "id").Num? ==> !IsRawPlaceRow(v) && !IsRawPlaceTypeRow(v)
  {
  }

  /** `rawPlaceToPlace`: each column under its camel-case name. The
      checked columns arrive typed; a `created_at` that is not a number
      gives an invalid date, and a valid one is a whole number of seconds. */
  function RawPlaceToPlace(v: Json): (p: Place)
    requires IsRawPlaceRow(v)
    ensures p.id == v.fields["id"].n && p.name == v.fields["name"].s && p.typeId == v.fields["type_id"].n
    ensures p.createdAt.Some? <==> Get(v, "created_at").Num?
    ensures p.createdAt.Some? ==> p.createdAt.value % 1000 == 0
    ensures p.parentId == Get(v, "parent_id") && p.gedcomId == Get(v, "gedcom_id")
  {
    Place(Get(v, "id").n, Millis(Get(v, "created_at")), Get(v, "name").s, Get(v, "type_id").n,
          Get(v, "parent_id"), Get(v, "latitude"), Get(v, "longitude"), Get(v, "gedcom_id"))
  }

  /** `rawPlaceTypeToPlaceType`: `is_system` coerced to a boolean, so a
      missing or null flag reads as not built in. */
  function RawPlaceTypeToPlaceType(v: Json): (t: PlaceType)
    requires IsRawPlaceTypeRow(v)
    ensures t.id == v.fields["id"].n && t.name == v.fields["name"].s && t.key == Get(v, "key")
    ensures t.createdAt.Some? <==> Get(v, "created_at").Num?
    ensures Get(v, "is_system").Num? ==> (t.isSystem <==> Get(v, "is_system").n != 0)
    ensures Get(v, "is_system") == Undefined || Get(v, "is_system") == Null ==> !t.isSystem
  {
    PlaceType(Get(v, "id").n, Millis(Get(v, "created_at")), Get(v, "name").s, Get(v, "key"),
              Truthy(Get(v, "is_system")))
  }

  // ---------------------------------------------------------------------
  // The rows SQLite returns for stored records, and back
  // ---------------------------------------------------------------------

  function OptNum(o: Option<int>): Json {
    if o.Some? then Num(o.value) else Null
  }

  function OptNat(o: Option<nat>): Json {
    if o.Some? then Num(o.value) else Null
  }

  /** A stored place as `SELECT *` returns it. */
  function EncodePlace(p: PlaceDb.PlaceRow): Json {
    Obj(map["id" := Num(p.id), "created_at" := Num(p.createdAt), "name" := Str(p.name),
            "type_id" := Num(p.typeId), "parent_id" := OptNat(p.parentId),
            "latitude" := OptNum(p.latitude), "longitude" := OptNum(p.longitude),
            "gedcom_id" := OptNum(p.gedcomId)])
  }

  /** A stored place type as `SELECT *` returns it, created at `at`. */
  function EncodeType(t: Migrations.PlaceTypeRow, at: int): Json {
    Obj(map["id" := Num(t.id), "created_at" := Num(at), "name" := Str(t.name),
            "key" := if t.key.Some? then Str(t.key.value) else Null,
            "is_system" := Num(if t.isSystem then 1 else 0)])
  }

  function ToOptNum(v: Json): Option<Option<int>> {
    match v
    case Null => Some(None)
    case Num(n) => Some(Some(n))
    case _ => None
  }

  function ToOptNat(v: Json): Option<Option<nat>> {
    match v
    case Null => Some(None)
    case Num(n) => if n >= 0 then Some(Some(n)) else None
    case _ => None
  }

  /** Seconds from a time value that is a whole number of seconds. */
  function Seconds(ms: Option<int>): Option<int> {
    if ms.Some? && ms.value % 1000 == 0 then Some(ms.value / 1000) else None
  }

  /** The stored place a typed place stands for, when every field has its
      column's type. */
  function DecodePlace(p: Place): (r: Option<PlaceDb.PlaceRow>)
    ensures r.Some? ==> r.value.name == p.name && r.value.id == p.id && r.value.typeId == p.typeId
  {
    if p.id < 0 || p.typeId < 0 then None
    else
      match (Seconds(p.createdAt), ToOptNat(p.parentId), ToOptNum(p.latitude), ToOptNum(p.longitude), ToOptNum(p.gedcomId))
      case (Some(c), Some(parent), Some(lat), Some(lon), Some(g)) =>
        Some(PlaceDb.PlaceRow(p.id, c, p.name, p.typeId, parent, lat, lon, g))
      case _ => None
  }

  lemma SecondsOfMillis(c: int)
    ensures Seconds(Some(c * 1000)) == Some(c)
  {
    var q, m := (c * 1000) / 1000, (c * 1000) % 1000;
    assert c * 1000 == q * 1000 + m && 0 <= m < 1000;
    assert (c - q) * 1000 == m;
  }

  /** The typed record of a stored place: `created_at` in milliseconds,
      absent nullable columns as `null`. */
  function AsPlace(p: PlaceDb.PlaceRow): Place {
    Place(p.id, Some(p.createdAt * 1000), p.name, p.typeId,
          OptNat(p.parentId), OptNum(p.latitude), OptNum(p.longitude), OptNum(p.gedcomId))
  }

  /** A stored place passes `isRawPlaceRow`, converts to its typed record,
      and reading the typed record back gives the stored place. */
  lemma PlaceRowRoundTrip(p: PlaceDb.PlaceRow)
    ensures IsRawPlaceRow(EncodePlace(p))
    ensures RawPlaceToPlace(EncodePlace(p)) == AsPlace(p)
    ensures DecodePlace(AsPlace(p)) == Some(p)
  {
    SecondsOfMillis(p.createdAt);
  }

  /** The stored place type a typed one stands for, with its creation time. */
  function DecodeType(t: PlaceType): (r: Option<(Migrations.PlaceTypeRow, int)>)
    ensures r.Some? ==> r.value.0.name == t.name && r.value.0.isSystem == t.isSystem
  {
    if t.id < 0 then None
    else
      var key := match t.key case Null => Some(None) case Str(k) => Some(Some(k)) case _ => None;
      match (Seconds(t.createdAt), key)
      case (Some(c), Some(k)) => Some((Migrations.PlaceTypeRow(t.id, t.name, k, t.isSystem), c))
      case _ => None
  }

  /** A stored place type passes `isRawPlaceTypeRow` and converts back to
      itself: the stored 0/1 becomes `false`/`true`. */
  lemma PlaceTypeRowRoundTrip(t: Migrations.PlaceTypeRow, at: int)
    ensures IsRawPlaceTypeRow(EncodeType(t, at))
    ensures DecodeType(RawPlaceTypeToPlaceType(EncodeType(t, at))) == Some((t, at))
  {
    SecondsOfMillis(at);
  }

  /** `isSystem` is true exactly when the stored `is_system` is non-zero. */
  lemma SystemFlagNonZero(v: Json, n: int)
    requires IsRawPlaceTypeRow(v) && Get(v, "is_system") == Num(n)
    ensures RawPlaceTypeToPlaceType(v).isSystem <==> n != 0
  {
  }
}
