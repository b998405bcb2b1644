/** `src/lib/events.ts`: events, their participants and the event types
    they refer to, in a tree database keyed by UUID strings. */
module Events {
  import opened Wrappers
  import Text
  import Sorting

  datatype EventRow = EventRow(
    id: string, createdAt: int, typeId: string,
    date: Option<string>, description: Option<string>, placeId: Option<string>, gedcomId: Option<int>)

  datatype ParticipantRow = ParticipantRow(
    id: string, createdAt: int, eventId: string, individualId: string, roleId: string)

  /** The columns of `event_types` this module reads. */
  datatype EventTypeRow = EventTypeRow(id: string, key: Option<string>)

  /** The tables; of `individuals`, `event_roles` and `places` only the ids
      matter here, as the targets of foreign keys. */
  datatype Tree = Tree(events: seq<EventRow>, participants: seq<ParticipantRow>, types: seq<EventTypeRow>,
                       individuals: seq<string>, roles: seq<string>, places: seq<string>)

  /** SQLite's messages for the constraints a write can break: the primary
      keys, the unique index `event_participants_unique`, and the foreign
      keys, which are checked at the end of the statement. */
  const EventIdTaken := "UNIQUE constraint failed: events.id"
  const ParticipantIdTaken := "UNIQUE constraint failed: event_participants.id"
  const ParticipantTaken :=
    "UNIQUE constraint failed: event_participants.event_id, event_participants.individual_id, event_participants.role_id"
  const ForeignKeyFailed := "FOREIGN KEY constraint failed"

  function EventIdIs(id: string): EventRow -> bool {
    (e: EventRow) => e.id == id
  }

  function ParticipantIdIs(id: string): ParticipantRow -> bool {
    (p: ParticipantRow) => p.id == id
  }

  function TypeIdIs(id: string): EventTypeRow -> bool {
    (et: EventTypeRow) => et.id == id
  }

  // ---------------------------------------------------------------------
  // Events
  // ---------------------------------------------------------------------

  /** `getAll`: every event, newest first. */
  function GetAll(t: Tree): (r: seq<EventRow>)
    ensures multiset(r) == multiset(t.events)
    ensures forall i, j :: 0 <= i < j < |r| ==> r[i].createdAt >= r[j].createdAt
  {
    var le := (a: EventRow, b: EventRow) => a.createdAt >= b.createdAt;
    Sorting.SortWithSorted(t.events, le);
    Sorting.SortWith(t.events, le)
  }

  /** `getById`: the first row with the id, or null. */
  function GetById(t: Tree, id: string): (r: Option<EventRow>)
    ensures r.Some? ==> r.value in t.events && r.value.id == id
    ensures r.None? <==> forall i :: 0 <= i < |t.events| ==> t.events[i].id != id
  {
    Sorting.FindFirst(t.events, EventIdIs(id))
  }

  /** The fields of a new event. */
  datatype NewEvent = NewEvent(
    typeId: string, date: Option<string>, description: Option<string>, placeId: Option<string>, gedcomId: Option<int>)

  /** `n || null` on an optional number: missing and `0` become null. */
  function NullIfZero(n: Option<int>): (r: Option<int>)
    ensures r.None? <==> n.None? || n.value == 0
    ensures r.Some? ==> r == n
  {
    if n.Some? && n.value != 0 then n else None
  }

  /** The row `create` inserts: every falsy optional field as null. */
  function NewRow(input: NewEvent, id: string, now: int): EventRow {
    EventRow(id, now, input.typeId, Text.NullIfEmpty(input.date), Text.NullIfEmpty(input.description),
             Text.NullIfEmpty(input.placeId), NullIfZero(input.gedcomId))
  }

  /** The foreign keys of an event row hold: its type exists, and its place
      is null or exists. */
  predicate EventFits(t: Tree, e: EventRow) {
    FindType(t, e.typeId).Some? && (e.placeId.None? || e.placeId.value in t.places)
  }

  /** `create` under the generated id `id` at `now`: the insert is refused
      when the id is taken or a foreign key does not hold, and the error
      rejects the call; otherwise the row is inserted and the first row with
      the id is read back. */
  function Create(t: Tree, input: NewEvent, id: string, now: int): (r: (Tree, Result<EventRow>))
    ensures r.1.Success? <==> GetById(t, id).None? && EventFits(t, NewRow(input, id, now))
    ensures r.1.Failure? ==> r.0 == t && r.1.error == if GetById(t, id).Some? then EventIdTaken else ForeignKeyFailed
    ensures r.1.Success? ==> r.0 == t.(events := t.events + [NewRow(input, id, now)])
                             && r.1.value == NewRow(input, id, now) && GetById(r.0, id) == Some(r.1.value)
  {
    var row := NewRow(input, id, now);
    if GetById(t, id).Some? then (t, Failure(EventIdTaken))
    else if !EventFits(t, row) then (t, Failure(ForeignKeyFailed))
    else
      var t' := t.(events := t.events + [row]);
      Sorting.FindFirstAppend(t.events, row, EventIdIs(id));
      (t', Success(GetById(t', id).value))
  }

  /** Partner of `Create`: every optional field of a created event is null
      exactly when the input was falsy, and otherwise keeps the input. */
  lemma CreateStoresFalsyAsNull(t: Tree, input: NewEvent, id: string, now: int)
    ensures var r := Create(t, input, id, now).1;
      r.Success? ==>
      var e := r.value;
      && e.typeId == input.typeId
      && (e.date.None? <==> input.date.None? || input.date.value == "")
      && (e.description.None? <==> input.description.None? || input.description.value == "")
      && (e.placeId.None? <==> input.placeId.None? || input.placeId.value == "")
      && (e.gedcomId.None? <==> input.gedcomId.None? || input.gedcomId.value == 0)
      && (e.date.Some? ==> e.date == input.date)
      && (e.gedcomId.Some? ==> e.gedcomId == input.gedcomId)
  {
  }

  /** A place given as "" is stored as null, so it never breaks the place
      foreign key: with a new id and a known type the event is created. */
  lemma EmptyPlaceAccepted(t: Tree, input: NewEvent, id: string, now: int)
    requires GetById(t, id).None? && FindType(t, input.typeId).Some?
    requires input.placeId.None? || input.placeId.value == ""
    ensures Create(t, input, id, now).1.Success?
  {
  }

  /** The fields an update may supply; `Some(None)` writes null. */
  datatype EventUpdate = EventUpdate(
    typeId: Option<string>, date: Option<Option<string>>, description: Option<Option<string>>,
    placeId: Option<Option<string>>, gedcomId: Option<Option<int>>)

  /** A value bound to a `?` placeholder. */
  datatype SqlValue = SqlText(s: string) | SqlInt(n: int) | SqlNull

  function TextOrNull(s: Option<string>): SqlValue {
    if s.Some? then SqlText(s.value) else SqlNull
  }

  function IntOrNull(n: Option<int>): SqlValue {
    if n.Some? then SqlInt(n.value) else SqlNull
  }

  /** The columns `update` may set. */
  datatype Column = TypeIdColumn | DateColumn | DescriptionColumn | PlaceIdColumn | GedcomIdColumn

  function ColumnName(c: Column): string {
    match c
    case TypeIdColumn => "type_id"
    case DateColumn => "date"
    case DescriptionColumn => "description"
    case PlaceIdColumn => "place_id"
    case GedcomIdColumn => "gedcom_id"
  }

  /** The columns in the order `update` considers them. */
  const Columns: seq<Column> := [TypeIdColumn, DateColumn, DescriptionColumn, PlaceIdColumn, GedcomIdColumn]

  /** Whether the update supplies a value for the column. */
  predicate Supplies(u: EventUpdate, column: Column) {
    match column
    case TypeIdColumn => u.typeId.Some?
    case DateColumn => u.date.Some?
    case DescriptionColumn => u.description.Some?
    case PlaceIdColumn => u.placeId.Some?
    case GedcomIdColumn => u.gedcomId.Some?
  }

  /** The value `update` binds for a column the update supplies. */
  function BoundValue(u: EventUpdate, column: Column): SqlValue {
    match column
    case TypeIdColumn => if u.typeId.Some? then SqlText(u.typeId.value) else SqlNull
    case DateColumn => if u.date.Some? then TextOrNull(u.date.value) else SqlNull
    case DescriptionColumn => if u.description.Some? then TextOrNull(u.description.value) else SqlNull
    case PlaceIdColumn => if u.placeId.Some? then TextOrNull(u.placeId.value) else SqlNull
    case GedcomIdColumn => if u.gedcomId.Some? then IntOrNull(u.gedcomId.value) else SqlNull
  }

  /** One `if (field !== undefined)` of `update`: the assignment when the
      field is supplied. */
  function Assignment(u: EventUpdate, column: Column): seq<(Column, SqlValue)> {
    if Supplies(u, column) then [(column, BoundValue(u, column))] else []
  }

  /** The `column = ?` assignments `update` collects with their values: one
      `if` per column, taken in the order of `cs`. */
  function AssignmentsFrom(u: EventUpdate, cs: seq<Column>): seq<(Column, SqlValue)>
    decreases |cs|
  {
    if |cs| == 0 then [] else Assignment(u, cs[0]) + AssignmentsFrom(u, cs[1..])
  }

  /** The assignments of `update`, in its fixed column order. */
  function Assignments(u: EventUpdate): seq<(Column, SqlValue)> {
    AssignmentsFrom(u, Columns)
  }

  function ColumnOf(a: (Column, SqlValue)): Column { a.0 }

  function ValueOf(a: (Column, SqlValue)): SqlValue { a.1 }

  function SupplyingColumn(u: EventUpdate): Column -> bool {
    (c: Column) => Supplies(u, c)
  }

  lemma {:induction false} ColumnsFrom(u: EventUpdate, cs: seq<Column>)
    ensures Sorting.Map(AssignmentsFrom(u, cs), ColumnOf) == Sorting.Filter(cs, SupplyingColumn(u))
    decreases |cs|
  {
    if |cs| > 0 {
      ColumnsFrom(u, cs[1..]);
      Sorting.MapConcat(Assignment(u, cs[0]), AssignmentsFrom(u, cs[1..]), ColumnOf);
      assert cs == [cs[0]] + cs[1..];
      Sorting.FilterCons(cs[0], cs[1..], SupplyingColumn(u));
    }
  }

  /** The statement names exactly the supplied columns, in the fixed order
      `type_id, date, description, place_id, gedcom_id`. */
  lemma AssignmentsFollowColumns(u: EventUpdate)
    ensures Sorting.IsSublist(Sorting.Map(Assignments(u), ColumnOf), Columns)
    ensures forall c :: c in Sorting.Map(Assignments(u), ColumnOf) <==> Supplies(u, c)
  {
    ColumnsFrom(u, Columns);
    Sorting.FilterIsSublist(Columns, SupplyingColumn(u));
    AssignedColumns(u, Sorting.Map(Assignments(u), ColumnOf));
  }

  lemma AssignedColumns(u: EventUpdate, cols: seq<Column>)
    requires cols == Sorting.Filter(Columns, SupplyingColumn(u))
    ensures forall c :: c in cols <==> Supplies(u, c)
  {
    forall c: Column ensures c in cols <==> Supplies(u, c) {
      InColumns(c);
      assert SupplyingColumn(u)(c) == Supplies(u, c);
    }
  }

  lemma InColumns(c: Column)
    ensures c in Columns
  {
    match c
    case TypeIdColumn => assert Columns[0] == c;
    case DateColumn => assert Columns[1] == c;
    case DescriptionColumn => assert Columns[2] == c;
    case PlaceIdColumn => assert Columns[3] == c;
    case GedcomIdColumn => assert Columns[4] == c;
  }

  /** The text of the statement: `UPDATE events SET … WHERE id = ?`. */
  function Statement(u: EventUpdate): string {
    "UPDATE events SET " + Text.Join(Sorting.Map(Sorting.Map(Assignments(u), ColumnOf), (c: Column) => ColumnName(c) + " = ?"), ", ")
    + " WHERE id = ?"
  }

  /** The values bound to the placeholders: the assigned values, then the id. */
  function Values(u: EventUpdate, id: string): (r: seq<SqlValue>)
    ensures |r| == |Assignments(u)| + 1 && r[|r| - 1] == SqlText(id)
  {
    Sorting.Map(Assignments(u), ValueOf) + [SqlText(id)]
  }

  function AsText(v: SqlValue): Option<string> {
    if v.SqlText? then Some(v.s) else None
  }

  function AsInt(v: SqlValue): Option<int> {
    if v.SqlInt? then Some(v.n) else None
  }

  /** What one assignment `column = ?` does to a row. */
  function Assign(e: EventRow, column: Column, v: SqlValue): EventRow {
    match column
    case TypeIdColumn => if v.SqlText? then e.(typeId := v.s) else e
    case DateColumn => e.(date := AsText(v))
    case DescriptionColumn => e.(description := AsText(v))
    case PlaceIdColumn => e.(placeId := AsText(v))
    case GedcomIdColumn => e.(gedcomId := AsInt(v))
  }

  /** The assignments of a `SET` clause, applied left to right. */
  function Execute(e: EventRow, asg: seq<(Column, SqlValue)>): EventRow
    decreases |asg|
  {
    if |asg| == 0 then e else Execute(Assign(e, asg[0].0, asg[0].1), asg[1..])
  }

  lemma {:induction false} ExecuteConcat(e: EventRow, a: seq<(Column, SqlValue)>, b: seq<(Column, SqlValue)>)
    ensures Execute(e, a + b) == Execute(Execute(e, a), b)
    decreases |a|
  {
    if |a| > 0 {
      assert (a + b)[1..] == a[1..] + b;
      ExecuteConcat(Assign(e, a[0].0, a[0].1), a[1..], b);
    } else {
      assert a + b == b;
    }
  }

  /** The fields an update supplies replace the row's; the others stay. */
  function ApplyEventUpdate(e: EventRow, u: EventUpdate): EventRow {
    e.(typeId := u.typeId.GetOr(e.typeId), date := u.date.GetOr(e.date),
       description := u.description.GetOr(e.description), placeId := u.placeId.GetOr(e.placeId),
       gedcomId := u.gedcomId.GetOr(e.gedcomId))
  }

  /** Partner of `Assignments`: executing the statement's assignments on a
      row writes exactly the supplied fields. */
  lemma ExecuteAssignments(e: EventRow, u: EventUpdate)
    ensures Execute(e, Assignments(u)) == ApplyEventUpdate(e, u)
    ensures e.id == ApplyEventUpdate(e, u).id && e.createdAt == ApplyEventUpdate(e, u).createdAt
  {
    var s4: seq<Column> := [GedcomIdColumn];
    var s3 := [PlaceIdColumn] + s4;
    var s2 := [DescriptionColumn] + s3;
    var s1 := [DateColumn] + s2;
    assert Columns == [TypeIdColumn] + s1;
    assert s4 == [GedcomIdColumn] + [];
    var e1 := ExecuteFirst(e, u, TypeIdColumn, s1);
    assert e1 == e.(typeId := u.typeId.GetOr(e.typeId));
    var e2 := ExecuteFirst(e1, u, DateColumn, s2);
    assert e2 == e1.(date := u.date.GetOr(e.date));
    var e3 := ExecuteFirst(e2, u, DescriptionColumn, s3);
    assert e3 == e2.(description := u.description.GetOr(e.description));
    var e4 := ExecuteFirst(e3, u, PlaceIdColumn, s4);
    assert e4 == e3.(placeId := u.placeId.GetOr(e.placeId));
    var e5 := ExecuteFirst(e4, u, GedcomIdColumn, []);
    assert e5 == e4.(gedcomId := u.gedcomId.GetOr(e.gedcomId));
    assert Execute(e, Assignments(u)) == e5;
  }

  /** The first column's assignment runs first: returns the row after it. */
  lemma ExecuteFirst(e: EventRow, u: EventUpdate, c: Column, cs: seq<Column>) returns (e': EventRow)
    ensures e' == if Supplies(u, c) then Assign(e, c, BoundValue(u, c)) else e
    ensures Execute(e, AssignmentsFrom(u, [c] + cs)) == Execute(e', AssignmentsFrom(u, cs))
  {
    assert ([c] + cs)[1..] == cs;
    ExecuteConcat(e, Assignment(u, c), AssignmentsFrom(u, cs));
    e' := if Supplies(u, c) then Assign(e, c, BoundValue(u, c)) else e;
  }

  /** Whether the update writes anything. */
  predicate Writes(u: EventUpdate) {
    u.typeId.Some? || u.date.Some? || u.description.Some? || u.placeId.Some? || u.gedcomId.Some?
  }

  function NotFound(id: string): string {
    "Event with id " + id + " not found"
  }

  /** `UPDATE events SET … WHERE id = ?`: every row with the id. */
  function UpdateRows(rows: seq<EventRow>, id: string, u: EventUpdate): (r: seq<EventRow>)
    ensures |r| == |rows|
    ensures forall i :: 0 <= i < |rows| ==> r[i] == if rows[i].id == id then ApplyEventUpdate(rows[i], u) else rows[i]
    ensures Sorting.FindFirst(r, EventIdIs(id))
            == if Sorting.FindFirst(rows, EventIdIs(id)).Some?
               then Some(ApplyEventUpdate(Sorting.FindFirst(rows, EventIdIs(id)).value, u)) else None
  {
    var f := (e: EventRow) => if e.id == id then Execute(e, Assignments(u)) else e;
    forall e: EventRow ensures f(e) == if e.id == id then ApplyEventUpdate(e, u) else e {
      ExecuteAssignments(e, u);
    }
    Sorting.FindFirstMap(rows, f, EventIdIs(id));
    Sorting.Map(rows, f)
  }

  /** The foreign keys of the columns an update sets hold: a supplied type
      exists, and a supplied place is null or exists. Columns the statement
      does not set are not checked. */
  predicate UpdateFits(t: Tree, u: EventUpdate) {
    && (u.typeId.None? || FindType(t, u.typeId.value).Some?)
    && (u.placeId.None? || u.placeId.value.None? || u.placeId.value.value in t.places)
  }

  /** `update`: an update that writes nothing reads the event back; one
      that writes runs the statement, which a broken foreign key refuses,
      then reads back. A missing event is an error either way. */
  function Update(t: Tree, id: string, u: EventUpdate): (r: (Tree, Result<EventRow>))
    ensures r.1.Success? <==> GetById(t, id).Some? && UpdateFits(t, u)
    ensures r.1.Failure? ==> r.0 == t && r.1.error == if GetById(t, id).None? then NotFound(id) else ForeignKeyFailed
    ensures r.1.Success? ==> r.1.value == ApplyEventUpdate(GetById(t, id).value, u)
    ensures !Writes(u) ==> r.0 == t
    ensures r.0.participants == t.participants && r.0.types == t.types && |r.0.events| == |t.events|
    ensures r.1.Success? ==> forall i :: 0 <= i < |t.events| ==>
              r.0.events[i] == if t.events[i].id == id then ApplyEventUpdate(t.events[i], u) else t.events[i]
    ensures r.1.Success? ==> GetById(r.0, id) == Some(r.1.value)
  {
    if !Writes(u) then
      assert forall i :: 0 <= i < |t.events| ==> t.events[i] == ApplyEventUpdate(t.events[i], u);
      match GetById(t, id)
      case None => (t, Failure(NotFound(id)))
      case Some(e) => (t, Success(e))
    else if GetById(t, id).Some? && !UpdateFits(t, u) then
      (t, Failure(ForeignKeyFailed))
    else
      var t' := t.(events := UpdateRows(t.events, id, u));
      match GetById(t', id)
      case None =>
        assert t'.events == t.events;
        (t, Failure(NotFound(id)))
      case Some(e) => (t', Success(e))
  }

  /** `delete`: the event goes, and with it, through the `ON DELETE
      CASCADE` foreign key on `event_participants.event_id`, its participants. */
  function Delete(t: Tree, id: string): (r: Tree)
    ensures forall e :: e in r.events <==> e in t.events && e.id != id
    ensures forall p :: p in r.participants <==> p in t.participants && p.eventId != id
    ensures r.types == t.types && r.individuals == t.individuals && r.roles == t.roles && r.places == t.places
    ensures GetById(r, id).None?
  {
    t.(events := Sorting.Filter(t.events, (e: EventRow) => e.id != id),
       participants := Sorting.Filter(t.participants, (p: ParticipantRow) => p.eventId != id))
  }

  // ---------------------------------------------------------------------
  // Participants
  // ---------------------------------------------------------------------

  /** `getParticipants`: the event's participants, oldest first. */
  function GetParticipants(t: Tree, eventId: string): (r: seq<ParticipantRow>)
    ensures forall p :: p in r <==> p in t.participants && p.eventId == eventId
    ensures forall i, j :: 0 <= i < j < |r| ==> r[i].createdAt <= r[j].createdAt
  {
    var mine := Sorting.Filter(t.participants, EventIdOf(eventId));
    var le := OlderFirst();
    Sorting.SortWithSorted(mine, le);
    var r := Sorting.SortWith(mine, le);
    Sorting.SameMembers(r, mine);
    r
  }

  /** `getParticipantById`. */
  function GetParticipantById(t: Tree, id: string): (r: Option<ParticipantRow>)
    ensures r.Some? ==> r.value in t.participants && r.value.id == id
    ensures r.None? <==> forall i :: 0 <= i < |t.participants| ==> t.participants[i].id != id
  {
    Sorting.FindFirst(t.participants, ParticipantIdIs(id))
  }

  datatype NewParticipant = NewParticipant(eventId: string, individualId: string, roleId: string)

  function NewParticipantRow(input: NewParticipant, id: string, now: int): ParticipantRow {
    ParticipantRow(id, now, input.eventId, input.individualId, input.roleId)
  }

  /** The columns of the unique index `event_participants_unique`. */
  function Triple(p: ParticipantRow): (string, string, string) {
    (p.eventId, p.individualId, p.roleId)
  }

  /** Whether a row whose id is not `except` already holds the triple. */
  predicate TripleTaken(t: Tree, triple: (string, string, string), except: string) {
    exists i :: 0 <= i < |t.participants| && t.participants[i].id != except && Triple(t.participants[i]) == triple
  }

  /** What the insert of a participant into an event that exists asks of
      the tree: a new id, a new triple, and an individual and a role that
      exist. */
  predicate JoinsEvent(t: Tree, p: ParticipantRow) {
    && GetParticipantById(t, p.id).None? && !TripleTaken(t, Triple(p), p.id)
    && p.individualId in t.individuals && p.roleId in t.roles
  }

  /** `addParticipant` under the generated id `id` at `now`: the insert is
      refused when the id is taken, then when the triple is taken, then when
      a foreign key does not hold; otherwise the row is inserted and read
      back. */
  function AddParticipant(t: Tree, input: NewParticipant, id: string, now: int): (r: (Tree, Result<ParticipantRow>))
    ensures r.1.Success? <==> GetById(t, input.eventId).Some? && JoinsEvent(t, NewParticipantRow(input, id, now))
    ensures r.1.Failure? ==> r.0 == t
    ensures r.1.Failure? ==>
              r.1.error == if GetParticipantById(t, id).Some? then ParticipantIdTaken
                           else if TripleTaken(t, Triple(NewParticipantRow(input, id, now)), id) then ParticipantTaken
                           else ForeignKeyFailed
    ensures r.1.Success? ==> r.0 == t.(participants := t.participants + [NewParticipantRow(input, id, now)])
                             && r.1.value == NewParticipantRow(input, id, now)
                             && GetParticipantById(r.0, id) == Some(r.1.value)
  {
    var row := NewParticipantRow(input, id, now);
    if GetParticipantById(t, id).Some? then (t, Failure(ParticipantIdTaken))
    else if TripleTaken(t, Triple(row), id) then (t, Failure(ParticipantTaken))
    else if !(GetById(t, input.eventId).Some? && input.individualId in t.individuals && input.roleId in t.roles) then
      (t, Failure(ForeignKeyFailed))
    else
      var t' := t.(participants := t.participants + [row]);
      Sorting.FindFirstAppend(t.participants, row, ParticipantIdIs(id));
      (t', Success(GetParticipantById(t', id).value))
  }

  /** The insert of a second participant after a first one: the id must
      differ from the first's too, and so must the triple. */
  lemma JoinsAfter(t: Tree, first: ParticipantRow, p: ParticipantRow)
    requires GetParticipantById(t, first.id).None?
    ensures var t' := t.(participants := t.participants + [first]);
      JoinsEvent(t', p) <==> JoinsEvent(t, p) && p.id != first.id && Triple(p) != Triple(first)
  {
    var t' := t.(participants := t.participants + [first]);
    var n := |t.participants|;
    assert t'.participants[n] == first;
    assert forall i :: 0 <= i < n ==> t'.participants[i] == t.participants[i];
    if JoinsEvent(t', p) {
      forall i | 0 <= i < n ensures t.participants[i].id != p.id {
        assert t'.participants[i].id != p.id;
      }
    }
    if TripleTaken(t, Triple(p), p.id) {
      var i :| 0 <= i < n && t.participants[i].id != p.id && Triple(t.participants[i]) == Triple(p);
      assert t'.participants[i] == t.participants[i];
    }
    if TripleTaken(t', Triple(p), p.id) && p.id != first.id && Triple(p) != Triple(first) {
      var i :| 0 <= i < |t'.participants| && t'.participants[i].id != p.id && Triple(t'.participants[i]) == Triple(p);
      assert i < n;
    }
  }

  datatype ParticipantUpdate = ParticipantUpdate(individualId: Option<string>, roleId: Option<string>)

  function ApplyParticipantUpdate(p: ParticipantRow, u: ParticipantUpdate): ParticipantRow {
    p.(individualId := u.individualId.GetOr(p.individualId), roleId := u.roleId.GetOr(p.roleId))
  }

  function ParticipantNotFound(id: string): string {
    "Event participant with id " + id + " not found"
  }

  /** The foreign keys of the columns an update sets hold: a supplied
      individual and a supplied role exist. */
  predicate ParticipantUpdateFits(t: Tree, u: ParticipantUpdate) {
    (u.individualId.None? || u.individualId.value in t.individuals) && (u.roleId.None? || u.roleId.value in t.roles)
  }

  /** `updateParticipant`: as `update`, for the individual and the role; the
      statement is refused when the changed row would repeat another row's
      triple, then when a foreign key does not hold. */
  function UpdateParticipant(t: Tree, id: string, u: ParticipantUpdate): (r: (Tree, Result<ParticipantRow>))
    ensures var found := GetParticipantById(t, id);
      r.1.Success? <==> found.Some? && (u == ParticipantUpdate(None, None)
                        || (!TripleTaken(t, Triple(ApplyParticipantUpdate(found.value, u)), id) && ParticipantUpdateFits(t, u)))
    ensures r.1.Failure? ==> r.0 == t
    ensures r.1.Failure? ==>
              r.1.error == if GetParticipantById(t, id).None? then ParticipantNotFound(id)
                           else if TripleTaken(t, Triple(ApplyParticipantUpdate(GetParticipantById(t, id).value, u)), id) then ParticipantTaken
                           else ForeignKeyFailed
    ensures r.1.Success? ==> r.1.value == ApplyParticipantUpdate(GetParticipantById(t, id).value, u)
    ensures r.0.events == t.events && r.0.types == t.types && |r.0.participants| == |t.participants|
    ensures r.1.Success? ==> forall i :: 0 <= i < |t.participants| ==>
              r.0.participants[i] == if t.participants[i].id == id then ApplyParticipantUpdate(t.participants[i], u) else t.participants[i]
    ensures r.1.Success? ==> GetParticipantById(r.0, id) == Some(r.1.value)
  {
    var found := GetParticipantById(t, id);
    if u.individualId.None? && u.roleId.None? then
      assert forall i :: 0 <= i < |t.participants| ==> ApplyParticipantUpdate(t.participants[i], u) == t.participants[i];
      match found
      case None => (t, Failure(ParticipantNotFound(id)))
      case Some(p) => (t, Success(p))
    else if found.Some? && TripleTaken(t, Triple(ApplyParticipantUpdate(found.value, u)), id) then
      (t, Failure(ParticipantTaken))
    else if found.Some? && !ParticipantUpdateFits(t, u) then
      (t, Failure(ForeignKeyFailed))
    else
      var f := (p: ParticipantRow) => if p.id == id then ApplyParticipantUpdate(p, u) else p;
      var t' := t.(participants := Sorting.Map(t.participants, f));
      Sorting.FindFirstMap(t.participants, f, ParticipantIdIs(id));
      match GetParticipantById(t', id)
      case None =>
        assert t'.participants == t.participants;
        (t, Failure(ParticipantNotFound(id)))
      case Some(p) => (t', Success(p))
  }

  /** `removeParticipant`. */
  function RemoveParticipant(t: Tree, id: string): (r: Tree)
    ensures r.events == t.events && r.types == t.types
    ensures forall p :: p in r.participants <==> p in t.participants && p.id != id
    ensures GetParticipantById(r, id).None?
  {
    t.(participants := Sorting.Filter(t.participants, (p: ParticipantRow) => p.id != id))
  }

  // ---------------------------------------------------------------------
  // Event types and validation
  // ---------------------------------------------------------------------

  function FindType(t: Tree, typeId: string): (r: Option<EventTypeRow>)
    ensures r.Some? ==> r.value in t.types && r.value.id == typeId
    ensures r.None? <==> forall i :: 0 <= i < |t.types| ==> t.types[i].id != typeId
  {
    Sorting.FindFirst(t.types, TypeIdIs(typeId))
  }

  /** `getEventTypeKey`: the key of the event's type, through the join of
      `events` with `event_types`; a missing row, a null key and an empty
      key all give null. */
  function GetEventTypeKey(t: Tree, eventId: string): (r: Option<string>)
    ensures r.Some? ==> r.value != ""
    ensures r.Some? ==> GetById(t, eventId).Some? && FindType(t, GetById(t, eventId).value.typeId).Some?
                        && FindType(t, GetById(t, eventId).value.typeId).value.key == r
  {
    match GetById(t, eventId)
    case None => None
    case Some(e) =>
      match FindType(t, e.typeId)
      case None => None
      case Some(et) => Text.NullIfEmpty(et.key)
  }

  /** `isMarriageEventType`: the type's key is exactly `"marriage"`. */
  function IsMarriageEventType(t: Tree, typeId: string): (r: bool)
    ensures r <==> exists i :: 0 <= i < |t.types| && t.types[i].id == typeId && t.types[i].key == Some("marriage")
                      && forall j :: 0 <= j < i ==> t.types[j].id != typeId
  {
    FirstTypeIndex(t.types, typeId);
    match FindType(t, typeId)
    case None => false
    case Some(et) => et.key == Some("marriage")
  }

  lemma {:induction false} FirstTypeIndex(types: seq<EventTypeRow>, typeId: string)
    ensures Sorting.FindFirst(types, TypeIdIs(typeId)).Some? ==>
              exists i :: 0 <= i < |types| && types[i] == Sorting.FindFirst(types, TypeIdIs(typeId)).value
                          && forall j :: 0 <= j < i ==> types[j].id != typeId
    ensures forall i :: 0 <= i < |types| && types[i].id == typeId && (forall j :: 0 <= j < i ==> types[j].id != typeId) ==>
              Sorting.FindFirst(types, TypeIdIs(typeId)) == Some(types[i])
    decreases |types|
  {
    if |types| > 0 && types[0].id != typeId {
      FirstTypeIndex(types[1..], typeId);
      assert forall i :: 1 <= i < |types| ==> types[i] == types[1..][i - 1];
      if Sorting.FindFirst(types, TypeIdIs(typeId)).Some? {
        var k :| 0 <= k < |types[1..]| && types[1..][k] == Sorting.FindFirst(types, TypeIdIs(typeId)).value
                 && forall j :: 0 <= j < k ==> types[1..][j].id != typeId;
        assert types[k + 1] == Sorting.FindFirst(types, TypeIdIs(typeId)).value;
      }
      forall i | 0 <= i < |types| && types[i].id == typeId && (forall j :: 0 <= j < i ==> types[j].id != typeId)
        ensures Sorting.FindFirst(types, TypeIdIs(typeId)) == Some(types[i])
      {
        assert i > 0;
        assert types[1..][i - 1] == types[i];
      }
    }
  }

  /** Partner of `GetEventTypeKey`: an event is a marriage by its key
      exactly when its type is a marriage type. */
  lemma MarriageKeyMatchesType(t: Tree, eventId: string)
    requires GetById(t, eventId).Some?
    ensures GetEventTypeKey(t, eventId) == Some("marriage") <==> IsMarriageEventType(t, GetById(t, eventId).value.typeId)
  {
  }

  /** The answer of a participant validator. */
  datatype Validation = Validation(valid: bool, message: Option<string>)

  /** The two validators `validateEventParticipants` chooses between. */
  datatype Rules = MarriageRules | SingleSubjectRules

  /** `validateMarriageParticipants`: no requirement is checked. */
  function ValidateMarriageParticipants(t: Tree, eventId: string): (r: Validation)
    ensures r.valid && r.message.None?
  {
    Validation(true, None)
  }

  /** `validateSingleSubjectParticipant`: no requirement is checked. */
  function ValidateSingleSubjectParticipant(t: Tree, eventId: string): (r: Validation)
    ensures r.valid && r.message.None?
  {
    Validation(true, None)
  }

  /** The routing of `validateEventParticipants`: marriage rules exactly
      for an event whose type key is `"marriage"`. */
  function RulesFor(t: Tree, eventId: string): (r: Rules)
    ensures r == MarriageRules <==> GetById(t, eventId).Some? && IsMarriageEventType(t, GetById(t, eventId).value.typeId)
  {
    if GetById(t, eventId).Some? then MarriageKeyMatchesType(t, eventId); RulesForKey(GetEventTypeKey(t, eventId))
    else RulesForKey(GetEventTypeKey(t, eventId))
  }

  function RulesForKey(key: Option<string>): (r: Rules)
    ensures r == MarriageRules <==> key == Some("marriage")
  {
    if key == Some("marriage") then MarriageRules else SingleSubjectRules
  }

  /** `validateEventParticipants`: whichever validator the routing picks,
      the event is valid. */
  function ValidateEventParticipants(t: Tree, eventId: string): (r: Validation)
    ensures r.valid && r.message.None?
  {
    match RulesFor(t, eventId)
    case MarriageRules => ValidateMarriageParticipants(t, eventId)
    case SingleSubjectRules => ValidateSingleSubjectParticipant(t, eventId)
  }

  /** `validateSubjectExists`: holds for every event, even a missing one. */
  function ValidateSubjectExists(t: Tree, eventId: string): (r: bool)
    ensures r
  {
    ValidateEventParticipants(t, eventId).valid
  }

  // ---------------------------------------------------------------------
  // Joined reads and combined writes
  // ---------------------------------------------------------------------

  /** `getAllWithDetails`: every event, newest first, with its number of
      participants. */
  function GetAllWithDetails(t: Tree): (r: seq<(EventRow, nat)>)
    ensures |r| == |t.events|
    ensures forall i :: 0 <= i < |r| ==> r[i].0 == GetAll(t)[i]
    ensures forall i :: 0 <= i < |r| ==>
              (r[i].1 == 0 <==> forall p :: p in t.participants ==> p.eventId != r[i].0.id)
  {
    var all := GetAll(t);
    assert |multiset(all)| == |multiset(t.events)|;
    seq(|all|, i requires 0 <= i < |all| => (all[i], ParticipantCount(t, all[i].id)))
  }

  function ParticipantCount(t: Tree, eventId: string): (n: nat)
    ensures n == 0 <==> forall p :: p in t.participants ==> p.eventId != eventId
  {
    var r := GetParticipants(t, eventId);
    if |r| == 0 then 0
    else
      assert r[0] in r;
      |r|
  }

  /** `getByIdWithParticipants`: null for a missing event. */
  function GetByIdWithParticipants(t: Tree, id: string): (r: Option<(EventRow, seq<ParticipantRow>)>)
    ensures r.None? <==> GetById(t, id).None?
    ensures r.Some? ==> r.value.0 == GetById(t, id).value
    ensures r.Some? ==> forall p :: p in r.value.1 <==> p in t.participants && p.eventId == id
  {
    match GetById(t, id)
    case None => None
    case Some(e) => Some((e, GetParticipants(t, id)))
  }

  /** What the insert of an event asks of the tree: a new id and foreign
      keys that hold. */
  predicate EventAccepted(t: Tree, e: EventRow) {
    GetById(t, e.id).None? && EventFits(t, e)
  }

  /** The errors the inserts of `createWithSubject` and `createMarriage` can
      reject with. */
  predicate InsertError(error: string) {
    error == EventIdTaken || error == ForeignKeyFailed || error == ParticipantIdTaken || error == ParticipantTaken
  }

  /** `createWithSubject`: the event, then one participant for the subject,
      each read back after its insert. A refused insert rejects the call;
      the event stays written when only the participant is refused. */
  function CreateWithSubject(t: Tree, input: NewEvent, subject: string, role: string,
                             eventId: string, participantId: string, now: int): (r: (Tree, Result<(EventRow, seq<ParticipantRow>)>))
    ensures var e := NewRow(input, eventId, now);
            var s := ParticipantRow(participantId, now, eventId, subject, role);
      && (r.1.Success? <==> EventAccepted(t, e) && JoinsEvent(t, s))
      && (r.1.Success? ==> r.1.value == (e, [s]) && r.0 == t.(events := t.events + [e], participants := t.participants + [s]))
      && (r.1.Failure? ==> InsertError(r.1.error))
      && (!EventAccepted(t, e) ==> r.0 == t)
      && (EventAccepted(t, e) && r.1.Failure? ==> r.0 == t.(events := t.events + [e]))
  {
    var (t1, created) := Create(t, input, eventId, now);
    match created
    case Failure(error) => (t1, Failure(error))
    case Success(e) =>
      var (t2, added) := AddParticipant(t1, NewParticipant(e.id, subject, role), participantId, now);
      match added
      case Failure(error) => (t2, Failure(error))
      case Success(p) => (t2, Success((e, [p])))
  }

  /** `createMarriage`: the event, then the husband's participant, then the
      wife's, each read back after its insert. A refused insert rejects the
      call and leaves the rows written before it. */
  function CreateMarriage(t: Tree, input: NewEvent, husband: string, wife: string, husbandRole: string, wifeRole: string,
                          eventId: string, husbandPid: string, wifePid: string, now: int)
    : (r: (Tree, Result<(EventRow, seq<ParticipantRow>)>))
    ensures var e := NewRow(input, eventId, now);
            var h := ParticipantRow(husbandPid, now, eventId, husband, husbandRole);
            var w := ParticipantRow(wifePid, now, eventId, wife, wifeRole);
      && (r.1.Success? <==> EventAccepted(t, e) && JoinsEvent(t, h) && JoinsEvent(t, w)
                            && husbandPid != wifePid && Triple(h) != Triple(w))
      && (r.1.Success? ==> r.1.value == (e, [h, w])
                           && r.0 == t.(events := t.events + [e], participants := t.participants + [h, w]))
      && (r.1.Failure? ==> InsertError(r.1.error))
      && (!EventAccepted(t, e) ==> r.0 == t)
      && (EventAccepted(t, e) && !JoinsEvent(t, h) ==> r.0 == t.(events := t.events + [e]))
      && (EventAccepted(t, e) && JoinsEvent(t, h) && r.1.Failure? ==>
            r.0 == t.(events := t.events + [e], participants := t.participants + [h]))
  {
    var e := NewRow(input, eventId, now);
    var h := ParticipantRow(husbandPid, now, eventId, husband, husbandRole);
    var w := ParticipantRow(wifePid, now, eventId, wife, wifeRole);
    var (t1, created) := Create(t, input, eventId, now);
    match created
    case Failure(error) => (t1, Failure(error))
    case Success(ev) =>
      assert t1.participants == t.participants && t1.individuals == t.individuals && t1.roles == t.roles;
      var (t2, added) := AddParticipant(t1, NewParticipant(ev.id, husband, husbandRole), husbandPid, now);
      match added
      case Failure(error) => (t2, Failure(error))
      case Success(_) =>
        JoinsAfter(t, h, w);
        assert t2.participants == t.participants + [h] && t.participants + [h] + [w] == t.participants + [h, w];
        var (t3, joined) := AddParticipant(t2, NewParticipant(ev.id, wife, wifeRole), wifePid, now);
        match joined
        case Failure(error) => (t3, Failure(error))
        case Success(_) => (t3, Success((e, [h, w])))
  }

  /** `ORDER BY created_at`. */
  function OlderFirst(): (ParticipantRow, ParticipantRow) -> bool {
    (a: ParticipantRow, b: ParticipantRow) => a.createdAt <= b.createdAt
  }

  function EventIdOf(eventId: string): ParticipantRow -> bool {
    (p: ParticipantRow) => p.eventId == eventId
  }

  /** Partner of `CreateMarriage`: when every insert is accepted and the
      event is new, reading the event back with its participants gives what
      `createMarriage` returned, the husband before the wife. */
  lemma CreateMarriageReadsBack(t: Tree, input: NewEvent, husband: string, wife: string, husbandRole: string, wifeRole: string,
                                eventId: string, husbandPid: string, wifePid: string, now: int)
    requires EventAccepted(t, NewRow(input, eventId, now))
    requires husband in t.individuals && wife in t.individuals && husbandRole in t.roles && wifeRole in t.roles
    requires GetParticipantById(t, husbandPid).None? && GetParticipantById(t, wifePid).None? && husbandPid != wifePid
    requires husband != wife || husbandRole != wifeRole
    requires forall i :: 0 <= i < |t.participants| ==> t.participants[i].eventId != eventId
    ensures var r := CreateMarriage(t, input, husband, wife, husbandRole, wifeRole, eventId, husbandPid, wifePid, now);
      r.1.Success? && GetByIdWithParticipants(r.0, eventId) == Some((r.1.value.0, r.1.value.1))
  {
    var r := CreateMarriage(t, input, husband, wife, husbandRole, wifeRole, eventId, husbandPid, wifePid, now);
    var h := ParticipantRow(husbandPid, now, eventId, husband, husbandRole);
    var w := ParticipantRow(wifePid, now, eventId, wife, wifeRole);
    NoTripleOnNewEvent(t, h);
    NoTripleOnNewEvent(t, w);
    assert r.1.value.1 == [h, w];
    assert r.0.participants == t.participants + [h] + [w];
    TwoParticipantsListed(t.participants, r.0, h, w, eventId);
  }

  /** No triple of an event without participants is taken. */
  lemma NoTripleOnNewEvent(t: Tree, p: ParticipantRow)
    requires forall i :: 0 <= i < |t.participants| ==> t.participants[i].eventId != p.eventId
    ensures !TripleTaken(t, Triple(p), p.id)
  {
  }

  /** The unique index refuses the same spouse twice in the same role: the
      call is rejected after the event and the first participant are
      written. */
  lemma SameSpouseTwiceRefused(t: Tree, input: NewEvent, spouse: string, role: string,
                               eventId: string, husbandPid: string, wifePid: string, now: int)
    requires EventAccepted(t, NewRow(input, eventId, now))
    requires JoinsEvent(t, ParticipantRow(husbandPid, now, eventId, spouse, role))
    requires GetParticipantById(t, wifePid).None? && husbandPid != wifePid
    ensures var r := CreateMarriage(t, input, spouse, spouse, role, role, eventId, husbandPid, wifePid, now);
      && r.1 == Failure(ParticipantTaken)
      && r.0 == t.(events := t.events + [NewRow(input, eventId, now)],
                   participants := t.participants + [ParticipantRow(husbandPid, now, eventId, spouse, role)])
  {
    var h := ParticipantRow(husbandPid, now, eventId, spouse, role);
    var w := ParticipantRow(wifePid, now, eventId, spouse, role);
    var t2 := t.(events := t.events + [NewRow(input, eventId, now)], participants := t.participants + [h]);
    assert t2.participants[|t.participants|] == h;
    assert TripleTaken(t2, Triple(w), wifePid);
    assert GetParticipantById(t2, wifePid).None? by {
      assert forall i :: 0 <= i < |t.participants| ==> t2.participants[i] == t.participants[i];
    }
  }

  /** Two participants added at the same time to an event with none are
      listed in the order they were added. */
  lemma TwoParticipantsListed(ps: seq<ParticipantRow>, t: Tree, h: ParticipantRow, w: ParticipantRow, eventId: string)
    requires forall i :: 0 <= i < |ps| ==> ps[i].eventId != eventId
    requires t.participants == ps + [h] + [w]
    requires h.eventId == eventId && w.eventId == eventId && h.createdAt == w.createdAt
    ensures GetParticipants(t, eventId) == [h, w]
  {
    FilterTwo(ps, h, w, eventId);
    SortTwo(h, w);
  }

  lemma FilterTwo(ps: seq<ParticipantRow>, h: ParticipantRow, w: ParticipantRow, eventId: string)
    requires forall i :: 0 <= i < |ps| ==> ps[i].eventId != eventId
    requires h.eventId == eventId && w.eventId == eventId
    ensures Sorting.Filter(ps + [h] + [w], EventIdOf(eventId)) == [h, w]
  {
    Sorting.FilterNoneThenTwo(ps, h, w, EventIdOf(eventId));
  }

  lemma SortTwo(h: ParticipantRow, w: ParticipantRow)
    requires h.createdAt <= w.createdAt
    ensures Sorting.SortWith([h, w], OlderFirst()) == [h, w]
  {
    assert [h, w][1..] == [w];
    assert Sorting.SortWith([w], OlderFirst()) == [w];
  }

  /** Partner of `CreateWithSubject`: when both inserts are accepted and
      the event is new, it reads back with exactly its one participant. */
  lemma CreateWithSubjectReadsBack(t: Tree, input: NewEvent, subject: string, role: string,
                                   eventId: string, participantId: string, now: int)
    requires EventAccepted(t, NewRow(input, eventId, now))
    requires subject in t.individuals && role in t.roles && GetParticipantById(t, participantId).None?
    requires forall i :: 0 <= i < |t.participants| ==> t.participants[i].eventId != eventId
    ensures var r := CreateWithSubject(t, input, subject, role, eventId, participantId, now);
      r.1.Success? && GetByIdWithParticipants(r.0, eventId) == Some((r.1.value.0, r.1.value.1))
  {
    var r := CreateWithSubject(t, input, subject, role, eventId, participantId, now);
    var p := ParticipantRow(participantId, now, eventId, subject, role);
    NoTripleOnNewEvent(t, p);
    assert r.0.participants == t.participants + [p];
    Sorting.FilterNone(t.participants, EventIdOf(eventId));
    Sorting.FilterAppend(t.participants, p, EventIdOf(eventId));
    assert Sorting.Filter(r.0.participants, EventIdOf(eventId)) == [p];
    assert GetParticipants(r.0, eventId) == [p];
  }
}
