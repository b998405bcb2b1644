/** `formatEventsForPlace` in `src/api/places/utils.ts`: the events shown on
    a place's page, each with a one-line description naming the person in
    the role that matters for its type, sorted by date. Its input is the
    answer of `fetchEvents`, whose `type` field is the embedded event-type
    object `{ id, name }`. */
module PlaceEvents {
  import opened Wrappers
  import opened Text
  import Sorting
  import DisplayName
  import FetchJoins

  /** The value of `event.type` as a strict comparison with a string sees
      it: a string, or an object (never equal to any string). */
  datatype JsValue = JsString(s: string) | JsObject(ref: FetchJoins.Ref)

  /** `v === s` for a string literal `s`. */
  predicate StrictEquals(v: JsValue, s: string) {
    v.JsString? && v.s == s
  }

  /** The five event types that are shown. */
  datatype Kind = Birth | Death | Marriage | Baptism | Burial

  datatype Icon = BabyCarriage | Skull | HeartHandshake | Bible | Grave

  /** The chain of `if (event.type === …)` tests; `None` is `return null`. */
  function KindOf(v: JsValue): (r: Option<Kind>)
    ensures r == Some(Birth) <==> StrictEquals(v, "Birth")
    ensures r == Some(Death) <==> StrictEquals(v, "Death")
    ensures r == Some(Marriage) <==> StrictEquals(v, "Marriage")
    ensures r == Some(Baptism) <==> StrictEquals(v, "Baptism")
    ensures r == Some(Burial) <==> StrictEquals(v, "Burial")
    ensures v.JsObject? ==> r.None?
  {
    if StrictEquals(v, "Birth") then Some(Birth)
    else if StrictEquals(v, "Death") then Some(Death)
    else if StrictEquals(v, "Marriage") then Some(Marriage)
    else if StrictEquals(v, "Baptism") then Some(Baptism)
    else if StrictEquals(v, "Burial") then Some(Burial)
    else None
  }

  datatype PlaceEvent = PlaceEvent(
    id: string, date: Option<string>, place: FetchJoins.Ref, eventType: FetchJoins.Ref,
    description: string, icon: Icon)

  function HasRole(role: string): FetchJoins.Participant -> bool {
    (p: FetchJoins.Participant) => p.role == role
  }

  /** `displayName(participants.find(p => p.role === role))`: the first
      participant with the role, shown by the name fields of its own object;
      `displayName(undefined)` is "". */
  function NameWithRole(participants: seq<FetchJoins.Participant>, role: string): (r: string)
    ensures (forall i :: 0 <= i < |participants| ==> participants[i].role != role) ==> r == ""
  {
    match Sorting.FindFirst(participants, HasRole(role))
    case None => ""
    case Some(p) => DisplayName.Show(DisplayName.One(p.person.name), DisplayName.Full)
  }

  /** The shown event of a kept kind: the common fields copied, and the
      description and icon for that kind. */
  function Describe(e: FetchJoins.Event, k: Kind): (r: PlaceEvent)
    ensures r.id == e.id && r.date == e.date && r.place == e.place && r.eventType == e.eventType
    ensures k == Birth ==> r.description == "Birth of " + NameWithRole(e.participants, "Subject") && r.icon == BabyCarriage
    ensures k == Death ==> r.description == "Death of " + NameWithRole(e.participants, "Deceased") && r.icon == Skull
    ensures k == Marriage ==> (r.description == "Marriage of " + NameWithRole(e.participants, "Husband")
      + " and " + NameWithRole(e.participants, "Wife") && r.icon == HeartHandshake)
    ensures k == Baptism ==> r.description == "Baptism of " + NameWithRole(e.participants, "Subject") && r.icon == Bible
    ensures k == Burial ==> r.description == "Burial of " + NameWithRole(e.participants, "Deceased") && r.icon == Grave
  {
    var ps := e.participants;
    var (description, icon) := match k
      case Birth => ("Birth of " + NameWithRole(ps, "Subject"), BabyCarriage)
      case Death => ("Death of " + NameWithRole(ps, "Deceased"), Skull)
      case Marriage => ("Marriage of " + NameWithRole(ps, "Husband") + " and " + NameWithRole(ps, "Wife"), HeartHandshake)
      case Baptism => ("Baptism of " + NameWithRole(ps, "Subject"), Bible)
      case Burial => ("Burial of " + NameWithRole(ps, "Deceased"), Grave);
    PlaceEvent(e.id, e.date, e.place, e.eventType, description, icon)
  }

  // ---------------------------------------------------------------------
  // The map and filter, for a given reading of `event.type`
  // ---------------------------------------------------------------------

  /** How `event.type` is read: as written it is the embedded object; the
      corrected reading compares the type's name. */
  datatype Reading = AsObject | ByName

  function TypeValue(e: FetchJoins.Event, reading: Reading): JsValue {
    match reading
    case AsObject => JsObject(e.eventType)
    case ByName => JsString(e.eventType.name)
  }

  function Listed(reading: Reading): FetchJoins.Event -> bool {
    (e: FetchJoins.Event) => KindOf(TypeValue(e, reading)).Some?
  }

  /** `map(...)` then `filter(e => e !== null)`. */
  function Kept(events: seq<FetchJoins.Event>, reading: Reading): (r: seq<PlaceEvent>)
    ensures |r| <= |events|
    decreases |events|
  {
    if |events| == 0 then []
    else
      var rest := Kept(events[1..], reading);
      match KindOf(TypeValue(events[0], reading))
      case None => rest
      case Some(k) => [Describe(events[0], k)] + rest
  }

  /** Partner of `Kept`: the shown events are the events of a shown type, in
      input order, each described for its type. */
  lemma {:induction false} KeptDescribesListed(events: seq<FetchJoins.Event>, reading: Reading)
    ensures var listed := Sorting.Filter(events, Listed(reading));
      var r := Kept(events, reading);
      |r| == |listed|
      && forall i :: 0 <= i < |r| ==>
           KindOf(TypeValue(listed[i], reading)).Some?
           && r[i] == Describe(listed[i], KindOf(TypeValue(listed[i], reading)).value)
    decreases |events|
  {
    if |events| > 0 {
      KeptDescribesListed(events[1..], reading);
      var listed := Sorting.Filter(events, Listed(reading));
      var tail := Sorting.Filter(events[1..], Listed(reading));
      var rest := Kept(events[1..], reading);
      match KindOf(TypeValue(events[0], reading))
      case None =>
        assert listed == tail;
      case Some(k) =>
        assert listed == [events[0]] + tail;
        assert Kept(events, reading) == [Describe(events[0], k)] + rest;
    }
  }

  // ---------------------------------------------------------------------
  // The date order
  // ---------------------------------------------------------------------

  /** `a.date?.localeCompare(b.date ?? "") ?? 0`. */
  function DateCompare(a: PlaceEvent, b: PlaceEvent): (r: int)
    ensures a.date.None? ==> r == 0
    ensures a.date.Some? && b.date.Some? ==> (r <= 0 <==> LexLe(a.date.value, b.date.value))
  {
    CompareOptional(a.date, b.date)
  }

  function DateLe(): (PlaceEvent, PlaceEvent) -> bool {
    (a: PlaceEvent, b: PlaceEvent) => DateCompare(a, b) <= 0
  }

  /** The comparator is not antisymmetric: an undated event compares equal
      to a dated one, which compares greater than it. */
  lemma DateCompareInconsistent(a: PlaceEvent, b: PlaceEvent)
    requires a.date.None? && b.date.Some? && b.date.value != ""
    ensures DateCompare(a, b) == 0 && DateCompare(b, a) > 0
  {
  }

  /** Read as "not after", the comparator is still a total preorder: an
      undated event (or one dated "") is not after anything. */
  lemma DateLeTotalTransitive()
    ensures Sorting.Total(DateLe()) && Sorting.Transitive(DateLe())
  {
    forall a: PlaceEvent, b: PlaceEvent, c: PlaceEvent
      ensures DateLe()(a, b) || DateLe()(b, a)
      ensures DateLe()(a, b) && DateLe()(b, c) ==> DateLe()(a, c)
    {
      CompareOptionalPreorder(a.date, b.date, c.date);
    }
  }

  /** `formatEventsForPlace`, for a reading of `event.type`. */
  function Format(events: seq<FetchJoins.Event>, reading: Reading): (r: seq<PlaceEvent>)
    ensures multiset(r) == multiset(Kept(events, reading))
  {
    Sorting.SortWith(Kept(events, reading), DateLe())
  }

  /** The result is in date order: dated events in code-point order of their
      dates, and no undated event after one with a non-empty date. */
  lemma FormatSorted(events: seq<FetchJoins.Event>, reading: Reading, i: int, j: int)
    requires 0 <= i < j < |Format(events, reading)|
    ensures var r := Format(events, reading);
      (r[i].date.Some? && r[j].date.Some? ==> LexLe(r[i].date.value, r[j].date.value))
      && (r[j].date.None? ==> r[i].date.None? || r[i].date.value == "")
  {
    DateLeTotalTransitive();
    Sorting.SortWithSorted(Kept(events, reading), DateLe());
    var r := Format(events, reading);
    assert DateLe()(r[i], r[j]);
    if r[j].date.None? && r[i].date.Some? {
      assert LexLe(r[i].date.value, "");
    }
  }

  // ---------------------------------------------------------------------
  // As written against corrected
  // ---------------------------------------------------------------------

  /** As written, `event.type` is the type object, never `===` to a type
      name, so every event maps to `null` and the list is always empty. */
  lemma AsWrittenAlwaysEmpty(events: seq<FetchJoins.Event>)
    ensures Format(events, AsObject) == []
  {
    Sorting.FilterNone(events, Listed(AsObject));
    KeptDescribesListed(events, AsObject);
  }

  /** Corrected, the events kept are exactly those of the five types, in
      the order given before sorting. */
  lemma {:induction false} ByNameKeepsTheFiveTypes(events: seq<FetchJoins.Event>)
    ensures forall e :: e in Sorting.Filter(events, Listed(ByName)) <==>
      e in events && e.eventType.name in ["Birth", "Death", "Marriage", "Baptism", "Burial"]
  {
  }

  /** Any birth at the place: the code as written shows nothing, while the
      corrected reading shows it as "Birth of " and its subject's name. */
  lemma BirthShownOnlyByName(birth: FetchJoins.Event)
    requires birth.eventType.name == "Birth"
    ensures Format([birth], AsObject) == []
    ensures Format([birth], ByName) == [Describe(birth, Birth)]
    ensures Format([birth], ByName)[0].description == "Birth of " + NameWithRole(birth.participants, "Subject")
  {
    AsWrittenAlwaysEmpty([birth]);
    var kept := Kept([birth], ByName);
    assert kept == [Describe(birth, Birth)];
    assert Format([birth], ByName) == kept;
  }
}
