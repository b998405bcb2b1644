/** The joins of `src/api/families/fetchFamilies.ts` and
    `src/api/events/fetchEvents.ts`: rows of one query matched by id with the
    individuals a second lookup returns, and the zero-padded GEDCOM ids shown
    for families and events. The answers of the queries and of the
    individuals lookup are inputs. */
module FetchJoins {
  import opened Wrappers
  import opened Text
  import Sorting
  import DisplayName

  // ---------------------------------------------------------------------
  // GEDCOM ids
  // ---------------------------------------------------------------------

  /** `` `${prefix}-${n.toString().padStart(4, "0")}` ``. */
  function GedcomText(prefix: string, n: int): (r: string)
    ensures StartsWith(r, prefix + "-")
    ensures |r| >= |prefix| + 5
  {
    prefix + "-" + PadStart(IntToString(n), 4, '0')
  }

  /** For a non-negative id, what follows the dash is the number's digits
      padded with zeros to at least four: at least four digits, reading back
      as the number, and no zero in front of a number that needs more. */
  lemma GedcomTextDigits(prefix: string, n: nat)
    ensures var d := GedcomText(prefix, n)[|prefix| + 1..];
      AllDigits(d) && DigitsValue(d) == n && |d| >= 4
      && (|d| > 4 ==> d[0] != '0')
  {
    var d := GedcomText(prefix, n)[|prefix| + 1..];
    assert d == PadStart(NatToString(n), 4, '0');
    PadStartKeepsValue(n, 4);
  }

  /** Different non-negative ids never share a GEDCOM text. */
  lemma GedcomTextInjective(prefix: string, n: nat, m: nat)
    requires GedcomText(prefix, n) == GedcomText(prefix, m)
    ensures n == m
  {
    GedcomTextDigits(prefix, n);
    GedcomTextDigits(prefix, m);
  }

  /** An event's GEDCOM id: `gedcom_id?.toString()` is `undefined` for a null
      id, and the template prints that word. */
  function EventGedcomText(n: Option<int>): string {
    match n
    case None => "E-undefined"
    case Some(v) => GedcomText("E", v)
  }

  /** Partner of `EventGedcomText`: every event's text starts with "E-", and
      events with different non-negative or missing GEDCOM ids never share
      one, since "undefined" is no run of digits. */
  lemma EventGedcomTextInjective(n: Option<int>, m: Option<int>)
    requires (n.Some? ==> n.value >= 0) && (m.Some? ==> m.value >= 0)
    ensures StartsWith(EventGedcomText(n), "E-")
    ensures EventGedcomText(n) == EventGedcomText(m) ==> n == m
  {
    if EventGedcomText(n) == EventGedcomText(m) {
      if n.Some? && m.Some? {
        GedcomTextInjective("E", n.value, m.value);
      } else if n.Some? {
        GedcomTextDigits("E", n.value);
      } else if m.Some? {
        GedcomTextDigits("E", m.value);
      }
    }
  }

  // ---------------------------------------------------------------------
  // Individuals
  // ---------------------------------------------------------------------

  /** An individual as the individuals lookup returns it: its id and the
      name fields `displayName` reads off the object itself. */
  datatype Person = Person(id: string, name: DisplayName.NameParts)

  function HasId(id: Option<string>): Person -> bool {
    (p: Person) => id == Some(p.id)
  }

  /** `people.find(p => p.id === id)`: a null id matches nobody. */
  function Lookup(people: seq<Person>, id: Option<string>): (r: Option<Person>)
    ensures r.Some? ==> r.value in people && id == Some(r.value.id)
    ensures r.None? <==> id.None? || forall p :: p in people ==> p.id != id.value
  {
    Sorting.FindFirst(people, HasId(id))
  }

  // ---------------------------------------------------------------------
  // Families
  // ---------------------------------------------------------------------

  /** A `families` row as selected: `id, gedcom_id, husband_id, wife_id`. */
  datatype FamilyRecord = FamilyRecord(id: string, gedcomId: Option<int>, husbandId: Option<string>, wifeId: Option<string>)

  /** A `family_children` row as selected. */
  datatype ChildLink = ChildLink(individualId: string, familyId: string)

  datatype Family = Family(id: string, gedcomId: string, husband: Option<Person>, wife: Option<Person>, children: seq<Person>)

  function HasSpouseIn(ids: seq<string>): FamilyRecord -> bool {
    (f: FamilyRecord) => (f.husbandId.Some? && f.husbandId.value in ids) || (f.wifeId.Some? && f.wifeId.value in ids)
  }

  /** The families query: every family of the tree, or with `individualIds`
      given, the families whose husband or wife is among them. */
  function SelectFamilies(rows: seq<FamilyRecord>, individualIds: Option<seq<string>>): (r: seq<FamilyRecord>)
    ensures individualIds.None? ==> r == rows
    ensures individualIds.Some? ==> forall f :: f in r <==> (f in rows
      && ((f.husbandId.Some? && f.husbandId.value in individualIds.value)
          || (f.wifeId.Some? && f.wifeId.value in individualIds.value)))
  {
    match individualIds
    case None => rows
    case Some(ids) => Sorting.Filter(rows, HasSpouseIn(ids))
  }

  function PresentIds(id: Option<string>): seq<string> {
    if id.Some? then [id.value] else []
  }

  /** `flatMap(f => [f.husband_id, f.wife_id]).filter(id => id !== null)`. */
  function SpouseIds(families: seq<FamilyRecord>): (r: seq<string>)
    ensures forall id :: id in r <==> exists f :: f in families && (f.husbandId == Some(id) || f.wifeId == Some(id))
    decreases |families|
  {
    if |families| == 0 then []
    else
      var rest := SpouseIds(families[1..]);
      assert forall f :: f in families <==> f == families[0] || f in families[1..];
      PresentIds(families[0].husbandId) + PresentIds(families[0].wifeId) + rest
  }

  function ChildIdOf(): ChildLink -> string {
    (l: ChildLink) => l.individualId
  }

  /** The ids handed to the individuals lookup: the distinct spouse ids, then
      the distinct child ids. An individual who is both appears twice. */
  function MemberIds(families: seq<FamilyRecord>, links: seq<ChildLink>): (r: seq<string>)
    ensures forall id :: id in r <==>
      (exists f :: f in families && (f.husbandId == Some(id) || f.wifeId == Some(id)))
      || (exists l :: l in links && l.individualId == id)
  {
    var children := Sorting.Map(links, ChildIdOf());
    assert forall id :: id in children <==> exists l :: l in links && l.individualId == id by {
      forall id | id in children ensures exists l :: l in links && l.individualId == id {
        var i :| 0 <= i < |children| && children[i] == id;
        assert links[i] in links;
      }
    }
    Sorting.Dedupe(SpouseIds(families)) + Sorting.Dedupe(children)
  }

  function ChildOf(links: seq<ChildLink>, familyId: string): Person -> bool {
    (p: Person) => ChildLink(p.id, familyId) in links
  }

  /** One family of the answer: its spouses looked up by id, and as children
      the individuals, in lookup order, a `family_children` row ties to it. */
  function FamilyOf(f: FamilyRecord, n: int, people: seq<Person>, links: seq<ChildLink>): (r: Family)
    ensures r.id == f.id && r.gedcomId == GedcomText("F", n)
    ensures r.husband == Lookup(people, f.husbandId) && r.wife == Lookup(people, f.wifeId)
    ensures forall p :: p in r.children <==> p in people && ChildLink(p.id, f.id) in links
    ensures Sorting.IsSublist(r.children, people)
  {
    Sorting.FilterIsSublist(people, ChildOf(links, f.id));
    Family(f.id, GedcomText("F", n), Lookup(people, f.husbandId), Lookup(people, f.wifeId),
           Sorting.Filter(people, ChildOf(links, f.id)))
  }

  function NoGedcomId(): FamilyRecord -> bool {
    (f: FamilyRecord) => f.gedcomId.None?
  }

  /** The mapping over the families: `gedcom_id.toString()` throws on a
      null id, which ends the whole call. Without one, every row is mapped
      (and `GetOr` never falls back). */
  function FetchFamilies(families: seq<FamilyRecord>, people: seq<Person>, links: seq<ChildLink>): (r: Result<seq<Family>>)
    ensures r.Failure? <==> exists i :: 0 <= i < |families| && families[i].gedcomId.None?
    ensures r.Success? ==> (|r.value| == |families|
      && forall i :: 0 <= i < |families| ==> r.value[i] == FamilyOf(families[i], families[i].gedcomId.value, people, links))
  {
    if Sorting.FindFirst(families, NoGedcomId()).Some? then Failure("gedcom_id is null")
    else Success(Sorting.Map(families, (f: FamilyRecord) => FamilyOf(f, f.gedcomId.GetOr(0), people, links)))
  }

  /** Partner of `FetchFamilies`: one family per row and in row order, each
      with the row's id, the spouses the lookup has (none for a null id or an
      individual the lookup lacks), and exactly the linked children. */
  lemma FetchedFamily(families: seq<FamilyRecord>, people: seq<Person>, links: seq<ChildLink>, i: int)
    requires FetchFamilies(families, people, links).Success? && 0 <= i < |families|
    ensures var fam := FetchFamilies(families, people, links).value[i];
      fam.id == families[i].id
      && StartsWith(fam.gedcomId, "F-")
      && (fam.husband.Some? <==> families[i].husbandId.Some? && exists p :: p in people && p.id == families[i].husbandId.value)
      && (fam.wife.Some? <==> families[i].wifeId.Some? && exists p :: p in people && p.id == families[i].wifeId.value)
      && (forall p :: p in fam.children <==> p in people && ChildLink(p.id, families[i].id) in links)
  {
    var fam := FetchFamilies(families, people, links).value[i];
    assert fam == FamilyOf(families[i], families[i].gedcomId.value, people, links);
    assert StartsWith(GedcomText("F", families[i].gedcomId.value), "F" + "-");
  }

  // ---------------------------------------------------------------------
  // Events
  // ---------------------------------------------------------------------

  /** An embedded `{ id, name }` object: an event type or a place. */
  datatype Ref = Ref(id: string, name: string)

  /** An `event_participants` row with its role's name. */
  datatype ParticipantLink = ParticipantLink(individualId: string, roleName: string)

  /** An `events` row as selected, with its embedded type, place and
      participants. */
  datatype EventRecord = EventRecord(
    id: string, date: Option<string>, gedcomId: Option<int>,
    eventType: Ref, place: Ref, participants: seq<ParticipantLink>)

  /** A participant of the answer: the individual's fields plus `role`. */
  datatype Participant = Participant(person: Person, role: string)

  datatype Event = Event(
    id: string, date: Option<string>, gedcomId: string,
    place: Ref, eventType: Ref, participants: seq<Participant>)

  function LinkIdOf(): ParticipantLink -> string {
    (l: ParticipantLink) => l.individualId
  }

  /** The participant ids of every event, in order, repeats kept. */
  function ParticipantIds(events: seq<EventRecord>): (r: seq<string>)
    ensures forall id :: id in r <==> exists e :: e in events && exists l :: l in e.participants && l.individualId == id
    decreases |events|
  {
    if |events| == 0 then []
    else
      var own := Sorting.Map(events[0].participants, LinkIdOf());
      assert forall id :: id in own <==> exists l :: l in events[0].participants && l.individualId == id by {
        forall id | id in own ensures exists l :: l in events[0].participants && l.individualId == id {
          var i :| 0 <= i < |own| && own[i] == id;
          assert events[0].participants[i] in events[0].participants;
        }
      }
      assert forall e :: e in events <==> e == events[0] || e in events[1..];
      own + ParticipantIds(events[1..])
  }

  function Found(people: seq<Person>): ParticipantLink -> bool {
    (l: ParticipantLink) => Lookup(people, Some(l.individualId)).Some?
  }

  /** The participants `map` then `filter(p => p !== null)`: each link whose
      individual the lookup has, with that individual and the role's name. */
  function JoinParticipants(links: seq<ParticipantLink>, people: seq<Person>): (r: seq<Participant>)
    ensures |r| <= |links|
    ensures forall x :: x in r ==> x.person in people && ParticipantLink(x.person.id, x.role) in links
    decreases |links|
  {
    if |links| == 0 then []
    else
      var rest := JoinParticipants(links[1..], people);
      assert forall l :: l in links[1..] ==> l in links;
      match Lookup(people, Some(links[0].individualId))
      case None => rest
      case Some(p) => [Participant(p, links[0].roleName)] + rest
  }

  function IdAndRole(x: Participant): (string, string) {
    (x.person.id, x.role)
  }

  function LinkIdAndRole(l: ParticipantLink): (string, string) {
    (l.individualId, l.roleName)
  }

  /** Partner of `JoinParticipants`: the kept participants are the links whose
      individual was found, in link order, each with that link's id and role;
      and each carries the individual the lookup gives for its id. */
  lemma {:induction false} JoinParticipantsKeepsFound(links: seq<ParticipantLink>, people: seq<Person>)
    ensures var r := JoinParticipants(links, people);
      Sorting.Map(r, IdAndRole) == Sorting.Map(Sorting.Filter(links, Found(people)), LinkIdAndRole)
      && forall x :: x in r ==> Lookup(people, Some(x.person.id)) == Some(x.person)
    decreases |links|
  {
    if |links| > 0 {
      JoinParticipantsKeepsFound(links[1..], people);
      var rest := JoinParticipants(links[1..], people);
      var r := JoinParticipants(links, people);
      Sorting.FilterCons(links[0], links[1..], Found(people));
      assert [links[0]] + links[1..] == links;
      match Lookup(people, Some(links[0].individualId))
      case None => {
      }
      case Some(p) => {
        assert r == [Participant(p, links[0].roleName)] + rest;
        Sorting.MapConcat([Participant(p, links[0].roleName)], rest, IdAndRole);
        Sorting.MapConcat([links[0]], Sorting.Filter(links[1..], Found(people)), LinkIdAndRole);
      }
    }
  }

  /** With every individual found, nobody is dropped. */
  lemma AllFoundKeepsEveryone(links: seq<ParticipantLink>, people: seq<Person>)
    requires forall l :: l in links ==> exists p :: p in people && p.id == l.individualId
    ensures |JoinParticipants(links, people)| == |links|
  {
    JoinParticipantsKeepsFound(links, people);
    forall l | l in links ensures Found(people)(l) {
      var p :| p in people && p.id == l.individualId;
    }
    Sorting.FilterAll(links, Found(people));
  }

  /** One event of the answer. */
  function EventOf(e: EventRecord, people: seq<Person>): (r: Event)
    ensures r.id == e.id && r.date == e.date && r.place == e.place && r.eventType == e.eventType
    ensures r.gedcomId == EventGedcomText(e.gedcomId)
    ensures r.participants == JoinParticipants(e.participants, people)
  {
    Event(e.id, e.date, EventGedcomText(e.gedcomId), e.place, e.eventType, JoinParticipants(e.participants, people))
  }

  /** `fetchEvents`' mapping: exactly one result per event row, in row order. */
  function FetchEvents(events: seq<EventRecord>, people: seq<Person>): (r: seq<Event>)
    ensures |r| == |events|
    ensures forall i :: 0 <= i < |events| ==> r[i] == EventOf(events[i], people)
  {
    Sorting.Map(events, (e: EventRecord) => EventOf(e, people))
  }
}
