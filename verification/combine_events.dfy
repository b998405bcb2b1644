/** `fetchAndCombineEvents` in `src/api/individuals/utils/fetchEvents.ts`:
    the events of each individual, gathered from the rows naming them as a
    subject and then from the rows naming them as a participant, an event
    of the second kind being added only if the individual does not list it
    yet. The two queries' rows are inputs. */
module CombineEvents {
  import opened Wrappers
  import Sorting

  datatype Ref = Ref(id: string, name: string)

  /** A to-one relation embedded in a response: `null`, one object, or an
      array of objects. */
  datatype Embedded<T> = Null | Object(value: T) | Array(items: seq<T>)

  /** `Array.isArray(x) ? x[0] : x`: an empty array gives nothing. */
  function First<T>(e: Embedded<T>): (r: Option<T>)
    ensures r.Some? <==> e.Object? || (e.Array? && |e.items| > 0)
    ensures e.Object? ==> r == Some(e.value)
    ensures e.Array? && |e.items| > 0 ==> r == Some(e.items[0])
  {
    match e
    case Null => None
    case Object(v) => Some(v)
    case Array(items) => if |items| > 0 then Some(items[0]) else None
  }

  datatype EventResponse = EventResponse(
    id: string, date: Option<string>, typeId: string, placeId: Option<string>,
    places: Embedded<Ref>, eventTypes: Embedded<Ref>)

  /** An entry of `individual_events`. */
  datatype IndividualEvent = IndividualEvent(
    id: string, date: Option<string>, typeId: string, placeId: Option<string>,
    place: Option<Ref>, eventType: Option<Ref>)

  /** `normalizeEventData`. */
  function Normalize(e: EventResponse): IndividualEvent {
    IndividualEvent(e.id, e.date, e.typeId, e.placeId, First(e.places), First(e.eventTypes))
  }

  /** An embedded place or type reads the same whether it comes as an
      object or as an array whose first element it is; the scalar columns
      are copied. */
  lemma NormalizeArrayOrObject(e: EventResponse, place: Ref, eventType: Ref, morePlaces: seq<Ref>, moreTypes: seq<Ref>)
    ensures Normalize(e.(places := Array([place] + morePlaces), eventTypes := Array([eventType] + moreTypes)))
            == Normalize(e.(places := Object(place), eventTypes := Object(eventType)))
    ensures Normalize(e).id == e.id && Normalize(e).date == e.date
            && Normalize(e).typeId == e.typeId && Normalize(e).placeId == e.placeId
  {
  }

  /** An `event_subjects` or `event_participants` row with its event. */
  datatype Link = Link(individualId: string, events: Embedded<EventResponse>)

  function EventsOf(l: Link): seq<EventResponse> {
    match l.events
    case Null => []
    case Object(e) => [e]
    case Array(es) => es
  }

  function NormalizeF(): EventResponse -> IndividualEvent {
    (e: EventResponse) => Normalize(e)
  }

  function Listed(m: map<string, seq<IndividualEvent>>, id: string): seq<IndividualEvent> {
    if id in m then m[id] else []
  }

  // ---------------------------------------------------------------------
  // The merge
  // ---------------------------------------------------------------------

  /** `processSubjectEvents`: every event of every row is appended to its
      individual's list. */
  function ProcessSubjects(links: seq<Link>, m: map<string, seq<IndividualEvent>>): map<string, seq<IndividualEvent>>
    decreases |links|
  {
    if |links| == 0 then m
    else
      var before := ProcessSubjects(links[..|links| - 1], m);
      var l := links[|links| - 1];
      before[l.individualId := Listed(before, l.individualId) + Sorting.Map(EventsOf(l), NormalizeF())]
  }

  function IdIs(id: string): IndividualEvent -> bool {
    (x: IndividualEvent) => x.id == id
  }

  /** Appends each event whose id is not listed yet (`find` by id). */
  function AppendNew(listed: seq<IndividualEvent>, events: seq<EventResponse>): seq<IndividualEvent>
    decreases |events|
  {
    if |events| == 0 then listed
    else
      var before := AppendNew(listed, events[..|events| - 1]);
      var e := events[|events| - 1];
      if Sorting.FindFirst(before, IdIs(e.id)).Some? then before else before + [Normalize(e)]
  }

  /** `processParticipantEvents`. */
  function ProcessParticipants(links: seq<Link>, m: map<string, seq<IndividualEvent>>): map<string, seq<IndividualEvent>>
    decreases |links|
  {
    if |links| == 0 then m
    else
      var before := ProcessParticipants(links[..|links| - 1], m);
      var l := links[|links| - 1];
      before[l.individualId := AppendNew(Listed(before, l.individualId), EventsOf(l))]
  }

  /** `fetchAndCombineEvents`: subjects first, then participants. */
  function Combine(subjects: seq<Link>, participants: seq<Link>): map<string, seq<IndividualEvent>> {
    ProcessParticipants(participants, ProcessSubjects(subjects, map[]))
  }

  // ---------------------------------------------------------------------
  // The same lists, individual by individual
  // ---------------------------------------------------------------------

  /** The events of an individual's rows, row by row. */
  function EventsFor(links: seq<Link>, id: string): seq<EventResponse>
    decreases |links|
  {
    if |links| == 0 then []
    else
      var l := links[|links| - 1];
      EventsFor(links[..|links| - 1], id) + (if l.individualId == id then EventsOf(l) else [])
  }

  predicate Mentions(links: seq<Link>, id: string) {
    exists l :: l in links && l.individualId == id
  }

  /** After the subject rows, an individual has a list when it had one or a
      row names it. */
  lemma {:induction false} ProcessSubjectsKeys(links: seq<Link>, m: map<string, seq<IndividualEvent>>, id: string)
    ensures id in ProcessSubjects(links, m) <==> id in m || Mentions(links, id)
    decreases |links|
  {
    if |links| > 0 {
      var init := links[..|links| - 1];
      ProcessSubjectsKeys(init, m, id);
      assert links == init + [links[|links| - 1]];
    }
  }

  /** After the subject rows, an individual's list is the one it had
      followed by the events of its rows, normalised, in row order. */
  lemma {:induction false} ProcessSubjectsListed(links: seq<Link>, m: map<string, seq<IndividualEvent>>, id: string)
    ensures Listed(ProcessSubjects(links, m), id) == Listed(m, id) + Sorting.Map(EventsFor(links, id), NormalizeF())
    decreases |links|
  {
    if |links| > 0 {
      var init := links[..|links| - 1];
      var l := links[|links| - 1];
      var before := ProcessSubjects(init, m);
      ProcessSubjectsListed(init, m, id);
      var mine := if l.individualId == id then EventsOf(l) else [];
      Sorting.MapConcat(EventsFor(init, id), mine, NormalizeF());
      assert EventsFor(links, id) == EventsFor(init, id) + mine;
      if l.individualId == id {
        assert Listed(ProcessSubjects(links, m), id) == Listed(before, id) + Sorting.Map(mine, NormalizeF());
      } else {
        assert Sorting.Map(mine, NormalizeF()) == [];
        assert Listed(ProcessSubjects(links, m), id) == Listed(before, id);
      }
    }
  }

  lemma {:induction false} AppendNewConcat(listed: seq<IndividualEvent>, a: seq<EventResponse>, b: seq<EventResponse>)
    ensures AppendNew(listed, a + b) == AppendNew(AppendNew(listed, a), b)
    decreases |b|
  {
    if |b| == 0 {
      assert a + b == a;
    } else {
      var ab := a + b;
      assert ab[..|ab| - 1] == a + b[..|b| - 1];
      assert ab[|ab| - 1] == b[|b| - 1];
      AppendNewConcat(listed, a, b[..|b| - 1]);
    }
  }

  /** After the participant rows, an individual has a list when it had one
      or a row names it. */
  lemma {:induction false} ProcessParticipantsKeys(links: seq<Link>, m: map<string, seq<IndividualEvent>>, id: string)
    ensures id in ProcessParticipants(links, m) <==> id in m || Mentions(links, id)
    decreases |links|
  {
    if |links| > 0 {
      var init := links[..|links| - 1];
      ProcessParticipantsKeys(init, m, id);
      assert links == init + [links[|links| - 1]];
    }
  }

  /** After the participant rows, an individual's list is the one it had
      with the events of its rows appended when new. */
  lemma {:induction false} ProcessParticipantsListed(links: seq<Link>, m: map<string, seq<IndividualEvent>>, id: string)
    ensures Listed(ProcessParticipants(links, m), id) == AppendNew(Listed(m, id), EventsFor(links, id))
    decreases |links|
  {
    if |links| > 0 {
      var init := links[..|links| - 1];
      var l := links[|links| - 1];
      var before := ProcessParticipants(init, m);
      ProcessParticipantsListed(init, m, id);
      if l.individualId == id {
        AppendNewConcat(Listed(m, id), EventsFor(init, id), EventsOf(l));
        assert Listed(ProcessParticipants(links, m), id) == AppendNew(Listed(before, id), EventsOf(l));
      } else {
        assert EventsFor(links, id) == EventsFor(init, id) + [] == EventsFor(init, id);
        assert Listed(ProcessParticipants(links, m), id) == Listed(before, id);
      }
    }
  }

  /** Partner of `Combine`: every individual named by a row gets a list
      (possibly empty), and that list is its subject events, normalised, in
      row order, followed by its participant events not listed yet. */
  lemma CombinePerIndividual(subjects: seq<Link>, participants: seq<Link>, id: string)
    ensures var r := Combine(subjects, participants);
      (id in r <==> Mentions(subjects, id) || Mentions(participants, id))
      && Listed(r, id) == AppendNew(Sorting.Map(EventsFor(subjects, id), NormalizeF()), EventsFor(participants, id))
  {
    var empty: map<string, seq<IndividualEvent>> := map[];
    var afterSubjects := ProcessSubjects(subjects, empty);
    var own := Sorting.Map(EventsFor(subjects, id), NormalizeF());
    ProcessSubjectsKeys(subjects, empty, id);
    ProcessSubjectsListed(subjects, empty, id);
    assert Listed(empty, id) == [];
    assert Listed(afterSubjects, id) == own by {
      assert [] + own == own;
    }
    ProcessParticipantsKeys(participants, afterSubjects, id);
    ProcessParticipantsListed(participants, afterSubjects, id);
  }

  // ---------------------------------------------------------------------
  // Appending only new events
  // ---------------------------------------------------------------------

  predicate DistinctIds(s: seq<IndividualEvent>) {
    forall i, j :: 0 <= i < j < |s| ==> s[i].id != s[j].id
  }

  /** The list already there stays in front. */
  lemma {:induction false} AppendNewKeepsListed(listed: seq<IndividualEvent>, events: seq<EventResponse>)
    ensures |AppendNew(listed, events)| >= |listed| && AppendNew(listed, events)[..|listed|] == listed
    decreases |events|
  {
    if |events| > 0 {
      AppendNewKeepsListed(listed, events[..|events| - 1]);
    }
  }

  /** Every event offered ends up listed under its id. */
  lemma {:induction false} AppendNewCovers(listed: seq<IndividualEvent>, events: seq<EventResponse>, i: int)
    requires 0 <= i < |events|
    ensures exists x :: x in AppendNew(listed, events) && x.id == events[i].id
    decreases |events|
  {
    var init := events[..|events| - 1];
    var e := events[|events| - 1];
    var before := AppendNew(listed, init);
    if i < |events| - 1 {
      AppendNewCovers(listed, init, i);
      var x :| x in before && x.id == init[i].id;
      assert x in AppendNew(listed, events);
    } else if Sorting.FindFirst(before, IdIs(e.id)).Some? {
      var x := Sorting.FindFirst(before, IdIs(e.id)).value;
      assert x in AppendNew(listed, events);
    } else {
      assert Normalize(e) in AppendNew(listed, events);
    }
  }

  /** Nothing is listed that was neither there nor offered. */
  lemma {:induction false} AppendNewFrom(listed: seq<IndividualEvent>, events: seq<EventResponse>)
    ensures forall x :: x in AppendNew(listed, events) ==> x in listed || exists e :: e in events && x == Normalize(e)
    decreases |events|
  {
    if |events| > 0 {
      var init := events[..|events| - 1];
      AppendNewFrom(listed, init);
      assert forall e :: e in init ==> e in events;
    }
  }

  /** Ids that were distinct stay distinct. */
  lemma {:induction false} AppendNewDistinct(listed: seq<IndividualEvent>, events: seq<EventResponse>)
    requires DistinctIds(listed)
    ensures DistinctIds(AppendNew(listed, events))
    decreases |events|
  {
    if |events| > 0 {
      var init := events[..|events| - 1];
      var e := events[|events| - 1];
      AppendNewDistinct(listed, init);
      var before := AppendNew(listed, init);
      if Sorting.FindFirst(before, IdIs(e.id)).None? {
        var r := before + [Normalize(e)];
        forall i, j | 0 <= i < j < |r|
          ensures r[i].id != r[j].id
        {
          if j == |before| {
            assert !IdIs(e.id)(before[i]);
          }
        }
      }
    }
  }

  /** An individual's participant events never repeat an id, and repeat no
      subject event: with distinct subject events, the whole list has
      distinct ids. */
  lemma CombineDistinct(subjects: seq<Link>, participants: seq<Link>, id: string)
    requires DistinctIds(Sorting.Map(EventsFor(subjects, id), NormalizeF()))
    ensures DistinctIds(Listed(Combine(subjects, participants), id))
  {
    CombinePerIndividual(subjects, participants, id);
    AppendNewDistinct(Sorting.Map(EventsFor(subjects, id), NormalizeF()), EventsFor(participants, id));
  }
}
