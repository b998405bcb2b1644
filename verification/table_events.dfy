/** The events table (`src/components/tables/TableEvents/TableEvents.tsx`):
    the events fetched, narrowed by type and by a search on the title, and
    sorted by date. */
module TableEvents {
  import opened Wrappers
  import opened Text
  import Sorting

  /** An event as the table reads it: `type.id`, `title` and `date`. */
  datatype Event = Event(id: string, title: string, date: Option<string>, typeId: string)

  /** `date_asc` and `date_desc`, the orders the toolbar offers. */
  datatype Mode = DateAsc | DateDesc

  function OfType(eventType: string): Event -> bool {
    (e: Event) => e.typeId == eventType
  }

  /** `event.title.toLowerCase().includes(search.toLowerCase())`. */
  function Matching(search: string): Event -> bool {
    (e: Event) => Contains(Lower(e.title), Lower(search))
  }

  /** The events kept before sorting: of the type chosen (unless "all")
      and whose title contains the search, ignoring case (when there is
      one). */
  function Kept(events: seq<Event>, eventType: string, search: string): (r: seq<Event>)
    ensures forall x :: x in r <==>
      x in events && (eventType == "all" || x.typeId == eventType) && (search == "" || Contains(Lower(x.title), Lower(search)))
  {
    var typed := if eventType != "all" then Sorting.Filter(events, OfType(eventType)) else events;
    if search != "" then Sorting.Filter(typed, Matching(search)) else typed
  }

  /** `a.date?.localeCompare(b.date ?? "") ?? 0 <= 0` for `date_asc`, with
      the operands swapped for `date_desc`. */
  function DateLe(mode: Mode): (Event, Event) -> bool {
    match mode
    case DateAsc => (a: Event, b: Event) => CompareOptional(a.date, b.date) <= 0
    case DateDesc => (a: Event, b: Event) => CompareOptional(b.date, a.date) <= 0
  }

  lemma DateLeTotalTransitive(mode: Mode)
    ensures Sorting.Total(DateLe(mode)) && Sorting.Transitive(DateLe(mode))
  {
    forall a: Event, b: Event, c: Event
      ensures DateLe(mode)(a, b) || DateLe(mode)(b, a)
      ensures DateLe(mode)(a, b) && DateLe(mode)(b, c) ==> DateLe(mode)(a, c)
    {
      if mode == DateAsc {
        CompareOptionalPreorder(a.date, b.date, c.date);
      } else {
        CompareOptionalPreorder(c.date, b.date, a.date);
        CompareOptionalPreorder(b.date, a.date, c.date);
      }
    }
  }

  /** The rows shown: the kept events sorted by date. */
  function Shown(events: seq<Event>, eventType: string, search: string, mode: Mode): (r: seq<Event>)
    ensures multiset(r) == multiset(Kept(events, eventType, search))
  {
    Sorting.SortWith(Kept(events, eventType, search), DateLe(mode))
  }

  /** Partner of `Shown`: dated events come in code-point order of their
      dates (reversed for `date_desc`), and an undated event comes before a
      dated one only when that one's date is "" in `date_asc`, or in
      `date_desc` only after events dated "". */
  lemma ShownByDate(events: seq<Event>, eventType: string, search: string, mode: Mode, i: int, j: int)
    requires 0 <= i < j < |Shown(events, eventType, search, mode)|
    ensures var r := Shown(events, eventType, search, mode);
      && (r[i].date.Some? && r[j].date.Some? ==>
            if mode == DateAsc then LexLe(r[i].date.value, r[j].date.value) else LexLe(r[j].date.value, r[i].date.value))
      && (mode == DateAsc && r[j].date.None? ==> r[i].date.None? || r[i].date.value == "")
      && (mode == DateDesc && r[i].date.None? ==> r[j].date.None? || r[j].date.value == "")
  {
    DateLeTotalTransitive(mode);
    Sorting.SortWithSorted(Kept(events, eventType, search), DateLe(mode));
    var r := Shown(events, eventType, search, mode);
    assert DateLe(mode)(r[i], r[j]);
  }

  /** Every event shown is one of the events fetched, and the kept events
      keep the fetched order. */
  lemma KeptIsSublist(events: seq<Event>, eventType: string, search: string)
    ensures Sorting.IsSublist(Kept(events, eventType, search), events)
  {
    if eventType != "all" && search != "" {
      Sorting.FilterFilter(events, OfType(eventType), Matching(search));
      Sorting.FilterIsSublist(events, Sorting.Both(OfType(eventType), Matching(search)));
    } else if eventType != "all" {
      Sorting.FilterIsSublist(events, OfType(eventType));
    } else if search != "" {
      Sorting.FilterIsSublist(events, Matching(search));
    } else {
      Sorting.FilterAll(events, (e: Event) => true);
      Sorting.FilterIsSublist(events, (e: Event) => true);
    }
  }
}
