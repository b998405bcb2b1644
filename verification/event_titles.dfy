/** `getEventTitle` in `src/utils/events.ts` and its copy
    `getEventTitleForTable` in `src/pages/events/index.tsx`: the one-line
    title of an individual or a family event; and the events page's mapping
    from table state to the `fetchEvents` request. `capitalize` lives in
    `src/utils/strings.ts`, which is not part of this model, and is a
    parameter. */
module EventTitles {
  import opened Wrappers
  import DisplayName
  import TableData

  type NameParts = DisplayName.NameParts

  datatype EventKind = IndividualEvent | FamilyEvent

  datatype Person = Person(names: seq<NameParts>)

  /** The fields the title reads: the kind, the name of the individual or
      family event type, the subject's names, and the family's spouses. */
  datatype TitledEvent = TitledEvent(
    eventType: EventKind,
    individualTypeName: Option<string>,
    familyTypeName: Option<string>,
    subjectNames: Option<seq<NameParts>>,
    husband: Option<Person>,
    wife: Option<Person>)

  /** `name || "Event"`. */
  function TypeLabel(name: Option<string>): (r: string)
    ensures r != ""
    ensures name.Some? && name.value != "" ==> r == name.value
    ensures r != "Event" ==> name == Some(r)
  {
    if name.Some? && name.value != "" then name.value else "Event"
  }

  function FullName(names: seq<NameParts>): string {
    DisplayName.Show(DisplayName.Many(names), DisplayName.Full)
  }

  /** The type label an event's title starts with. */
  function Heading(e: TitledEvent, capitalize: string -> string): (h: string)
    ensures |h| >= 3 && h[|h| - 3..] == " - "
  {
    capitalize(TypeLabel(if e.eventType == IndividualEvent then e.individualTypeName else e.familyTypeName)) + " - "
  }

  /** The title: the capitalised type, a dash, and the subject's name, both
      spouses joined by " & ", the one spouse present, or "Unknown Family". */
  function Title(e: TitledEvent, capitalize: string -> string): string
  {
    if e.eventType == IndividualEvent then
      Heading(e, capitalize) + FullName(e.subjectNames.GetOr([]))
    else if e.husband.Some? && e.wife.Some? then
      Heading(e, capitalize) + FullName(e.husband.value.names) + " & " + FullName(e.wife.value.names)
    else if e.husband.Some? then
      Heading(e, capitalize) + FullName(e.husband.value.names)
    else if e.wife.Some? then
      Heading(e, capitalize) + FullName(e.wife.value.names)
    else
      Heading(e, capitalize) + "Unknown Family"
  }

  /** Every title starts with its capitalised type and a dash, and a type
      without a name reads as "Event". */
  lemma TitleStartsWithType(e: TitledEvent, capitalize: string -> string)
    ensures var h := Heading(e, capitalize);
      |h| <= |Title(e, capitalize)| && Title(e, capitalize)[..|h|] == h
    ensures (if e.eventType == IndividualEvent then e.individualTypeName else e.familyTypeName).None? ==>
              Heading(e, capitalize) == capitalize("Event") + " - "
  {
  }

  /** A subject without name records leaves just the heading. */
  lemma UnnamedSubject(e: TitledEvent, capitalize: string -> string)
    requires e.eventType == IndividualEvent
    requires e.subjectNames.None? || |e.subjectNames.value| == 0
    ensures Title(e, capitalize) == Heading(e, capitalize)
  {
  }

  /** A lone spouse is named the same whichever side of the family they
      are on. */
  lemma LoneSpouseEitherSide(e: TitledEvent, p: Person, capitalize: string -> string)
    requires e.eventType == FamilyEvent
    ensures Title(e.(husband := Some(p), wife := None), capitalize) == Title(e.(husband := None, wife := Some(p)), capitalize)
  {
  }

  // ---------------------------------------------------------------------
  // The events page's request
  // ---------------------------------------------------------------------

  datatype Direction = Asc | Desc

  /** The arguments of `fetchEvents`: a 1-based page, the search text, and
      the sort column and direction. */
  datatype EventsRequest = EventsRequest(page: int, query: string, field: string, direction: Direction)

  /** `fetchTableData`'s request for a table state. */
  function Request(st: TableData.TableState): (r: EventsRequest)
    ensures r.page == st.pagination.pageIndex + 1 && r.query == st.globalFilter
    ensures st.sorting.Some? ==> r.field == st.sorting.value.id
    ensures st.sorting.Some? ==> (r.direction == Desc <==> st.sorting.value.desc)
    ensures st.sorting.None? ==> r.field == "date" && r.direction == Asc
  {
    match st.sorting
    case Some(s) => EventsRequest(st.pagination.pageIndex + 1, st.globalFilter, s.id, if s.desc then Desc else Asc)
    case None => EventsRequest(st.pagination.pageIndex + 1, st.globalFilter, "date", Asc)
  }

  /** `fetchTableData`: the page of events fetched for the state, with
      the response's `total` as the table's count. */
  function FetchTableData<T>(st: TableData.TableState, fetchEvents: EventsRequest -> TableData.Response<T>): (r: TableData.Response<T>)
    ensures r.data == fetchEvents(Request(st)).data && r.total == fetchEvents(Request(st)).total
  {
    var response := fetchEvents(Request(st));
    TableData.Response(response.data, response.total)
  }

  /** The sorting of the events table's first request (`defaultSorting` is
      date ascending). */
  const DefaultSorting := TableData.ColumnSort("date", false)

  /** The events table opens on the first page of all events, oldest date
      first; whatever the user does to the sorting, the next request asks
      for page 1 again. */
  lemma FirstRequest(firstColumnId: string)
    ensures Request(TableData.Initial(Some(DefaultSorting), firstColumnId)) == EventsRequest(1, "", "date", Asc)
  {
  }

  /** The table's first load shows the first page of all events by date. */
  lemma FirstFetch<T>(firstColumnId: string, fetchEvents: EventsRequest -> TableData.Response<T>)
    ensures FetchTableData(TableData.Initial(Some(DefaultSorting), firstColumnId), fetchEvents) == fetchEvents(EventsRequest(1, "", "date", Asc))
  {
    FirstRequest(firstColumnId);
  }

  lemma SortingChangeRequestsFirstPage(st: TableData.TableState, u: TableData.Updater<seq<TableData.ColumnSort>>)
    ensures Request(TableData.OnSortingChange(st, u)).page == 1
    ensures Request(TableData.OnSortingChange(st, u)).query == st.globalFilter
  {
  }
}
