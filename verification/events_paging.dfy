/** `fetchEventsFiltered` in `src/api/fetchEventsFiltered.ts`: the events
    list's data. The remote procedure `get_events_with_subjects_filtered`
    does the searching, filtering and sorting; its rows are an input. The
    function then cuts the requested page of ten out of those rows and
    reports their number as the total. */
module EventsPaging {
  import opened Wrappers
  import Sorting

  /** The number of events on a page. */
  const PageSize: int := 10

  // ---------------------------------------------------------------------
  // The procedure's parameters
  // ---------------------------------------------------------------------

  datatype SortConfig = SortConfig(field: string, direction: string)

  datatype RpcParams = RpcParams(
    searchText: Option<string>, pageNumber: int, sortField: string, sortDirection: string,
    placeFilter: Option<string>)

  /** `x || fallback` on an optional string: an absent or empty string gives
      the fallback. */
  function OrElse(x: Option<string>, fallback: string): string {
    if x.Some? && x.value != "" then x.value else fallback
  }

  /** The parameters sent: an empty search or place becomes `null`, and a
      missing or empty sort field or direction becomes `date`, `desc`. */
  function Params(page: int, query: string, sort: Option<SortConfig>, placeId: Option<string>): (r: RpcParams)
    ensures r.searchText.None? <==> query == ""
    ensures r.searchText.Some? ==> r.searchText.value == query
    ensures r.pageNumber == page
    ensures r.sortField != "" && r.sortDirection != ""
    ensures sort.None? ==> r.sortField == "date" && r.sortDirection == "desc"
    ensures sort.Some? && sort.value.field != "" ==> r.sortField == sort.value.field
    ensures sort.Some? && sort.value.direction != "" ==> r.sortDirection == sort.value.direction
    ensures r.placeFilter.None? <==> placeId.None? || placeId.value == ""
    ensures r.placeFilter.Some? ==> r.placeFilter == placeId
  {
    var field := if sort.Some? then Some(sort.value.field) else None;
    var direction := if sort.Some? then Some(sort.value.direction) else None;
    RpcParams(if query == "" then None else Some(query), page, OrElse(field, "date"), OrElse(direction, "desc"),
              if placeId.Some? && placeId.value != "" then placeId else None)
  }

  // ---------------------------------------------------------------------
  // The page
  // ---------------------------------------------------------------------

  /** An `EventListItem`: the procedure's row with its fields copied. */
  datatype EventListItem = EventListItem(
    id: string, date: string, description: string, eventTypeName: string, placeName: string, subjects: string)

  /** `(page - 1) * pageSize`. */
  function PageStart(page: int): int {
    (page - 1) * PageSize
  }

  /** `events.slice(startIndex, startIndex + pageSize)`. */
  function PageOf<T>(events: seq<T>, page: int): seq<T> {
    Sorting.Slice(events, PageStart(page), PageStart(page) + PageSize)
  }

  /** A page holds at most ten events, whatever the page number. */
  lemma PageAtMostTen<T>(events: seq<T>, page: int)
    ensures |PageOf(events, page)| <= PageSize
  {
  }

  /** From the first page on, page `p` holds the events from position
      `(p - 1) * 10` on, as many as are left, up to ten. */
  lemma PageContents<T>(events: seq<T>, page: int)
    requires page >= 1
    ensures var r, start := PageOf(events, page), PageStart(page);
      && |r| == (if |events| <= start then 0 else if |events| - start < PageSize then |events| - start else PageSize)
      && forall k :: 0 <= k < |r| ==> r[k] == events[start + k]
  {
  }

  /** Every event is on page `i / 10 + 1`, at position `i % 10`. */
  lemma ElementOnItsPage<T>(events: seq<T>, i: int)
    requires 0 <= i < |events|
    ensures var r := PageOf(events, i / PageSize + 1);
      i % PageSize < |r| && r[i % PageSize] == events[i]
  {
    PageContents(events, i / PageSize + 1);
  }

  /** Page 0, which the 1-based numbering does not use, is empty. */
  lemma PageZeroEmpty<T>(events: seq<T>)
    ensures PageOf(events, 0) == []
  {
  }

  /** A negative page counts from the end of the list: page -1 shows the
      twenty-to-ten last events. */
  lemma NegativePageFromEnd<T>(events: seq<T>, page: int)
    requires page < 0 && |events| + PageStart(page) >= 0
    ensures PageOf(events, page) == events[|events| + PageStart(page)..|events| + PageStart(page) + PageSize]
  {
  }

  /** The first `k` pages, one after the other. */
  function FirstPages<T>(events: seq<T>, k: nat): seq<T> {
    if k == 0 then [] else FirstPages(events, k - 1) + PageOf(events, k)
  }

  /** Consecutive pages neither overlap nor leave gaps: the first `k` pages
      together are the first `10 k` events (or all of them). */
  lemma {:induction false} FirstPagesArePrefix<T>(events: seq<T>, k: nat)
    ensures FirstPages(events, k) == events[..if k * PageSize <= |events| then k * PageSize else |events|]
  {
    if k > 0 {
      FirstPagesArePrefix(events, k - 1);
      PageContents(events, k);
      var before := if (k - 1) * PageSize <= |events| then (k - 1) * PageSize else |events|;
      var after := if k * PageSize <= |events| then k * PageSize else |events|;
      assert PageOf(events, k) == events[before..after];
      assert events[..before] + events[before..after] == events[..after];
    }
  }

  // ---------------------------------------------------------------------
  // The whole function
  // ---------------------------------------------------------------------

  datatype EventsPage = EventsPage(data: seq<EventListItem>, total: int)

  /** `fetchEventsFiltered`: the procedure's error is thrown; otherwise its
      rows (none for `null`) give the page and the total. */
  function FetchEventsFiltered(answer: Result<Option<seq<EventListItem>>>, page: int): (r: Result<EventsPage>)
    ensures answer.Failure? ==> r == Failure(answer.error)
    ensures answer.Success? ==> r.Success?
    ensures answer.Success? && answer.value.None? ==> r.value == EventsPage([], 0)
    ensures answer.Success? && answer.value.Some? ==>
              r.value.total == |answer.value.value| && r.value.data == PageOf(answer.value.value, page)
  {
    match answer
    case Failure(e) => Failure(e)
    case Success(rows) =>
      var events := rows.GetOr([]);
      Success(EventsPage(PageOf(events, page), |events|))
  }
}
