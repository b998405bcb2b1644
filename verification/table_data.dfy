/** `src/components/table-data/TableData.tsx` and its twin
    `src/components/table-data/table-data.tsx`: the state behind a
    server-paged table — one sorted column, the page, and the search text —
    and how each table callback changes it. The two files differ only in
    the name of the response's count field (`total` against `totalCount`),
    which the model leaves abstract as `Response.total`. */
module TableData {
  import opened Wrappers

  datatype ColumnSort = ColumnSort(id: string, desc: bool)
  datatype Pagination = Pagination(pageIndex: int, pageSize: int)
  datatype TableState = TableState(sorting: Option<ColumnSort>, pagination: Pagination, globalFilter: string)

  /** A table callback's argument: a new value, or a function of the
      current one. */
  datatype Updater<!T> = Value(value: T) | Update(f: T -> T)

  function Apply<T>(u: Updater<T>, current: T): T {
    match u
    case Value(v) => v
    case Update(f) => f(current)
  }

  /** The page size of a fresh table, and the divisor of the page count. */
  const PageSize := 10

  /** The initial state: the default sorting, else the first column
      ascending; the first page of ten rows; no search text. */
  function Initial(defaultSorting: Option<ColumnSort>, firstColumnId: string): (r: TableState)
    ensures r.sorting.Some?
    ensures defaultSorting.Some? ==> r.sorting == defaultSorting
    ensures defaultSorting.None? ==> r.sorting == Some(ColumnSort(firstColumnId, false))
    ensures r.pagination == Pagination(0, PageSize) && r.globalFilter == ""
  {
    TableState(Some(defaultSorting.GetOr(ColumnSort(firstColumnId, false))), Pagination(0, PageSize), "")
  }

  /** The sorting handed to the table: a list of at most one column. */
  function SortingList(st: TableState): (r: seq<ColumnSort>)
    ensures |r| <= 1
    ensures r == [] <==> st.sorting.None?
    ensures st.sorting.Some? ==> r[0] == st.sorting.value
  {
    if st.sorting.Some? then [st.sorting.value] else []
  }

  function Toggled(s: ColumnSort): (r: ColumnSort)
    ensures r.id == s.id && r.desc != s.desc
  {
    s.(desc := !s.desc)
  }

  /** `onSortingChange`: the first requested column, or — when the table
      asks to clear the sorting — the current column with its direction
      flipped; either way back to the first page. */
  function OnSortingChange(st: TableState, u: Updater<seq<ColumnSort>>): (r: TableState)
    ensures var requested := Apply(u, SortingList(st));
      (|requested| > 0 ==> r.sorting == Some(requested[0])) &&
      (|requested| == 0 && st.sorting.Some? ==> r.sorting == Some(Toggled(st.sorting.value))) &&
      (|requested| == 0 && st.sorting.None? ==> r.sorting.None?)
    ensures r.pagination == st.pagination.(pageIndex := 0)
    ensures r.globalFilter == st.globalFilter
  {
    var requested := Apply(u, SortingList(st));
    var sorting := if |requested| > 0 then Some(requested[0])
                   else if st.sorting.Some? then Some(Toggled(st.sorting.value))
                   else None;
    st.(sorting := sorting, pagination := st.pagination.(pageIndex := 0))
  }

  /** `onPaginationChange`: only the pagination changes. */
  function OnPaginationChange(st: TableState, u: Updater<Pagination>): (r: TableState)
    ensures r.pagination == Apply(u, st.pagination)
    ensures r.sorting == st.sorting && r.globalFilter == st.globalFilter
  {
    st.(pagination := Apply(u, st.pagination))
  }

  /** `onGlobalFilterChange`: only the search text changes. */
  function OnGlobalFilterChange(st: TableState, value: string): (r: TableState)
    ensures r.globalFilter == value
    ensures r.sorting == st.sorting && r.pagination == st.pagination
  {
    st.(globalFilter := value)
  }

  /** The effect run when the debounced search text settles: back to the
      first page, nothing else. */
  function OnDebouncedFilter(st: TableState): (r: TableState)
    ensures r.pagination == st.pagination.(pageIndex := 0)
    ensures r.sorting == st.sorting && r.globalFilter == st.globalFilter
  {
    st.(pagination := st.pagination.(pageIndex := 0))
  }

  /** What the table is fetched with: the state, with the debounced search
      text in place of the typed one. */
  function FetchState(st: TableState, debouncedFilter: string): (r: TableState)
    ensures r.globalFilter == debouncedFilter
    ensures r.sorting == st.sorting && r.pagination == st.pagination
  {
    st.(globalFilter := debouncedFilter)
  }

  /** A page of rows and the number of rows in all pages. */
  datatype Response<T> = Response(data: seq<T>, total: int)

  /** `Math.ceil(total / 10)`, on the integers. */
  function CeilDiv(n: int, d: int): (r: int)
    requires d > 0
    ensures (r - 1) * d < n <= r * d
  {
    (n + d - 1) / d
  }

  /** The page count: no response yet means no pages; otherwise enough
      pages of ten to hold every row, and no more. The divisor stays ten
      whatever page size the pagination holds. */
  function PageCount<T>(response: Option<Response<T>>): (r: int)
    ensures response.None? ==> r == 0
    ensures response.Some? ==> (r - 1) * PageSize < response.value.total <= r * PageSize
  {
    if response.Some? then CeilDiv(response.value.total, PageSize) else 0
  }

  /** The rows shown: the response's, or none. */
  function Rows<T>(response: Option<Response<T>>): seq<T> {
    if response.Some? then response.value.data else []
  }

  /** `meta.total` (TableData.tsx only): the response's count, or 0. */
  function MetaTotal<T>(response: Option<Response<T>>): int {
    if response.Some? then response.value.total else 0
  }

  /** Partner of `PageCount`: the pages always hold the count the table
      reports, a positive count needs a page, and before the first
      response there are no rows, no pages and a count of 0. */
  lemma PagesHoldTotal<T>(response: Option<Response<T>>)
    ensures PageCount(response) * PageSize >= MetaTotal(response)
    ensures MetaTotal(response) > 0 ==> PageCount(response) >= 1
    ensures response.Some? ==> PageSize * (PageCount(response) - 1) < MetaTotal(response)
    ensures response.None? ==> Rows(response) == [] && PageCount(response) == 0 && MetaTotal(response) == 0
  {
  }

  /** A change of table state the component reacts to. */
  datatype Event =
    | SortingChanged(sorting: Updater<seq<ColumnSort>>)
    | PaginationChanged(pagination: Updater<Pagination>)
    | GlobalFilterChanged(value: string)
    | DebouncedFilterSettled

  function Step(st: TableState, e: Event): TableState {
    match e
    case SortingChanged(u) => OnSortingChange(st, u)
    case PaginationChanged(u) => OnPaginationChange(st, u)
    case GlobalFilterChanged(v) => OnGlobalFilterChange(st, v)
    case DebouncedFilterSettled => OnDebouncedFilter(st)
  }

  function Run(st: TableState, events: seq<Event>): TableState
    decreases |events|
  {
    if |events| == 0 then st else Run(Step(st, events[0]), events[1..])
  }

  /** Once a column is sorted, a column stays sorted: clearing only flips
      the direction. Every table starts sorted, so no table is ever
      unsorted. */
  lemma {:induction false} RunKeepsSorting(st: TableState, events: seq<Event>)
    requires st.sorting.Some?
    ensures Run(st, events).sorting.Some?
    decreases |events|
  {
    if |events| > 0 {
      RunKeepsSorting(Step(st, events[0]), events[1..]);
    }
  }

  lemma NeverUnsorted(defaultSorting: Option<ColumnSort>, firstColumnId: string, events: seq<Event>)
    ensures Run(Initial(defaultSorting, firstColumnId), events).sorting.Some?
  {
    RunKeepsSorting(Initial(defaultSorting, firstColumnId), events);
  }

  /** Clearing twice is the identity on the sorted column. */
  lemma ClearTwiceRestores(st: TableState)
    ensures OnSortingChange(OnSortingChange(st, Value([])), Value([])).sorting == st.sorting
  {
  }

  /** Only pagination events move off the first page: a table whose page
      index is 0 and which sees no pagination event stays on the first
      page. */
  lemma {:induction false} FirstPageWithoutPaging(st: TableState, events: seq<Event>)
    requires st.pagination.pageIndex == 0
    requires forall i :: 0 <= i < |events| ==> !events[i].PaginationChanged?
    ensures Run(st, events).pagination.pageIndex == 0
    decreases |events|
  {
    if |events| > 0 {
      assert forall i :: 0 <= i < |events| - 1 ==> events[1..][i] == events[i + 1];
      FirstPageWithoutPaging(Step(st, events[0]), events[1..]);
    }
  }

  /** The search text only changes through filter events: after a run it
      is the value of the last filter event in it, whatever else followed. */
  lemma {:induction false} FilterIsLastTyped(st: TableState, events: seq<Event>, k: int, v: string)
    requires 0 <= k < |events| && events[k] == GlobalFilterChanged(v)
    requires forall i :: k < i < |events| ==> !events[i].GlobalFilterChanged?
    ensures Run(st, events).globalFilter == v
    decreases |events|
  {
    assert forall i :: 0 <= i < |events| - 1 ==> events[1..][i] == events[i + 1];
    if k > 0 {
      FilterIsLastTyped(Step(st, events[0]), events[1..], k - 1, v);
    } else {
      KeepsFilter(Step(st, events[0]), events[1..]);
    }
  }

  lemma {:induction false} KeepsFilter(st: TableState, events: seq<Event>)
    requires forall i :: 0 <= i < |events| ==> !events[i].GlobalFilterChanged?
    ensures Run(st, events).globalFilter == st.globalFilter
    decreases |events|
  {
    if |events| > 0 {
      assert forall i :: 0 <= i < |events| - 1 ==> events[1..][i] == events[i + 1];
      KeepsFilter(Step(st, events[0]), events[1..]);
    }
  }
}
