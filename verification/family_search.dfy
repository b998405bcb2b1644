/** `fetchFamilies` in `src/api/fetchFamilies.ts`: one page of families for
    the families list. A view query filters and sorts the family ids and
    returns the page's ids; a second query fetches those families with
    their relations, in whatever order the database likes; the result puts
    them back in the order of the ids. The answers of the three queries and
    the page range (`getPageRange`, not part of this model) are inputs. */
module FamilySearch {
  import opened Wrappers
  import opened Text
  import Sorting
  import DisplayName

  // ---------------------------------------------------------------------
  // The search filter
  // ---------------------------------------------------------------------

  /** The columns of `family_sorting_view` a search looks in, in order. */
  const SearchColumns: seq<string> :=
    ["searchable_names", "husband_first_name", "husband_last_name", "wife_first_name", "wife_last_name"]

  /** `<column>.ilike.%<query>%`: a case-insensitive substring test in
      PostgREST's filter syntax. */
  function Clause(query: string): string -> string {
    (column: string) => column + ".ilike.%" + query + "%"
  }

  /** `buildSearchFilter`: the clauses for the five columns, comma-separated,
      which `or(...)` reads as alternatives. */
  function BuildSearchFilter(query: string): (f: string)
    ensures forall i :: 0 <= i < |SearchColumns| ==> Contains(f, SearchColumns[i] + ".ilike.%" + query + "%")
  {
    var clauses := Sorting.Map(SearchColumns, Clause(query));
    forall i | 0 <= i < |SearchColumns| ensures Contains(Join(clauses, ","), SearchColumns[i] + ".ilike.%" + query + "%") {
      JoinContainsPart(clauses, ",", i);
    }
    Join(clauses, ",")
  }

  /** Partner of `BuildSearchFilter`: with a query free of commas, the filter
      splits back into exactly the five clauses, one per column in order. */
  lemma SearchFilterClauses(query: string)
    requires ',' !in query
    ensures var pieces := Split(BuildSearchFilter(query), ',');
      |pieces| == 5
      && forall i :: 0 <= i < 5 ==> pieces[i] == SearchColumns[i] + ".ilike.%" + query + "%"
  {
    var clauses := Sorting.Map(SearchColumns, Clause(query));
    assert forall i :: 0 <= i < |SearchColumns| ==> ',' !in SearchColumns[i];
    assert ',' !in ".ilike.%" && ',' !in "%";
    SplitJoin(clauses, ',');
  }

  /** A comma in the query is copied into the filter unescaped, so the
      filter no longer splits into the five clauses. */
  lemma CommaInQueryBreaksClauses(query: string)
    requires ',' in query
    ensures Split(BuildSearchFilter(query), ',') != Sorting.Map(SearchColumns, Clause(query))
  {
    var clauses := Sorting.Map(SearchColumns, Clause(query));
    assert ',' in clauses[0];
    var pieces := Split(BuildSearchFilter(query), ',');
    assert ',' !in pieces[0];
  }

  // ---------------------------------------------------------------------
  // The order of the view query
  // ---------------------------------------------------------------------

  datatype SortConfig = SortConfig(field: string, direction: string)

  /** `order(column, { ascending })`. */
  datatype Order = Order(column: string, ascending: bool)

  /** The order sent with the view query. */
  function OrderOf(sort: Option<SortConfig>): (r: Order)
    ensures sort.None? ==> r == Order("husband_last_name", true)
    ensures sort.Some? ==> r.column == sort.value.field && (r.ascending <==> sort.value.direction == "asc")
  {
    match sort
    case None => Order("husband_last_name", true)
    case Some(s) => Order(s.field, s.direction == "asc")
  }

  /** The view query: the search filter (when the query is a non-empty
      string), the order, and the rows `start` to `end - 1` inclusive. */
  datatype ViewQuery = ViewQuery(filter: Option<string>, order: Order, rangeFrom: int, rangeTo: int)

  function ViewQueryOf(query: Option<string>, sort: Option<SortConfig>, start: int, end: int): (r: ViewQuery)
    ensures r.filter.Some? <==> query.Some? && query.value != ""
    ensures r.filter.Some? ==> r.filter.value == BuildSearchFilter(query.value)
    ensures r.order == OrderOf(sort)
    ensures r.rangeTo - r.rangeFrom + 1 == end - start
  {
    var filter := if query.Some? && query.value != "" then Some(BuildSearchFilter(query.value)) else None;
    ViewQuery(filter, OrderOf(sort), start, end - 1)
  }

  // ---------------------------------------------------------------------
  // Restoring the sorted order
  // ---------------------------------------------------------------------

  /** An individual embedded in a family: id, gender and name records. */
  datatype Member = Member(id: string, gender: Option<string>, names: seq<DisplayName.NameParts>)

  /** `FamilyWithRelations`: the family with its spouses and children. */
  datatype Family = Family(id: string, familyType: Option<string>, husband: Option<Member>, wife: Option<Member>,
                           children: seq<Option<Member>>)

  function HasId(id: string): Family -> bool {
    (f: Family) => f.id == id
  }

  /** Whether the second query returned a family with the id. */
  function Fetched(families: seq<Family>): string -> bool {
    (id: string) => Sorting.FindFirst(families, HasId(id)).Some?
  }

  function IdOf(f: Family): string { f.id }

  function IdOfF(): Family -> string {
    (f: Family) => IdOf(f)
  }

  /** `familyIds.map(id => families.find(f => f.id === id))` without the
      `undefined`s. */
  function Restore(ids: seq<string>, families: seq<Family>): (r: seq<Family>)
    ensures |r| <= |ids|
    decreases |ids|
  {
    if |ids| == 0 then []
    else
      var rest := Restore(ids[1..], families);
      match Sorting.FindFirst(families, HasId(ids[0]))
      case None => rest
      case Some(f) => [f] + rest
  }

  /** Partner of `Restore`: the families come in the order of the ids, those
      with no fetched family dropped, each the first family fetched with its
      id. */
  lemma {:induction false} RestoreFollowsIds(ids: seq<string>, families: seq<Family>)
    ensures Sorting.Map(Restore(ids, families), IdOfF()) == Sorting.Filter(ids, Fetched(families))
    ensures forall k :: 0 <= k < |Restore(ids, families)| ==>
              Sorting.FindFirst(families, HasId(Restore(ids, families)[k].id)) == Some(Restore(ids, families)[k])
    decreases |ids|
  {
    if |ids| > 0 {
      RestoreFollowsIds(ids[1..], families);
      Sorting.FilterCons(ids[0], ids[1..], Fetched(families));
      assert [ids[0]] + ids[1..] == ids;
      var rest := Restore(ids[1..], families);
      match Sorting.FindFirst(families, HasId(ids[0]))
      case None =>
      case Some(f) =>
        Sorting.MapConcat([f], rest, IdOfF());
        assert Restore(ids, families) == [f] + rest;
        forall k | 0 <= k < |Restore(ids, families)|
          ensures Sorting.FindFirst(families, HasId(Restore(ids, families)[k].id)) == Some(Restore(ids, families)[k])
        {
          if k > 0 {
            assert Restore(ids, families)[k] == rest[k - 1];
          }
        }
    }
  }

  /** When every id was fetched, the families come exactly in id order. */
  lemma RestoreAllFetched(ids: seq<string>, families: seq<Family>)
    requires forall i :: 0 <= i < |ids| ==> Fetched(families)(ids[i])
    ensures Sorting.Map(Restore(ids, families), IdOfF()) == ids
  {
    RestoreFollowsIds(ids, families);
    Sorting.FilterAll(ids, Fetched(families));
  }

  // ---------------------------------------------------------------------
  // The whole function
  // ---------------------------------------------------------------------

  /** The answer of one query: an error, or the data (possibly `null`). */
  datatype Answer<T> = Error(message: string) | Data(value: Option<T>)

  datatype FamiliesPage = FamiliesPage(data: seq<Family>, total: int)

  /** `totalCount || 0`. */
  function Total(count: Option<int>): int
  {
    match count
    case None => 0
    case Some(n) => if n == 0 then 0 else n
  }

  /** `fetchFamilies`: the first failing query's error is thrown; no ids, or
      no families, give an empty page; otherwise the families in the order
      of the ids. The total is the count of the filtered view either way. */
  function FetchFamilies(count: Answer<int>, sortedIds: Answer<seq<string>>, families: Answer<seq<Family>>): (r: Result<FamiliesPage>)
    ensures count.Error? ==> r == Failure(count.message)
    ensures count.Data? && sortedIds.Error? ==> r == Failure(sortedIds.message)
    ensures r.Success? ==> r.value.total == Total(count.value)
    ensures (count.Data? && sortedIds.Data? && (sortedIds.value.None? || |sortedIds.value.value| == 0))
              ==> r == Success(FamiliesPage([], Total(count.value)))
    ensures count.Data? && sortedIds.Data? && sortedIds.value.Some? && |sortedIds.value.value| > 0 ==>
              && (families.Error? ==> r == Failure(families.message))
              && (families.Data? && families.value.None? ==> r == Success(FamiliesPage([], Total(count.value))))
              && (families.Data? && families.value.Some? ==>
                    r == Success(FamiliesPage(Restore(sortedIds.value.value, families.value.value), Total(count.value))))
  {
    match count
    case Error(m) => Failure(m)
    case Data(n) =>
      match sortedIds
      case Error(m) => Failure(m)
      case Data(ids) =>
        if ids.None? || |ids.value| == 0 then Success(FamiliesPage([], Total(n)))
        else
          match families
          case Error(m) => Failure(m)
          case Data(fs) =>
            if fs.None? then Success(FamiliesPage([], Total(n)))
            else Success(FamiliesPage(Restore(ids.value, fs.value), Total(n)))
  }

  /** The page never holds more families than the view query returned ids,
      and holds them in the order of those ids. */
  lemma FetchFamiliesInIdOrder(count: Answer<int>, sortedIds: Answer<seq<string>>, families: Answer<seq<Family>>)
    requires FetchFamilies(count, sortedIds, families).Success?
    ensures var page := FetchFamilies(count, sortedIds, families).value;
      page.data != [] ==>
        && sortedIds.Data? && sortedIds.value.Some? && families.Data? && families.value.Some?
        && Sorting.Map(page.data, IdOfF()) == Sorting.Filter(sortedIds.value.value, Fetched(families.value.value))
  {
    var page := FetchFamilies(count, sortedIds, families).value;
    if page.data != [] {
      RestoreFollowsIds(sortedIds.value.value, families.value.value);
    }
  }
}
