/** The web API's list helpers for individuals:
    `src/api/individuals/utils/sort.ts` (`sortIndividuals`),
    `src/api/individuals/utils/filter.ts` (`filterIndividuals`) and the
    summary rows of `src/api/getIndividuals.ts`. The rows the database
    returns are inputs; `localeCompare` is code-point order. */
module IndividualsApi {
  import opened Wrappers
  import opened Text
  import Sorting
  import DisplayName

  type NameParts = DisplayName.NameParts

  /** An individual as listed: its id and its name records. */
  datatype Individual = Individual(id: string, names: seq<NameParts>)

  // ---------------------------------------------------------------------
  // sortIndividuals
  // ---------------------------------------------------------------------

  /** `{ field, direction }`; any direction but "asc" sorts descending. */
  datatype SortConfig = SortConfig(field: string, direction: string)

  /** The primary name record, if any (no fallback to the first record). */
  function PrimaryName(ind: Individual): Option<NameParts> {
    Sorting.FindFirst(ind.names, DisplayName.IsPrimary())
  }

  /** The sort key: the primary name's first name for "first_name", its
      last name for any other field, "" without a primary name or field. */
  function SortKey(ind: Individual, field: string): (r: string)
    ensures PrimaryName(ind).None? ==> r == ""
    ensures PrimaryName(ind).Some? && field == "first_name" ==> r == DisplayName.OrEmpty(PrimaryName(ind).value.firstName)
    ensures PrimaryName(ind).Some? && field != "first_name" ==> r == DisplayName.OrEmpty(PrimaryName(ind).value.lastName)
  {
    match PrimaryName(ind)
    case None => ""
    case Some(n) => if field == "first_name" then DisplayName.OrEmpty(n.firstName) else DisplayName.OrEmpty(n.lastName)
  }

  function KeyOf(field: string): Individual -> string {
    (ind: Individual) => SortKey(ind, field)
  }

  /** `cmp(a, b) * -1 <= 0`: the comparator of a descending sort. */
  function KeyGe(key: Individual -> string): (Individual, Individual) -> bool {
    (a: Individual, b: Individual) => LexLe(key(b), key(a))
  }

  lemma KeyGeTotalTransitive(key: Individual -> string)
    ensures Sorting.Total(KeyGe(key)) && Sorting.Transitive(KeyGe(key))
  {
    Sorting.KeyLeTotalTransitive(key);
    assert forall a, b :: KeyGe(key)(a, b) == Sorting.KeyLe(key)(b, a);
  }

  /** `sortIndividuals(individuals, sort)`: without a configuration by last
      name ascending; otherwise by the configured field and direction. */
  function SortIndividuals(individuals: seq<Individual>, sort: Option<SortConfig>): (r: seq<Individual>)
    ensures multiset(r) == multiset(individuals)
    ensures sort.None? ==> forall i, j :: 0 <= i < j < |r| ==> LexLe(SortKey(r[i], "last_name"), SortKey(r[j], "last_name"))
    ensures sort.Some? && sort.value.direction == "asc" ==>
              forall i, j :: 0 <= i < j < |r| ==> LexLe(SortKey(r[i], sort.value.field), SortKey(r[j], sort.value.field))
    ensures sort.Some? && sort.value.direction != "asc" ==>
              forall i, j :: 0 <= i < j < |r| ==> LexLe(SortKey(r[j], sort.value.field), SortKey(r[i], sort.value.field))
  {
    match sort
    case None => Sorting.SortByKey(individuals, KeyOf("last_name"))
    case Some(config) =>
      if config.direction == "asc" then Sorting.SortByKey(individuals, KeyOf(config.field))
      else
        KeyGeTotalTransitive(KeyOf(config.field));
        Sorting.SortWithSorted(individuals, KeyGe(KeyOf(config.field)));
        var r := Sorting.SortWith(individuals, KeyGe(KeyOf(config.field)));
        assert forall i, j :: 0 <= i < j < |r| ==> KeyGe(KeyOf(config.field))(r[i], r[j]);
        r
  }

  /** The default order is the explicit last-name ascending order. */
  lemma DefaultSortIsLastNameAscending(individuals: seq<Individual>)
    ensures SortIndividuals(individuals, None) == SortIndividuals(individuals, Some(SortConfig("last_name", "asc")))
  {
  }

  // ---------------------------------------------------------------------
  // filterIndividuals
  // ---------------------------------------------------------------------

  datatype EventFilter = EventFilter(eventId: string, role: string)
  datatype FamilyFilter = FamilyFilter(familyId: string, role: string)
  datatype Filters = Filters(event: Option<EventFilter>, family: Option<FamilyFilter>)

  /** The relations the filters look up: the subjects and participants of
      each event, the spouses of each family, the children of each family. */
  datatype Relations = Relations(
    subjects: string -> set<string>,
    participants: string -> set<string>,
    spouses: string -> (Option<string>, Option<string>),
    children: string -> set<string>)

  /** `name?.toLowerCase().includes(term)`; a null name never matches. */
  predicate FieldMatches(field: Option<string>, term: string) {
    field.Some? && Contains(Lower(field.value), term)
  }

  /** Some name record's first or last name contains the query, ignoring
      case. */
  predicate MatchesQuery(ind: Individual, query: string) {
    exists i :: 0 <= i < |ind.names| &&
      (FieldMatches(ind.names[i].firstName, Lower(query)) || FieldMatches(ind.names[i].lastName, Lower(query)))
  }

  /** The ids an event filter admits, or `None` for a role that filters
      nothing. */
  function EventIds(rel: Relations, f: EventFilter): Option<set<string>> {
    if f.role == "subject" then Some(rel.subjects(f.eventId))
    else if f.role == "participant" then Some(rel.participants(f.eventId))
    else None
  }

  /** The family's non-empty spouse ids (`filter(Boolean)`). */
  function ParentIds(spouses: (Option<string>, Option<string>)): (r: set<string>)
    ensures forall x :: x in r <==> x != "" && (spouses.0 == Some(x) || spouses.1 == Some(x))
  {
    (if spouses.0.Some? && spouses.0.value != "" then {spouses.0.value} else {})
    + (if spouses.1.Some? && spouses.1.value != "" then {spouses.1.value} else {})
  }

  function FamilyIds(rel: Relations, f: FamilyFilter): Option<set<string>> {
    if f.role == "parent" then Some(ParentIds(rel.spouses(f.familyId)))
    else if f.role == "children" then Some(rel.children(f.familyId))
    else None
  }

  function InIds(ids: Option<set<string>>): Individual -> bool {
    (ind: Individual) => ids.None? || ind.id in ids.value
  }

  function Matching(query: string): Individual -> bool {
    (ind: Individual) => query == "" || MatchesQuery(ind, query)
  }

  function EventIdsOf(rel: Relations, filters: Filters): Option<set<string>> {
    if filters.event.Some? then EventIds(rel, filters.event.value) else None
  }

  function FamilyIdsOf(rel: Relations, filters: Filters): Option<set<string>> {
    if filters.family.Some? then FamilyIds(rel, filters.family.value) else None
  }

  /** `filterIndividuals`: the name search, then the event filter, then the
      family filter, each narrowing the list in place. */
  function FilterIndividuals(individuals: seq<Individual>, query: string, filters: Filters, rel: Relations): (r: seq<Individual>)
    ensures forall x :: x in r <==> x in individuals && (query == "" || MatchesQuery(x, query))
                                    && InIds(EventIdsOf(rel, filters))(x) && InIds(FamilyIdsOf(rel, filters))(x)
  {
    var byName := if query != "" then Sorting.Filter(individuals, Matching(query)) else individuals;
    var byEvent := if EventIdsOf(rel, filters).Some? then Sorting.Filter(byName, InIds(EventIdsOf(rel, filters))) else byName;
    if FamilyIdsOf(rel, filters).Some? then Sorting.Filter(byEvent, InIds(FamilyIdsOf(rel, filters))) else byEvent
  }

  /** The three conditions together. */
  function Keep(query: string, filters: Filters, rel: Relations): Individual -> bool {
    Sorting.Both(Sorting.Both(Matching(query), InIds(EventIdsOf(rel, filters))), InIds(FamilyIdsOf(rel, filters)))
  }

  /** The three filters in a row are one filter by all three conditions,
      so the result keeps the input's order: a sub-list of it. */
  lemma FilterIsOneFilter(individuals: seq<Individual>, query: string, filters: Filters, rel: Relations)
    ensures FilterIndividuals(individuals, query, filters, rel) == Sorting.Filter(individuals, Keep(query, filters, rel))
    ensures Sorting.IsSublist(FilterIndividuals(individuals, query, filters, rel), individuals)
  {
    var m, e, f := Matching(query), InIds(EventIdsOf(rel, filters)), InIds(FamilyIdsOf(rel, filters));
    var byName := Sorting.Filter(individuals, m);
    if query == "" {
      Sorting.FilterAll(individuals, m);
    }
    var byEvent := Sorting.Filter(byName, e);
    if EventIdsOf(rel, filters).None? {
      Sorting.FilterAll(byName, e);
    }
    if FamilyIdsOf(rel, filters).None? {
      Sorting.FilterAll(byEvent, f);
    }
    Sorting.FilterFilter(individuals, m, e);
    Sorting.FilterFilter(individuals, Sorting.Both(m, e), f);
    Sorting.FilterIsSublist(individuals, Keep(query, filters, rel));
  }

  /** With no query and no filter of a known role, nothing is dropped. */
  lemma NoFilterKeepsAll(individuals: seq<Individual>, filters: Filters, rel: Relations)
    requires EventIdsOf(rel, filters).None? && FamilyIdsOf(rel, filters).None?
    ensures FilterIndividuals(individuals, "", filters, rel) == individuals
  {
  }

  // ---------------------------------------------------------------------
  // getIndividuals
  // ---------------------------------------------------------------------

  datatype Place = Place(id: string, name: string)

  /** An event the individual is a subject of, with its type's name. */
  datatype SubjectEvent = SubjectEvent(id: string, typeName: string, date: Option<string>, place: Option<Place>)

  datatype IndividualRow = IndividualRow(id: string, gedcomId: Option<int>, gender: string, subjectEvents: Option<seq<SubjectEvent>>)

  /** A `names` row joined with its individual. */
  datatype NameJoin = NameJoin(firstName: Option<string>, lastName: Option<string>, isPrimary: bool, individual: IndividualRow)

  datatype Vital = Vital(date: Option<string>, place: Option<Place>)

  datatype Summary = Summary(
    id: string, gedcomId: string, gender: string,
    firstName: Option<string>, lastName: Option<string>,
    birth: Option<Vital>, death: Option<Vital>, lifeSpan: string)

  /** A date that is neither null nor empty. */
  predicate Known(date: Option<string>) {
    date.Some? && date.value != ""
  }

  /** `lifeSpan`: both dates, or the known one against "xxxx", or "Unknown". */
  function LifeSpan(birth: Option<string>, death: Option<string>): (r: string)
    ensures Known(birth) && Known(death) ==> r == birth.value + " - " + death.value
    ensures Known(birth) && !Known(death) ==> r == birth.value + " - xxxx"
    ensures !Known(birth) && Known(death) ==> r == "xxxx - " + death.value
    ensures !Known(birth) && !Known(death) ==> r == "Unknown"
  {
    if Known(birth) && Known(death) then birth.value + " - " + death.value
    else if Known(birth) then birth.value + " - xxxx"
    else if Known(death) then "xxxx - " + death.value
    else "Unknown"
  }

  function OfType(name: string): SubjectEvent -> bool {
    (e: SubjectEvent) => e.typeName == name
  }

  /** The first subject event of the named type. */
  function FirstOfType(events: Option<seq<SubjectEvent>>, name: string): (r: Option<SubjectEvent>)
    ensures r.Some? ==> events.Some? && r.value in events.value && r.value.typeName == name
    ensures r.None? <==> events.None? || forall i :: 0 <= i < |events.value| ==> events.value[i].typeName != name
  {
    if events.None? then None else Sorting.FindFirst(events.value, OfType(name))
  }

  function VitalOf(e: Option<SubjectEvent>): (r: Option<Vital>)
    ensures r.None? <==> e.None?
    ensures r.Some? ==> r.value == Vital(e.value.date, e.value.place)
  {
    if e.Some? then Some(Vital(e.value.date, e.value.place)) else None
  }

  function DateOf(e: Option<SubjectEvent>): Option<string> {
    if e.Some? then e.value.date else None
  }

  /** One summary row: the first "Birth" and first "Death" event, their
      dates as the life span, the formatted GEDCOM id. */
  function SummaryOf(row: NameJoin, formatGedcomId: Option<int> -> string): (r: Summary)
    ensures r.id == row.individual.id && r.gedcomId == formatGedcomId(row.individual.gedcomId)
    ensures r.firstName == row.firstName && r.lastName == row.lastName
    ensures r.birth == VitalOf(FirstOfType(row.individual.subjectEvents, "Birth"))
    ensures r.death == VitalOf(FirstOfType(row.individual.subjectEvents, "Death"))
    ensures r.lifeSpan == LifeSpan(DateOf(FirstOfType(row.individual.subjectEvents, "Birth")),
                                   DateOf(FirstOfType(row.individual.subjectEvents, "Death")))
  {
    var birth := FirstOfType(row.individual.subjectEvents, "Birth");
    var death := FirstOfType(row.individual.subjectEvents, "Death");
    Summary(row.individual.id, formatGedcomId(row.individual.gedcomId), row.individual.gender,
            row.firstName, row.lastName, VitalOf(birth), VitalOf(death), LifeSpan(DateOf(birth), DateOf(death)))
  }

  function Selected(ids: set<string>): NameJoin -> bool {
    (row: NameJoin) => row.isPrimary && row.individual.id in ids
  }

  /** `getIndividuals({ individualIds })`: one summary per primary name row
      of a requested individual, in row order. */
  function GetIndividuals(rows: seq<NameJoin>, ids: set<string>, formatGedcomId: Option<int> -> string): (r: seq<Summary>)
    ensures |r| == |Sorting.Filter(rows, Selected(ids))|
    ensures forall i :: 0 <= i < |r| ==> r[i] == SummaryOf(Sorting.Filter(rows, Selected(ids))[i], formatGedcomId)
    ensures forall i :: 0 <= i < |r| ==> r[i].id in ids
  {
    var selected := Sorting.Filter(rows, Selected(ids));
    assert forall i :: 0 <= i < |selected| ==> selected[i] in selected;
    Sorting.Map(selected, (row: NameJoin) => SummaryOf(row, formatGedcomId))
  }

  /** The life span reads "Unknown" exactly when neither date is known, and
      otherwise starts with the birth date or "xxxx". */
  lemma LifeSpanUnknown(birth: Option<string>, death: Option<string>)
    ensures LifeSpan(birth, death) == "Unknown" <==> !Known(birth) && !Known(death)
    ensures Known(birth) ==> |birth.value| <= |LifeSpan(birth, death)| && LifeSpan(birth, death)[..|birth.value|] == birth.value
  {
    if Known(death) && !Known(birth) {
      assert LifeSpan(birth, death)[0] == 'x';
    }
    if Known(birth) {
      var r := LifeSpan(birth, death);
      assert r[|birth.value|] == ' ';
    }
  }
}
