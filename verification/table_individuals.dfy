/** The individuals table (`src/components/TableIndividuals/TableIndividuals.tsx`):
    the rows fetched are narrowed by the search and the gender choice, then
    sorted by last or first name. The search is a regular expression test,
    not part of this model: it is given as a predicate. */
module TableIndividuals {
  import opened Wrappers
  import opened Text
  import Sorting
  import opened NameSort

  /** A row of `fetchIndividualsForTable`, as far as the table reads it. */
  datatype Row = Row(id: string, firstName: Option<string>, lastName: Option<string>, gender: string)

  /** `IndividualSort`, and any other value the state could hold. */
  datatype Mode = LastNameAsc | LastNameDesc | FirstNameAsc | FirstNameDesc | Unrecognised

  /** `a.firstName?.toLocaleLowerCase() ?? ""`. */
  function FirstKey(r: Row): string { Lower(r.firstName.GetOr("")) }

  /** `a.lastName?.toLocaleLowerCase() ?? ""`. */
  function LastKey(r: Row): string { Lower(r.lastName.GetOr("")) }

  function FirstKeyF(): Row -> string { (r: Row) => FirstKey(r) }

  function LastKeyF(): Row -> string { (r: Row) => LastKey(r) }

  /** The name a mode sorts by first, the one that breaks ties, and its direction. */
  function PrimaryKey(mode: Mode): Row -> string
    requires mode != Unrecognised
  {
    if mode == LastNameAsc || mode == LastNameDesc then LastKeyF() else FirstKeyF()
  }

  function SecondaryKey(mode: Mode): Row -> string
    requires mode != Unrecognised
  {
    if mode == LastNameAsc || mode == LastNameDesc then FirstKeyF() else LastKeyF()
  }

  predicate Descending(mode: Mode) {
    mode == LastNameDesc || mode == FirstNameDesc
  }

  /** The comparator passed to `sort`. */
  function Comparator(mode: Mode): (Row, Row) -> int {
    match mode
    case LastNameAsc => TwoNames(LastKeyF(), FirstKeyF(), false)
    case LastNameDesc => TwoNames(LastKeyF(), FirstKeyF(), true)
    case FirstNameAsc => TwoNames(FirstKeyF(), LastKeyF(), false)
    case FirstNameDesc => TwoNames(FirstKeyF(), LastKeyF(), true)
    case Unrecognised => (a: Row, b: Row) => 0
  }

  /** Every mode's comparator orders consistently. */
  lemma ComparatorConsistent(mode: Mode)
    ensures Consistent(Comparator(mode))
  {
    match mode
    case LastNameAsc => TwoNamesConsistent(LastKeyF(), FirstKeyF(), false);
    case LastNameDesc => TwoNamesConsistent(LastKeyF(), FirstKeyF(), true);
    case FirstNameAsc => TwoNamesConsistent(FirstKeyF(), LastKeyF(), false);
    case FirstNameDesc => TwoNamesConsistent(FirstKeyF(), LastKeyF(), true);
    case Unrecognised =>
  }

  function HasGender(gender: string): Row -> bool {
    (r: Row) => r.gender == gender
  }

  /** The rows the table shows: those the search accepts (when there is a
      search), of the chosen gender (unless "all"), sorted by the mode. */
  function Shown(rows: seq<Row>, search: string, matches: Row -> bool, gender: string, mode: Mode): seq<Row> {
    var searched := if search != "" then Sorting.Filter(rows, matches) else rows;
    var kept := if gender != "all" then Sorting.Filter(searched, HasGender(gender)) else searched;
    Sorting.SortWith(kept, LeOf(Comparator(mode)))
  }

  /** The rows kept before sorting. */
  function Kept(rows: seq<Row>, search: string, matches: Row -> bool, gender: string): (r: seq<Row>)
    ensures forall x :: x in r <==> x in rows && (search == "" || matches(x)) && (gender == "all" || x.gender == gender)
  {
    var searched := if search != "" then Sorting.Filter(rows, matches) else rows;
    if gender != "all" then Sorting.Filter(searched, HasGender(gender)) else searched
  }

  /** Partner of `Shown`: the result is a permutation of the kept rows (so
      holds exactly the rows the search and the gender choice accept), in
      the mode's order: by the primary name, empty names last, and by the
      secondary name where the primary names are equal. */
  lemma ShownOrdered(rows: seq<Row>, search: string, matches: Row -> bool, gender: string, mode: Mode, i: int, j: int)
    requires mode != Unrecognised
    requires 0 <= i < j < |Shown(rows, search, matches, gender, mode)|
    ensures var r := Shown(rows, search, matches, gender, mode);
      var p, s, d := PrimaryKey(mode), SecondaryKey(mode), Descending(mode);
      && multiset(r) == multiset(Kept(rows, search, matches, gender))
      && CompareWithEmpty(p(r[i]), p(r[j]), d) <= 0
      && (CompareWithEmpty(p(r[i]), p(r[j]), d) == 0 ==> CompareWithEmpty(s(r[i]), s(r[j]), d) <= 0)
  {
    var kept := Kept(rows, search, matches, gender);
    ComparatorConsistent(mode);
    SortedByConsistent(kept, Comparator(mode));
  }

  /** A row without the primary name comes after every row with one. */
  lemma EmptyPrimaryLast(rows: seq<Row>, search: string, matches: Row -> bool, gender: string, mode: Mode, i: int, j: int)
    requires mode != Unrecognised
    requires 0 <= i < j < |Shown(rows, search, matches, gender, mode)|
    requires EmptyName(PrimaryKey(mode)(Shown(rows, search, matches, gender, mode)[i]))
    ensures EmptyName(PrimaryKey(mode)(Shown(rows, search, matches, gender, mode)[j]))
  {
    ShownOrdered(rows, search, matches, gender, mode, i, j);
  }

  /** An unrecognised mode compares every pair equal and leaves the kept
      rows in their fetched order. */
  lemma UnrecognisedKeepsOrder(rows: seq<Row>, search: string, matches: Row -> bool, gender: string)
    ensures Shown(rows, search, matches, gender, Unrecognised) == Kept(rows, search, matches, gender)
  {
    Sorting.SortWithAllEqual(Kept(rows, search, matches, gender), LeOf(Comparator(Unrecognised)));
  }
}
