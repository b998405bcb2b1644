/** The families tables (`src/components/TableFamilies/TableFamilies.tsx` and
    its copy `src/components/tables/TableFamilies/TableFamilies.tsx`): the
    families fetched, narrowed by the search and sorted by one spouse's
    last or first name. The two copies differ only in what they hand to
    `displayName` for a spouse: the first the spouse's `names` array, the
    second the spouse object itself, read as one name record. The search is
    a regular expression test, not part of this model: it is given as a
    predicate. */
module TableFamilies {
  import opened Wrappers
  import opened Text
  import Sorting
  import DisplayName
  import opened NameSort

  /** A family as the table reads it: each spouse as the argument given to
      `displayName`. */
  datatype Family = Family(id: string, husband: DisplayName.Names, wife: DisplayName.Names)

  /** `family.husband?.names`: the array, or `undefined` without a spouse. */
  function FromNamesArray(names: Option<seq<DisplayName.NameParts>>): (r: DisplayName.Names)
    ensures names.None? <==> r.NoNames?
  {
    match names
    case None => DisplayName.NoNames
    case Some(records) => DisplayName.Many(records)
  }

  /** `family.husband`: the spouse object itself, or `undefined`. */
  function FromSpouseObject(spouse: Option<DisplayName.NameParts>): (r: DisplayName.Names)
    ensures spouse.None? <==> r.NoNames?
  {
    match spouse
    case None => DisplayName.NoNames
    case Some(record) => DisplayName.One(record)
  }

  datatype Spouse = Husband | Wife

  datatype NamePart = FirstName | LastName

  /** The eight sort modes (`husband_last_name_asc` … `wife_first_name_desc`)
      and any other value. */
  datatype Mode = Mode(spouse: Spouse, part: NamePart, desc: bool) | Unrecognised

  /** The mode a `FamilySort` string names. */
  function ModeOf(sort: string): Mode {
    if sort == "husband_last_name_asc" then Mode(Husband, LastName, false)
    else if sort == "husband_last_name_desc" then Mode(Husband, LastName, true)
    else if sort == "husband_first_name_asc" then Mode(Husband, FirstName, false)
    else if sort == "husband_first_name_desc" then Mode(Husband, FirstName, true)
    else if sort == "wife_last_name_asc" then Mode(Wife, LastName, false)
    else if sort == "wife_last_name_desc" then Mode(Wife, LastName, true)
    else if sort == "wife_first_name_asc" then Mode(Wife, FirstName, false)
    else if sort == "wife_first_name_desc" then Mode(Wife, FirstName, true)
    else Unrecognised
  }

  /** The `FamilySort` string of a mode. */
  function SortName(mode: Mode): string
    requires mode.Mode?
  {
    (if mode.spouse == Husband then "husband" else "wife")
    + (if mode.part == FirstName then "_first_name" else "_last_name")
    + (if mode.desc then "_desc" else "_asc")
  }

  lemma ModeOfHusband(part: NamePart, desc: bool)
    ensures ModeOf(SortName(Mode(Husband, part, desc))) == Mode(Husband, part, desc)
  {
    var n := SortName(Mode(Husband, part, desc));
    match (part, desc)
    case (LastName, false) => assert n == "husband_last_name_asc";
    case (LastName, true) => assert n == "husband_last_name_desc";
    case (FirstName, false) => assert n == "husband_first_name_asc";
    case (FirstName, true) => assert n == "husband_first_name_desc";
  }

  lemma ModeOfWife(part: NamePart, desc: bool)
    ensures ModeOf(SortName(Mode(Wife, part, desc))) == Mode(Wife, part, desc)
  {
    var n := SortName(Mode(Wife, part, desc));
    assert n[0] == 'w';
    match (part, desc)
    case (LastName, false) => assert n == "wife_last_name_asc";
    case (LastName, true) => assert n == "wife_last_name_desc";
    case (FirstName, false) => assert n == "wife_first_name_asc";
    case (FirstName, true) => assert n == "wife_first_name_desc";
  }

  /** Partner of `ModeOf`: each of the eight strings names its own mode. */
  lemma ModeOfSortName(mode: Mode)
    requires mode.Mode?
    ensures ModeOf(SortName(mode)) == mode
  {
    if mode.spouse == Husband {
      ModeOfHusband(mode.part, mode.desc);
    } else {
      ModeOfWife(mode.part, mode.desc);
    }
  }

  function OtherPart(part: NamePart): NamePart {
    match part
    case FirstName => LastName
    case LastName => FirstName
  }

  /** `displayName(spouse, { part }).toLocaleLowerCase()`. */
  function NameKey(f: Family, spouse: Spouse, part: NamePart): string {
    var names := if spouse == Husband then f.husband else f.wife;
    Lower(DisplayName.Show(names, if part == FirstName then DisplayName.First else DisplayName.Last))
  }

  function NameKeyF(spouse: Spouse, part: NamePart): Family -> string {
    (f: Family) => NameKey(f, spouse, part)
  }

  /** The comparator passed to `sort`: the chosen spouse's chosen name,
      then that spouse's other name, both in the mode's direction; 0 for an
      unrecognised mode. */
  function Comparator(mode: Mode): (Family, Family) -> int {
    match mode
    case Unrecognised => (a: Family, b: Family) => 0
    case Mode(spouse, part, desc) => TwoNames(NameKeyF(spouse, part), NameKeyF(spouse, OtherPart(part)), desc)
  }

  lemma ComparatorConsistent(mode: Mode)
    ensures Consistent(Comparator(mode))
  {
    if mode.Mode? {
      TwoNamesConsistent(NameKeyF(mode.spouse, mode.part), NameKeyF(mode.spouse, OtherPart(mode.part)), mode.desc);
    }
  }

  /** The families the table shows: those the search accepts (when there
      is a search), sorted by the mode. */
  function Shown(families: seq<Family>, search: string, matches: Family -> bool, mode: Mode): seq<Family> {
    Sorting.SortWith(Kept(families, search, matches), LeOf(Comparator(mode)))
  }

  function Kept(families: seq<Family>, search: string, matches: Family -> bool): (r: seq<Family>)
    ensures forall x :: x in r <==> x in families && (search == "" || matches(x))
  {
    if search != "" then Sorting.Filter(families, matches) else families
  }

  /** Partner of `Shown`: a permutation of the kept families, by the chosen
      spouse's chosen name (empty names last in both directions), then by
      that spouse's other name. */
  lemma ShownOrdered(families: seq<Family>, search: string, matches: Family -> bool, mode: Mode, i: int, j: int)
    requires mode.Mode?
    requires 0 <= i < j < |Shown(families, search, matches, mode)|
    ensures var r := Shown(families, search, matches, mode);
      var sp, p, d := mode.spouse, mode.part, mode.desc;
      && multiset(r) == multiset(Kept(families, search, matches))
      && CompareWithEmpty(NameKey(r[i], sp, p), NameKey(r[j], sp, p), d) <= 0
      && (CompareWithEmpty(NameKey(r[i], sp, p), NameKey(r[j], sp, p), d) == 0 ==>
            CompareWithEmpty(NameKey(r[i], sp, OtherPart(p)), NameKey(r[j], sp, OtherPart(p)), d) <= 0)
  {
    ComparatorConsistent(mode);
    SortedByConsistent(Kept(families, search, matches), Comparator(mode));
  }

  /** A family without the spouse a mode sorts by has the empty name, so it
      comes after every family that has a name for that spouse. */
  lemma MissingSpouseLast(families: seq<Family>, search: string, matches: Family -> bool, mode: Mode, i: int, j: int)
    requires mode.Mode?
    requires 0 <= i < j < |Shown(families, search, matches, mode)|
    requires var f := Shown(families, search, matches, mode)[i];
      (if mode.spouse == Husband then f.husband else f.wife).NoNames?
    ensures EmptyName(NameKey(Shown(families, search, matches, mode)[j], mode.spouse, mode.part))
  {
    var r := Shown(families, search, matches, mode);
    assert NameKey(r[i], mode.spouse, mode.part) == "";
    ShownOrdered(families, search, matches, mode, i, j);
  }

  /** An unrecognised mode leaves the kept families in their fetched order. */
  lemma UnrecognisedKeepsOrder(families: seq<Family>, search: string, matches: Family -> bool)
    ensures Shown(families, search, matches, Unrecognised) == Kept(families, search, matches)
  {
    Sorting.SortWithAllEqual(Kept(families, search, matches), LeOf(Comparator(Unrecognised)));
  }

  /** The copy that shows a spouse object sorts it as the other copy sorts
      a spouse whose names array holds just that record. */
  lemma SpouseObjectAsSingletonArray(record: DisplayName.NameParts, part: NamePart, wife: DisplayName.Names)
    ensures NameKey(Family("", FromSpouseObject(Some(record)), wife), Husband, part)
         == NameKey(Family("", FromNamesArray(Some([record])), wife), Husband, part)
  {
    DisplayName.OneIsSingletonArray(record, if part == FirstName then DisplayName.First else DisplayName.Last);
  }
}
