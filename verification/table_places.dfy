/** The places table (`src/components/tables/TablePlaces/TablePlaces.tsx`):
    the places fetched, narrowed by type and by a search on the name, and
    sorted by name. */
module TablePlaces {
  import opened Text
  import Sorting
  import opened NameSort

  /** A row of `fetchPlacesForTable`, as far as the table reads it. */
  datatype Place = Place(id: string, name: string, typeId: string)

  /** The four orders the toolbar offers (`Toolbar.tsx`). */
  datatype Mode = IdAsc | IdDesc | NameAsc | NameDesc

  function OfType(placeType: string): Place -> bool {
    (p: Place) => p.typeId == placeType
  }

  /** `place.name.toLowerCase().includes(search.toLowerCase())`. */
  function Matching(search: string): Place -> bool {
    (p: Place) => Contains(Lower(p.name), Lower(search))
  }

  /** The places kept before sorting: of the type chosen (unless "all") and
      whose name contains the search, ignoring case (when there is one). */
  function Kept(places: seq<Place>, placeType: string, search: string): (r: seq<Place>)
    ensures forall x :: x in r <==>
      x in places && (placeType == "all" || x.typeId == placeType) && (search == "" || Contains(Lower(x.name), Lower(search)))
  {
    var typed := if placeType != "all" then Sorting.Filter(places, OfType(placeType)) else places;
    if search != "" then Sorting.Filter(typed, Matching(search)) else typed
  }

  function NameOf(): Place -> string {
    (p: Place) => p.name
  }

  /** The rows shown: the kept places, sorted by name for the two name
      orders; the two id orders sort nothing. */
  function Shown(places: seq<Place>, placeType: string, search: string, mode: Mode): seq<Place> {
    var kept := Kept(places, placeType, search);
    match mode
    case NameAsc => Sorting.SortWith(kept, LeOf(ByText(NameOf(), false)))
    case NameDesc => Sorting.SortWith(kept, LeOf(ByText(NameOf(), true)))
    case _ => kept
  }

  /** Partner of `Shown` for the name orders: a permutation of the kept
      places, by name in code-point order, reversed for `name_desc`. */
  lemma NameOrdersSort(places: seq<Place>, placeType: string, search: string, mode: Mode, i: int, j: int)
    requires mode == NameAsc || mode == NameDesc
    requires 0 <= i < j < |Shown(places, placeType, search, mode)|
    ensures var r := Shown(places, placeType, search, mode);
      && multiset(r) == multiset(Kept(places, placeType, search))
      && (mode == NameAsc ==> LexLe(r[i].name, r[j].name))
      && (mode == NameDesc ==> LexLe(r[j].name, r[i].name))
  {
    var desc := mode == NameDesc;
    ByTextConsistent(NameOf(), desc);
    SortedByConsistent(Kept(places, placeType, search), ByText(NameOf(), desc));
  }

  /** The id orders are offered but change nothing: the kept places stay
      in their fetched order, a sublist of the places fetched. */
  lemma IdOrdersKeepOrder(places: seq<Place>, placeType: string, search: string, mode: Mode)
    requires mode == IdAsc || mode == IdDesc
    ensures Shown(places, placeType, search, mode) == Kept(places, placeType, search)
    ensures Sorting.IsSublist(Shown(places, placeType, search, mode), places)
  {
    if placeType != "all" && search != "" {
      Sorting.FilterFilter(places, OfType(placeType), Matching(search));
      Sorting.FilterIsSublist(places, Sorting.Both(OfType(placeType), Matching(search)));
    } else if placeType != "all" {
      Sorting.FilterIsSublist(places, OfType(placeType));
    } else if search != "" {
      Sorting.FilterIsSublist(places, Matching(search));
    } else {
      Sorting.FilterAll(places, (p: Place) => true);
      Sorting.FilterIsSublist(places, (p: Place) => true);
    }
  }
}
