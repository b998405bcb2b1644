/** `src/components/place/PlaceChildrenTable.tsx`: the flattened list of a
    place's descendants, with collapsible entries. Which entries have
    children, and which are hidden under a collapsed ancestor, is read off
    the list's order and levels alone. */
module PlaceChildren {
  import Sorting
  import PlaceHierarchy

  type Place = PlaceHierarchy.RecursivePlace

  function PlaceId(): Place -> string {
    (p: Place) => p.id
  }

  /** `places.findIndex((p) => p.id === id)`: the first index with the id,
      or -1. */
  function IndexOf(places: seq<Place>, id: string): (r: int)
    ensures -1 <= r < |places|
    ensures r >= 0 ==> places[r].id == id && forall j :: 0 <= j < r ==> places[j].id != id
    ensures r == -1 <==> forall j :: 0 <= j < |places| ==> places[j].id != id
  {
    if |places| == 0 then -1
    else if places[0].id == id then 0
    else
      var k := IndexOf(places[1..], id);
      if k == -1 then -1 else k + 1
  }

  lemma IndexOfDistinct(places: seq<Place>, i: int)
    requires Sorting.DistinctBy(places, PlaceId())
    requires 0 <= i < |places|
    ensures IndexOf(places, places[i].id) == i
  {
  }

  /** `hasChildren(id, level)`: the entry with the id exists and the entry
      after it is deeper than `level`. */
  function HasChildren(places: seq<Place>, id: string, level: int): (r: bool)
    ensures r <==> var k := IndexOf(places, id);
      0 <= k && k + 1 < |places| && places[k + 1].level > level
  {
    var k := IndexOf(places, id);
    if k == -1 then false
    else k + 1 < |places| && places[k + 1].level > level
  }

  /** The first place of a non-empty forest heads its flattening. */
  lemma FlattenHead(ps: seq<Place>)
    requires |ps| > 0
    ensures |PlaceHierarchy.Flatten(ps)| > 0 && PlaceHierarchy.Flatten(ps)[0] == ps[0]
  {
    assert PlaceHierarchy.Flatten(ps) == PlaceHierarchy.FlattenOne(ps[0]) + PlaceHierarchy.Flatten(ps[1..]);
  }

  lemma LeveledTail(ps: seq<Place>, level: int)
    requires |ps| > 0 && PlaceHierarchy.Leveled(ps, level)
    ensures ps[0].level == level && PlaceHierarchy.Leveled(ps[0].children, level + 1)
    ensures PlaceHierarchy.Leveled(ps[1..], level)
  {
    assert forall i :: 0 <= i < |ps| - 1 ==> ps[1..][i] == ps[i + 1];
  }

  /** In the flattening of a leveled forest, a place with children is
      followed by its first child, and a place without children by a place
      no deeper than itself, if by anything. */
  lemma {:induction false} NextInFlattening(ps: seq<Place>, level: int, i: int)
    requires PlaceHierarchy.Leveled(ps, level)
    requires 0 <= i < |PlaceHierarchy.Flatten(ps)|
    ensures var f := PlaceHierarchy.Flatten(ps);
      PlaceHierarchy.Leveled(f[i].children, f[i].level + 1) &&
      (|f[i].children| > 0 ==> i + 1 < |f| && f[i + 1] == f[i].children[0]) &&
      (|f[i].children| == 0 && i + 1 < |f| ==> f[i + 1].level <= f[i].level)
    decreases ps
  {
    var p := ps[0];
    LeveledTail(ps, level);
    var c, rest := PlaceHierarchy.Flatten(p.children), PlaceHierarchy.Flatten(ps[1..]);
    var f := PlaceHierarchy.Flatten(ps);
    assert f == [p] + c + rest;
    PlaceHierarchy.FlattenLevels(p.children, level + 1);
    PlaceHierarchy.FlattenLevels(ps[1..], level);
    if i == 0 {
      if |p.children| > 0 {
        FlattenHead(p.children);
      } else if i + 1 < |f| {
        assert c == [];
        FlattenHead(ps[1..]);
        assert f[1] == rest[0];
      }
    } else if i <= |c| {
      NextInFlattening(p.children, level + 1, i - 1);
      assert f[i] == c[i - 1];
      if i < |c| {
        assert f[i + 1] == c[i];
      } else if i + 1 < |f| {
        assert f[i + 1] == rest[0];
        assert f[i].children == [];
      }
    } else {
      NextInFlattening(ps[1..], level, i - 1 - |c|);
      assert f[i] == rest[i - 1 - |c|];
      if i + 1 < |f| {
        assert f[i + 1] == rest[i - |c|];
      }
    }
  }

  /** Partner of `HasChildren`: on the flattening of a leveled forest with
      distinct ids, an entry has children in the list exactly when the
      place has children in the tree. */
  lemma HasChildrenMatchesTree(ps: seq<Place>, level: int, i: int)
    requires PlaceHierarchy.Leveled(ps, level)
    requires Sorting.DistinctBy(PlaceHierarchy.Flatten(ps), PlaceId())
    requires 0 <= i < |PlaceHierarchy.Flatten(ps)|
    ensures var f := PlaceHierarchy.Flatten(ps);
      HasChildren(f, f[i].id, f[i].level) <==> |f[i].children| > 0
  {
    var f := PlaceHierarchy.Flatten(ps);
    IndexOfDistinct(f, i);
    NextInFlattening(ps, level, i);
    if |f[i].children| > 0 {
      LeveledTail(f[i].children, f[i].level + 1);
    }
  }

  // ---------------------------------------------------------------------
  // Collapsing
  // ---------------------------------------------------------------------

  /** The entry at `k` is a collapsed entry above `place`, before its first
      occurrence, with only deeper entries between the first occurrence of
      its own id and the place's. */
  predicate HidesAt(places: seq<Place>, collapsed: set<string>, place: Place, k: int)
    requires 0 <= k < |places|
  {
    var p := IndexOf(places, place.id);
    k < p && places[k].level < place.level && places[k].id in collapsed
    && Deeper(places, IndexOf(places, places[k].id), p, places[k].level)
  }

  /** Every entry strictly between `a` and `b` is deeper than `level`. */
  predicate Deeper(places: seq<Place>, a: int, b: int, level: int) {
    forall j :: a < j < b && 0 <= j < |places| ==> places[j].level > level
  }

  predicate Hidden(places: seq<Place>, collapsed: set<string>, place: Place) {
    exists k :: 0 <= k < |places| && HidesAt(places, collapsed, place, k)
  }

  /** `isPlaceHidden`: scans the entries before the place for a collapsed
      ancestor whose descendants run unbroken down to the place. */
  method IsPlaceHidden(places: seq<Place>, collapsed: set<string>, place: Place) returns (hidden: bool)
    ensures hidden == Hidden(places, collapsed, place)
  {
    var i := 0;
    while i < |places|
      invariant 0 <= i <= |places|
      invariant forall k :: 0 <= k < i ==> places[k].id != place.id
      invariant forall k :: 0 <= k < i ==> !HidesAt(places, collapsed, place, k)
    {
      var ancestor := places[i];
      if ancestor.id == place.id {
        break;
      }
      if ancestor.level < place.level && ancestor.id in collapsed {
        var ancestorIndex := IndexOf(places, ancestor.id);
        var placeIndex := IndexOf(places, place.id);
        if ancestorIndex < placeIndex {
          var isDescendant := true;
          var j := ancestorIndex + 1;
          while j < placeIndex
            invariant ancestorIndex + 1 <= j <= placeIndex
            invariant isDescendant ==> forall m :: ancestorIndex < m < j ==> places[m].level > ancestor.level
            invariant !isDescendant ==> !Deeper(places, ancestorIndex, placeIndex, ancestor.level)
          {
            if places[j].level <= ancestor.level {
              isDescendant := false;
              break;
            }
            j := j + 1;
          }
          if isDescendant {
            assert HidesAt(places, collapsed, place, i);
            return true;
          }
          assert !Deeper(places, ancestorIndex, placeIndex, ancestor.level);
        }
      }
      i := i + 1;
    }
    hidden := false;
  }

  /** Partner of `IsPlaceHidden`: with distinct ids, the entry at `k` is
      hidden exactly when some earlier entry is collapsed, shallower, and
      followed down to `k` by deeper entries only. */
  lemma HiddenByCollapsedAncestor(places: seq<Place>, collapsed: set<string>, k: int)
    requires Sorting.DistinctBy(places, PlaceId())
    requires 0 <= k < |places|
    ensures Hidden(places, collapsed, places[k]) <==>
              exists a :: 0 <= a < k && places[a].id in collapsed && places[a].level < places[k].level
                          && forall j :: a < j < k ==> places[j].level > places[a].level
  {
    IndexOfDistinct(places, k);
    var place := places[k];
    if Hidden(places, collapsed, place) {
      var a :| 0 <= a < |places| && HidesAt(places, collapsed, place, a);
      IndexOfDistinct(places, a);
      assert forall j :: a < j < k ==> places[j].level > places[a].level;
    }
    if exists a :: 0 <= a < k && places[a].id in collapsed && places[a].level < place.level
                   && forall j :: a < j < k ==> places[j].level > places[a].level {
      var a :| 0 <= a < k && places[a].id in collapsed && places[a].level < place.level
               && forall j :: a < j < k ==> places[j].level > places[a].level;
      IndexOfDistinct(places, a);
      assert HidesAt(places, collapsed, place, a);
    }
  }

  /** Nothing is hidden while nothing is collapsed, and whether a place is
      itself collapsed never hides it. */
  lemma NothingCollapsed(places: seq<Place>, place: Place)
    ensures !Hidden(places, {}, place)
  {
  }

  lemma OwnCollapseIrrelevant(places: seq<Place>, collapsed: set<string>, place: Place)
    ensures Hidden(places, collapsed + {place.id}, place) == Hidden(places, collapsed - {place.id}, place)
  {
    assert forall k :: 0 <= k < |places| && k < IndexOf(places, place.id) ==> places[k].id != place.id;
    if Hidden(places, collapsed + {place.id}, place) {
      var k :| 0 <= k < |places| && HidesAt(places, collapsed + {place.id}, place, k);
      assert HidesAt(places, collapsed - {place.id}, place, k);
    }
    if Hidden(places, collapsed - {place.id}, place) {
      var k :| 0 <= k < |places| && HidesAt(places, collapsed - {place.id}, place, k);
      assert HidesAt(places, collapsed + {place.id}, place, k);
    }
  }

  /** `toggleCollapse`: the id changes membership; no other id does. */
  function ToggleCollapse(collapsed: set<string>, id: string): (r: set<string>)
    ensures id in r <==> id !in collapsed
    ensures forall x :: x != id ==> (x in r <==> x in collapsed)
  {
    if id in collapsed then collapsed - {id} else collapsed + {id}
  }

  /** Toggling twice changes nothing. */
  lemma ToggleTwice(collapsed: set<string>, id: string)
    ensures ToggleCollapse(ToggleCollapse(collapsed, id), id) == collapsed
  {
  }
}
