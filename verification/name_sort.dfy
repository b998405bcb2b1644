/** The name comparison the individuals and families tables sort with
    (`compareWithEmpty` in `src/components/TableIndividuals/TableIndividuals.tsx`
    and in both `TableFamilies.tsx`), and the `primary || secondary` way
    they chain two comparisons. `localeCompare` is modelled by code-point
    order (`Text.Compare`). */
module NameSort {
  import opened Text
  import Sorting

  /** `!name || name.trim() === ""`. */
  predicate EmptyName(name: string) {
    Trim(name) == ""
  }

  /** `compareWithEmpty`: empty names after all others whatever the
      direction, two empty names equal, otherwise code-point order,
      reversed when `desc`. */
  function CompareWithEmpty(a: string, b: string, desc: bool): (r: int)
    ensures -1 <= r <= 1
    ensures EmptyName(a) && EmptyName(b) ==> r == 0
    ensures EmptyName(a) && !EmptyName(b) ==> r == 1
    ensures !EmptyName(a) && EmptyName(b) ==> r == -1
    ensures !EmptyName(a) && !EmptyName(b) ==>
              (r == 0 <==> a == b) && (r <= 0 <==> if desc then LexLe(b, a) else LexLe(a, b))
  {
    if EmptyName(a) && EmptyName(b) then 0
    else if EmptyName(a) then 1
    else if EmptyName(b) then -1
    else if desc then Compare(b, a)
    else Compare(a, b)
  }

  /** Swapping the names negates the result. */
  lemma CompareWithEmptyAntisymmetric(a: string, b: string, desc: bool)
    ensures CompareWithEmpty(a, b, desc) == -CompareWithEmpty(b, a, desc)
  {
    CompareAntisymmetric(a, b);
  }

  /** Between two non-empty names, `desc` reverses the comparison; an empty
      name is last either way. */
  lemma DescReverses(a: string, b: string)
    ensures !EmptyName(a) && !EmptyName(b) ==> CompareWithEmpty(a, b, true) == -CompareWithEmpty(a, b, false)
    ensures EmptyName(a) && !EmptyName(b) ==> CompareWithEmpty(a, b, true) > 0 && CompareWithEmpty(a, b, false) > 0
  {
    CompareAntisymmetric(a, b);
  }

  /** "Not after" under `compareWithEmpty` is transitive. */
  lemma CompareWithEmptyTransitive(a: string, b: string, c: string, desc: bool)
    requires CompareWithEmpty(a, b, desc) <= 0 && CompareWithEmpty(b, c, desc) <= 0
    ensures CompareWithEmpty(a, c, desc) <= 0
  {
    if !EmptyName(a) && !EmptyName(b) && !EmptyName(c) {
      if desc {
        LexTransitive(c, b, a);
      } else {
        LexTransitive(a, b, c);
      }
    }
  }

  // ---------------------------------------------------------------------
  // Comparators
  // ---------------------------------------------------------------------

  /** A comparator that orders consistently: swapping its arguments negates
      it, and "not after" is transitive. Such a comparator is what
      `Array.prototype.sort` needs for a well-defined order. */
  ghost predicate Consistent<T(!new)>(cmp: (T, T) -> int) {
    && (forall a, b :: cmp(a, b) == -cmp(b, a))
    && (forall a, b, c :: cmp(a, b) <= 0 && cmp(b, c) <= 0 ==> cmp(a, c) <= 0)
  }

  /** `le(a, b)` as `cmp(a, b) <= 0`. */
  function LeOf<T>(cmp: (T, T) -> int): (T, T) -> bool {
    (a: T, b: T) => cmp(a, b) <= 0
  }

  lemma ConsistentLe<T(!new)>(cmp: (T, T) -> int)
    requires Consistent(cmp)
    ensures Sorting.Total(LeOf(cmp)) && Sorting.Transitive(LeOf(cmp))
  {
  }

  /** Comparing by a name taken from each element. */
  function ByName<T>(name: T -> string, desc: bool): (T, T) -> int {
    (a: T, b: T) => CompareWithEmpty(name(a), name(b), desc)
  }

  lemma ByNameConsistent<T(!new)>(name: T -> string, desc: bool)
    ensures Consistent(ByName(name, desc))
  {
    forall a: T, b: T
      ensures ByName(name, desc)(a, b) == -ByName(name, desc)(b, a)
    {
      CompareWithEmptyAntisymmetric(name(a), name(b), desc);
    }
    forall a: T, b: T, c: T | ByName(name, desc)(a, b) <= 0 && ByName(name, desc)(b, c) <= 0
      ensures ByName(name, desc)(a, c) <= 0
    {
      CompareWithEmptyTransitive(name(a), name(b), name(c), desc);
    }
  }

  /** `a.localeCompare(b)` on a text taken from each element, or
      `b.localeCompare(a)` when `desc`. */
  function ByText<T>(text: T -> string, desc: bool): (T, T) -> int {
    (a: T, b: T) => if desc then Compare(text(b), text(a)) else Compare(text(a), text(b))
  }

  lemma ByTextConsistent<T(!new)>(text: T -> string, desc: bool)
    ensures Consistent(ByText(text, desc))
  {
    forall a: T, b: T
      ensures ByText(text, desc)(a, b) == -ByText(text, desc)(b, a)
    {
      CompareAntisymmetric(text(a), text(b));
    }
    forall a: T, b: T, c: T | ByText(text, desc)(a, b) <= 0 && ByText(text, desc)(b, c) <= 0
      ensures ByText(text, desc)(a, c) <= 0
    {
      if desc {
        LexTransitive(text(c), text(b), text(a));
      } else {
        LexTransitive(text(a), text(b), text(c));
      }
    }
  }

  /** `primary || secondary`: the second comparison decides only where the
      first finds the elements equal. */
  function Then<T>(primary: (T, T) -> int, secondary: (T, T) -> int): (T, T) -> int {
    (a: T, b: T) => if primary(a, b) != 0 then primary(a, b) else secondary(a, b)
  }

  /** Chaining two consistent comparators gives a consistent comparator. */
  lemma ThenConsistent<T(!new)>(primary: (T, T) -> int, secondary: (T, T) -> int)
    requires Consistent(primary) && Consistent(secondary)
    ensures Consistent(Then(primary, secondary))
  {
    var cmp := Then(primary, secondary);
    forall a: T, b: T, c: T | cmp(a, b) <= 0 && cmp(b, c) <= 0
      ensures cmp(a, c) <= 0
    {
      if primary(a, b) == 0 && primary(b, c) == 0 {
        assert primary(a, c) <= 0 && primary(c, a) <= 0;
      }
    }
  }

  /** The order of two names, then of two others, in the same direction:
      the comparator every sort mode of the two tables uses. */
  function TwoNames<T>(first: T -> string, second: T -> string, desc: bool): (T, T) -> int {
    Then(ByName(first, desc), ByName(second, desc))
  }

  lemma TwoNamesConsistent<T(!new)>(first: T -> string, second: T -> string, desc: bool)
    ensures Consistent(TwoNames(first, second, desc))
  {
    ByNameConsistent(first, desc);
    ByNameConsistent(second, desc);
    ThenConsistent(ByName(first, desc), ByName(second, desc));
  }

  /** Sorting by a consistent comparator gives a permutation of the input in
      which no element compares after a later one. */
  lemma SortedByConsistent<T(!new)>(s: seq<T>, cmp: (T, T) -> int)
    requires Consistent(cmp)
    ensures var r := Sorting.SortWith(s, LeOf(cmp));
      multiset(r) == multiset(s) && forall i, j :: 0 <= i < j < |r| ==> cmp(r[i], r[j]) <= 0
  {
    ConsistentLe(cmp);
    Sorting.SortWithSorted(s, LeOf(cmp));
    var r := Sorting.SortWith(s, LeOf(cmp));
    assert forall i, j :: 0 <= i < j < |r| ==> LeOf(cmp)(r[i], r[j]);
  }
}
