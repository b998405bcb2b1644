/** A stable sort driven by a "less than or equal" predicate, standing for
    `Array.prototype.sort` with a comparator `cmp` (with `le(a, b)` meaning
    `cmp(a, b) <= 0`). ECMAScript sorts are stable since 2019, and insertion
    sort is stable, so for a consistent comparator this yields the same order. */
module Sorting {
  import opened Wrappers
  import Text

  /** Every earlier element is `le` every later one. */
  ghost predicate SortedBy<T>(s: seq<T>, le: (T, T) -> bool) {
    forall i, j :: 0 <= i < j < |s| ==> le(s[i], s[j])
  }

  ghost predicate Total<T(!new)>(le: (T, T) -> bool) {
    forall a, b :: le(a, b) || le(b, a)
  }

  ghost predicate Transitive<T(!new)>(le: (T, T) -> bool) {
    forall a, b, c :: le(a, b) && le(b, c) ==> le(a, c)
  }

  /** Inserts `x` in front of the first element it is `le` to. */
  function Insert<T>(x: T, s: seq<T>, le: (T, T) -> bool): (r: seq<T>)
    ensures multiset(r) == multiset(s) + multiset{x}
    ensures |r| == |s| + 1
  {
    if |s| == 0 then [x]
    else if le(x, s[0]) then [x] + s
    else
      assert s == [s[0]] + s[1..];
      [s[0]] + Insert(x, s[1..], le)
  }

  /** The list sorted by `le`, equal elements keeping their input order. */
  function SortWith<T>(s: seq<T>, le: (T, T) -> bool): (r: seq<T>)
    ensures multiset(r) == multiset(s)
    ensures |r| == |s|
  {
    if |s| == 0 then []
    else
      assert s == [s[0]] + s[1..];
      Insert(s[0], SortWith(s[1..], le), le)
  }

  lemma {:induction false} InsertSorted<T(!new)>(x: T, s: seq<T>, le: (T, T) -> bool)
    requires Total(le) && Transitive(le)
    requires SortedBy(s, le)
    ensures SortedBy(Insert(x, s, le), le)
    decreases |s|
  {
    if |s| > 0 && !le(x, s[0]) {
      var t := Insert(x, s[1..], le);
      InsertSorted(x, s[1..], le);
      var r := [s[0]] + t;
      forall j | 0 < j < |r|
        ensures le(s[0], r[j])
      {
        assert r[j] in multiset(t);
        assert r[j] in multiset(s[1..]) + multiset{x};
        if r[j] != x {
          var k :| 0 <= k < |s[1..]| && s[1..][k] == r[j];
          assert s[k + 1] == r[j];
        }
      }
    }
  }

  /** With a total, transitive `le` the result is sorted. */
  lemma {:induction false} SortWithSorted<T(!new)>(s: seq<T>, le: (T, T) -> bool)
    requires Total(le) && Transitive(le)
    ensures SortedBy(SortWith(s, le), le)
    decreases |s|
  {
    if |s| > 0 {
      SortWithSorted(s[1..], le);
      InsertSorted(s[0], SortWith(s[1..], le), le);
    }
  }

  /** A comparator that calls every pair equal leaves the order unchanged. */
  lemma {:induction false} SortWithAllEqual<T>(s: seq<T>, le: (T, T) -> bool)
    requires forall a, b :: le(a, b)
    ensures SortWith(s, le) == s
    decreases |s|
  {
    if |s| > 0 {
      SortWithAllEqual(s[1..], le);
    }
  }

  /** Sorting by a key under a total order on keys. */
  function KeyLe<T>(key: T -> string): (T, T) -> bool {
    (a: T, b: T) => Text.LexLe(key(a), key(b))
  }

  lemma KeyLeTotalTransitive<T(!new)>(key: T -> string)
    ensures Total(KeyLe(key)) && Transitive(KeyLe(key))
  {
    forall a: T, b: T
      ensures KeyLe(key)(a, b) || KeyLe(key)(b, a)
    {
      Text.LexTotal(key(a), key(b));
    }
    forall a: T, b: T, c: T
      ensures KeyLe(key)(a, b) && KeyLe(key)(b, c) ==> KeyLe(key)(a, c)
    {
      Text.LexTransitive(key(a), key(b), key(c));
    }
  }

  /** The list sorted by a string key (code-point order). */
  function SortByKey<T(!new)>(s: seq<T>, key: T -> string): (r: seq<T>)
    ensures multiset(r) == multiset(s)
    ensures forall i, j :: 0 <= i < j < |r| ==> Text.LexLe(key(r[i]), key(r[j]))
  {
    KeyLeTotalTransitive(key);
    SortWithSorted(s, KeyLe(key));
    var r := SortWith(s, KeyLe(key));
    assert forall i, j :: 0 <= i < j < |r| ==> KeyLe(key)(r[i], r[j]);
    r
  }

  /** Keeps the elements satisfying `p`, in order: `Array.prototype.filter`. */
  function Filter<T(!new)>(s: seq<T>, p: T -> bool): (r: seq<T>)
    ensures |r| <= |s|
    ensures forall x :: x in r <==> x in s && p(x)
  {
    if |s| == 0 then []
    else
      assert s == [s[0]] + s[1..];
      (if p(s[0]) then [s[0]] else []) + Filter(s[1..], p)
  }

  /** `sub` is `s` with some elements left out, order kept. */
  ghost predicate IsSublist<T>(sub: seq<T>, s: seq<T>)
    decreases |s|
  {
    |sub| == 0
    || (|s| > 0 && ((sub[0] == s[0] && IsSublist(sub[1..], s[1..])) || IsSublist(sub, s[1..])))
  }

  /** `Filter` keeps the input order. */
  lemma {:induction false} FilterIsSublist<T(!new)>(s: seq<T>, p: T -> bool)
    ensures IsSublist(Filter(s, p), s)
    decreases |s|
  {
    if |s| > 0 {
      FilterIsSublist(s[1..], p);
      if p(s[0]) {
        assert Filter(s, p) == [s[0]] + Filter(s[1..], p);
        assert Filter(s, p)[1..] == Filter(s[1..], p);
      } else {
        assert Filter(s, p) == Filter(s[1..], p);
      }
    }
  }

  /** A filter that keeps everything is the identity. */
  lemma {:induction false} FilterAll<T(!new)>(s: seq<T>, p: T -> bool)
    requires forall x :: x in s ==> p(x)
    ensures Filter(s, p) == s
    decreases |s|
  {
    if |s| > 0 {
      FilterAll(s[1..], p);
      assert s == [s[0]] + s[1..];
    }
  }

  /** `Array.prototype.map`. */
  function Map<T, U>(s: seq<T>, f: T -> U): (r: seq<U>)
    ensures |r| == |s|
    ensures forall i :: 0 <= i < |s| ==> r[i] == f(s[i])
  {
    seq(|s|, i requires 0 <= i < |s| => f(s[i]))
  }

  /** No two elements share a key. */
  ghost predicate DistinctBy<T, K>(s: seq<T>, key: T -> K) {
    forall i, j :: 0 <= i < j < |s| ==> key(s[i]) != key(s[j])
  }

  /** A permutation of a list whose keys are distinct has distinct keys. */
  lemma PermutationKeepsDistinct<T, K>(all: seq<T>, perm: seq<T>, key: T -> K)
    requires DistinctBy(all, key) && multiset(perm) == multiset(all)
    ensures DistinctBy(perm, key)
  {
    forall i, j | 0 <= i < j < |perm| ensures key(perm[i]) != key(perm[j]) {
      assert perm[i] in multiset(all) && perm[j] in multiset(all);
      var a :| 0 <= a < |all| && all[a] == perm[i];
      var b :| 0 <= b < |all| && all[b] == perm[j];
      SingleOccurrence(all, a, key);
      OnlyIndex(perm, i, j);
      assert a != b;
    }
  }

  /** An element counted once occurs at one index only. */
  lemma OnlyIndex<T>(s: seq<T>, i: int, j: int)
    requires 0 <= i < j < |s| && multiset(s)[s[i]] == 1
    ensures s[j] != s[i]
  {
    if s[j] == s[i] {
      CountTwo(s, i, j);
    }
  }

  lemma CountTwo<T>(s: seq<T>, i: int, j: int)
    requires 0 <= i < j < |s| && s[i] == s[j]
    ensures multiset(s)[s[i]] >= 2
  {
    assert s == s[..i] + [s[i]] + s[i + 1..];
    assert s[i + 1..][j - i - 1] == s[j];
    assert s[j] in multiset(s[i + 1..]);
  }

  /** In a list with distinct keys each element occurs once. */
  lemma {:induction false} SingleOccurrence<T, K>(all: seq<T>, a: int, key: T -> K)
    requires DistinctBy(all, key) && 0 <= a < |all|
    ensures multiset(all)[all[a]] == 1
  {
    assert all == [all[0]] + all[1..];
    if a == 0 {
      forall k | 0 <= k < |all[1..]| ensures all[1..][k] != all[0] {
        assert all[1..][k] == all[k + 1];
      }
      assert all[0] !in all[1..];
    } else {
      assert all[1..][a - 1] == all[a];
      assert DistinctBy(all[1..], key) by {
        forall i, j | 0 <= i < j < |all[1..]| ensures key(all[1..][i]) != key(all[1..][j]) {
          assert all[1..][i] == all[i + 1] && all[1..][j] == all[j + 1];
        }
      }
      SingleOccurrence(all[1..], a - 1, key);
      assert all[0] != all[a] by { assert key(all[0]) != key(all[a]); }
    }
  }

  /** Leaving elements out keeps keys distinct. */
  lemma {:induction false} FilterKeepsDistinct<T(!new), K>(s: seq<T>, p: T -> bool, key: T -> K)
    requires DistinctBy(s, key)
    ensures DistinctBy(Filter(s, p), key)
    decreases |s|
  {
    if |s| > 0 {
      assert DistinctBy(s[1..], key) by {
        forall i, j | 0 <= i < j < |s[1..]| ensures key(s[1..][i]) != key(s[1..][j]) {
          assert s[1..][i] == s[i + 1] && s[1..][j] == s[j + 1];
        }
      }
      FilterKeepsDistinct(s[1..], p, key);
      var rest := Filter(s[1..], p);
      if p(s[0]) {
        var r := [s[0]] + rest;
        assert Filter(s, p) == r;
        forall i, j | 0 <= i < j < |r| ensures key(r[i]) != key(r[j]) {
          if i == 0 {
            assert r[j] in s[1..];
            var k :| 0 <= k < |s[1..]| && s[1..][k] == r[j];
            assert s[k + 1] == r[j];
          } else {
            assert r[i] == rest[i - 1] && r[j] == rest[j - 1];
          }
        }
      } else {
        assert Filter(s, p) == rest;
      }
    }
  }

  /** Lists with the same elements, counted, have the same members. */
  lemma SameMembers<T>(a: seq<T>, b: seq<T>)
    requires multiset(a) == multiset(b)
    ensures forall x :: x in a <==> x in b
  {
    assert forall x :: x in a <==> x in multiset(a);
    assert forall x :: x in b <==> x in multiset(b);
  }

  /** `Array.prototype.find`, and `result[0]` of a query filtered by `p`:
      the first element satisfying `p`. */
  function FindFirst<T>(s: seq<T>, p: T -> bool): (r: Option<T>)
    ensures r.Some? ==> r.value in s && p(r.value)
    ensures r.None? <==> forall i :: 0 <= i < |s| ==> !p(s[i])
  {
    if |s| == 0 then None
    else if p(s[0]) then Some(s[0])
    else
      assert forall i :: 1 <= i < |s| ==> s[i] == s[1..][i - 1];
      FindFirst(s[1..], p)
  }

  /** An element appended after every match leaves the first match alone,
      and is itself the first match when nothing before it matches. */
  lemma {:induction false} FindFirstAppend<T>(s: seq<T>, x: T, p: T -> bool)
    ensures FindFirst(s + [x], p) == if FindFirst(s, p).Some? then FindFirst(s, p) else if p(x) then Some(x) else None
    decreases |s|
  {
    if |s| > 0 {
      assert (s + [x])[1..] == s[1..] + [x];
      FindFirstAppend(s[1..], x, p);
    }
  }

  /** The element at the first matching index is what `FindFirst` returns. */
  lemma {:induction false} FindFirstAt<T>(s: seq<T>, p: T -> bool, i: int)
    requires 0 <= i < |s| && p(s[i])
    requires forall j :: 0 <= j < i ==> !p(s[j])
    ensures FindFirst(s, p) == Some(s[i])
    decreases i
  {
    if i > 0 {
      assert forall j :: 0 <= j < i - 1 ==> s[1..][j] == s[j + 1];
      FindFirstAt(s[1..], p, i - 1);
    }
  }

  /** Rewriting every element without changing whether it matches rewrites
      the first match the same way. */
  lemma {:induction false} FindFirstMap<T>(s: seq<T>, f: T -> T, p: T -> bool)
    requires forall x :: p(f(x)) == p(x)
    ensures FindFirst(Map(s, f), p) == if FindFirst(s, p).Some? then Some(f(FindFirst(s, p).value)) else None
    decreases |s|
  {
    if |s| > 0 {
      assert Map(s, f)[1..] == Map(s[1..], f);
      FindFirstMap(s[1..], f, p);
    }
  }

  lemma MapConcat<T, U>(a: seq<T>, b: seq<T>, f: T -> U)
    ensures Map(a + b, f) == Map(a, f) + Map(b, f)
  {
  }

  lemma FilterCons<T(!new)>(x: T, s: seq<T>, p: T -> bool)
    ensures Filter([x] + s, p) == (if p(x) then [x] else []) + Filter(s, p)
  {
    assert ([x] + s)[1..] == s;
  }

  lemma {:induction false} FilterAppend<T(!new)>(s: seq<T>, x: T, p: T -> bool)
    ensures Filter(s + [x], p) == Filter(s, p) + (if p(x) then [x] else [])
    decreases |s|
  {
    if |s| > 0 {
      assert (s + [x])[1..] == s[1..] + [x];
      FilterAppend(s[1..], x, p);
    }
  }

  lemma {:induction false} FilterNone<T(!new)>(s: seq<T>, p: T -> bool)
    requires forall i :: 0 <= i < |s| ==> !p(s[i])
    ensures Filter(s, p) == []
    decreases |s|
  {
    if |s| > 0 {
      FilterNone(s[1..], p);
    }
  }

  /** Two matching elements appended to a list with no match are all the
      filter keeps. */
  lemma FilterNoneThenTwo<T(!new)>(s: seq<T>, x: T, y: T, p: T -> bool)
    requires forall i :: 0 <= i < |s| ==> !p(s[i])
    requires p(x) && p(y)
    ensures Filter(s + [x] + [y], p) == [x, y]
  {
    FilterNone(s, p);
    FilterAppend(s, x, p);
    FilterAppend(s + [x], y, p);
  }

  /** Filtering distributes over concatenation. */
  lemma {:induction false} FilterConcat<T(!new)>(a: seq<T>, b: seq<T>, p: T -> bool)
    ensures Filter(a + b, p) == Filter(a, p) + Filter(b, p)
    decreases |a|
  {
    if |a| == 0 {
      assert a + b == b;
    } else {
      assert (a + b)[0] == a[0] && (a + b)[1..] == a[1..] + b;
      FilterConcat(a[1..], b, p);
    }
  }

  function Both<T>(p: T -> bool, q: T -> bool): T -> bool {
    (x: T) => p(x) && q(x)
  }

  /** Two filters in a row are one filter by both conditions. */
  lemma {:induction false} FilterFilter<T(!new)>(s: seq<T>, p: T -> bool, q: T -> bool)
    ensures Filter(Filter(s, p), q) == Filter(s, Both(p, q))
    decreases |s|
  {
    if |s| > 0 {
      FilterFilter(s[1..], p, q);
      var head := if p(s[0]) then [s[0]] else [];
      assert Filter(s, p) == head + Filter(s[1..], p);
      FilterConcat(head, Filter(s[1..], p), q);
      if p(s[0]) {
        assert Filter(head, q) == (if q(s[0]) then [s[0]] else []) by {
          assert head[1..] == [];
        }
      }
    }
  }
  function Not<T>(p: T -> bool): T -> bool {
    (x: T) => !p(x)
  }

  /** Filters by conditions that agree on every element agree. */
  lemma {:induction false} FilterExt<T(!new)>(s: seq<T>, p: T -> bool, q: T -> bool)
    requires forall x :: x in s ==> p(x) == q(x)
    ensures Filter(s, p) == Filter(s, q)
    decreases |s|
  {
    if |s| > 0 {
      assert forall x :: x in s[1..] ==> x in s;
      FilterExt(s[1..], p, q);
    }
  }

  /** Removing elements that `q` rejects anyway leaves `q`'s selection
      alone. */
  lemma FilterOutUnselected<T(!new)>(s: seq<T>, p: T -> bool, q: T -> bool)
    requires forall x :: x in s && q(x) ==> p(x)
    ensures Filter(Filter(s, p), q) == Filter(s, q)
  {
    FilterFilter(s, p, q);
    FilterExt(s, Both(p, q), q);
  }

  /** `[...new Set(s)]`: each distinct element once, in order of first
      occurrence. */
  function Dedupe<T(==,!new)>(s: seq<T>): (r: seq<T>)
    ensures forall x :: x in r <==> x in s
    ensures forall i, j :: 0 <= i < j < |r| ==> r[i] != r[j]
    decreases |s|
  {
    if |s| == 0 then []
    else
      var d := Dedupe(s[..|s| - 1]);
      var x := s[|s| - 1];
      assert s == s[..|s| - 1] + [x];
      if x in d then d else d + [x]
  }

  /** A list without repeats is its own `Dedupe`. */
  lemma {:induction false} DedupeOfDistinct<T(!new)>(s: seq<T>)
    requires forall i, j :: 0 <= i < j < |s| ==> s[i] != s[j]
    ensures Dedupe(s) == s
    decreases |s|
  {
    if |s| > 0 {
      DedupeOfDistinct(s[..|s| - 1]);
      assert s == s[..|s| - 1] + [s[|s| - 1]];
    }
  }

  /** The position `Array.prototype.slice` takes a bound `k` to in a list of
      length `n`: counted back from the end when negative, then clamped to
      `0..n`. */
  function SliceIndex(k: int, n: nat): (r: nat)
    ensures r <= n
    ensures 0 <= k <= n ==> r == k
    ensures k > n ==> r == n
    ensures k < 0 ==> r == if n + k < 0 then 0 else n + k
  {
    if k < 0 then (if n + k < 0 then 0 else n + k) else if k > n then n else k
  }

  /** `s.slice(start, end)`: the elements from the first bound up to, not
      including, the second; empty when the bounds cross. */
  function Slice<T>(s: seq<T>, start: int, end: int): (r: seq<T>)
    ensures |r| <= |s|
    ensures var a, b := SliceIndex(start, |s|), SliceIndex(end, |s|);
      (a < b ==> r == s[a..b]) && (b <= a ==> r == [])
  {
    var a, b := SliceIndex(start, |s|), SliceIndex(end, |s|);
    if a < b then s[a..b] else []
  }
}
