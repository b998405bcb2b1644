/** `src/components/place/PlaceHeader.tsx`: the place page's heading — the
    type name in title case and the chain of parent places, nearest first. */
module PlaceHeader {
  import opened Wrappers
  import opened Text
  import Sorting

  // ---------------------------------------------------------------------
  // Title case
  // ---------------------------------------------------------------------

  /** One word with its first letter upper-cased and the rest lower-cased. */
  function CapitalizeWord(w: string): (r: string)
    ensures |r| == |w|
    ensures |w| > 0 ==> r[0] == UpperChar(w[0]) && r[1..] == Lower(w[1..])
  {
    if |w| == 0 then "" else [UpperChar(w[0])] + Lower(w[1..])
  }

  function CapitalizeWordF(): string -> string {
    (w: string) => CapitalizeWord(w)
  }

  /** `capitalize`: every space-separated word title-cased, the spaces kept. */
  function Capitalize(s: string): string {
    Join(Sorting.Map(Split(s, ' '), CapitalizeWordF()), " ")
  }

  lemma CapitalizeWordNoSpace(w: string)
    requires ' ' !in w
    ensures ' ' !in CapitalizeWord(w)
  {
    var r := CapitalizeWord(w);
    forall i | 0 <= i < |r|
      ensures r[i] != ' '
    {
      if i > 0 {
        assert r[i] == Lower(w[1..])[i - 1] == LowerChar(w[i]);
      }
    }
  }

  lemma CapitalizeWordIdempotent(w: string)
    ensures CapitalizeWord(CapitalizeWord(w)) == CapitalizeWord(w)
  {
    if |w| > 0 {
      LowerIdempotent(w[1..]);
    }
  }

  /** The words of `capitalize(s)` are the title-cased words of `s`. */
  lemma CapitalizeWords(s: string)
    ensures Split(Capitalize(s), ' ') == Sorting.Map(Split(s, ' '), CapitalizeWordF())
  {
    var ws := Sorting.Map(Split(s, ' '), CapitalizeWordF());
    forall i | 0 <= i < |ws|
      ensures ' ' !in ws[i]
    {
      CapitalizeWordNoSpace(Split(s, ' ')[i]);
    }
    SplitJoin(ws, ' ');
  }

  /** `capitalize` keeps the number of words, and applying it twice is
      applying it once (for the ASCII letters the model covers). */
  lemma CapitalizeKeepsWordCount(s: string)
    ensures |Split(Capitalize(s), ' ')| == |Split(s, ' ')|
  {
    CapitalizeWords(s);
  }

  lemma CapitalizeIdempotent(s: string)
    ensures Capitalize(Capitalize(s)) == Capitalize(s)
  {
    CapitalizeWords(s);
    var ws := Sorting.Map(Split(s, ' '), CapitalizeWordF());
    var again := Sorting.Map(ws, CapitalizeWordF());
    forall i | 0 <= i < |ws|
      ensures again[i] == ws[i]
    {
      CapitalizeWordIdempotent(Split(s, ' ')[i]);
    }
    assert again == ws;
  }

  // ---------------------------------------------------------------------
  // Parent chain
  // ---------------------------------------------------------------------

  /** A parent place and, recursively, its own parent. */
  datatype ParentPlace = ParentPlace(id: string, name: string, parent: Option<ParentPlace>)

  /** The chain from a place up to the root, nearest first. */
  function Ancestors(p: ParentPlace): (r: seq<ParentPlace>)
    ensures |r| >= 1 && r[0] == p
    ensures forall i :: 0 <= i < |r| - 1 ==> r[i].parent == Some(r[i + 1])
    ensures r[|r| - 1].parent.None?
    decreases p
  {
    match p.parent
    case None => [p]
    case Some(q) => [p] + Ancestors(q)
  }

  /** `flattenParentHierarchy(parent, hierarchy)`: pushes each place in turn
      and follows its parent until there is none. */
  function FlattenParentHierarchy(parent: ParentPlace, hierarchy: seq<ParentPlace>): (r: seq<ParentPlace>)
    ensures r == hierarchy + Ancestors(parent)
    decreases parent
  {
    var pushed := hierarchy + [parent];
    match parent.parent
    case None => pushed
    case Some(q) => FlattenParentHierarchy(q, pushed)
  }

  /** The hierarchy shown: none for a place without a parent; otherwise
      the direct parent first, each entry followed by its own parent, and
      last a root. */
  function ParentHierarchy(parent: Option<ParentPlace>): (r: Option<seq<ParentPlace>>)
    ensures r.None? <==> parent.None?
    ensures r.Some? ==> |r.value| >= 1 && r.value[0] == parent.value
    ensures r.Some? ==> forall i :: 0 <= i < |r.value| - 1 ==> r.value[i].parent == Some(r.value[i + 1])
    ensures r.Some? ==> r.value[|r.value| - 1].parent.None?
  {
    match parent
    case None => None
    case Some(p) => Some(FlattenParentHierarchy(p, []))
  }

  /** The hierarchy's text: each name, followed by " - " unless it is the
      last. */
  function Rendered(h: seq<ParentPlace>): string
    decreases |h|
  {
    if |h| == 0 then ""
    else h[0].name + (if 0 < |h| - 1 then " - " else "") + Rendered(h[1..])
  }

  function Names(h: seq<ParentPlace>): (r: seq<string>)
    ensures |r| == |h| && forall i :: 0 <= i < |h| ==> r[i] == h[i].name
  {
    Sorting.Map(h, (p: ParentPlace) => p.name)
  }

  /** The separators fall between consecutive names only: the text is the
      names joined by " - ". */
  lemma {:induction false} RenderedJoinsNames(h: seq<ParentPlace>)
    ensures Rendered(h) == Join(Names(h), " - ")
    decreases |h|
  {
    if |h| > 1 {
      RenderedJoinsNames(h[1..]);
      assert Names(h)[1..] == Names(h[1..]);
    } else if |h| == 1 {
      assert Rendered(h[1..]) == "";
    }
  }
}
