/** `src/utils/displayName.ts`: the text shown for a person, built from one
    name record or from the list of an individual's name records. */
module DisplayName {
  import opened Wrappers
  import opened Text
  import Sorting

  /** The fields of a `names` row the function reads; a missing or null
      field is `None`, and a missing `is_primary` is `false`. */
  datatype NameParts = NameParts(firstName: Option<string>, lastName: Option<string>, isPrimary: bool)

  /** The argument: null or undefined, an array of records, or one record. */
  datatype Names = NoNames | Many(records: seq<NameParts>) | One(record: NameParts)

  /** `options.part`; an absent option means `Full`. */
  datatype Part = First | Last | FullInverted | Full

  /** `field || ""`. */
  function OrEmpty(s: Option<string>): (r: string)
    ensures s.Some? ==> r == s.value
    ensures s.None? ==> r == ""
  {
    if s.Some? then s.value else ""
  }

  function IsPrimary(): NameParts -> bool {
    (n: NameParts) => n.isPrimary
  }

  /** The record an array is shown by: the first primary one, otherwise
      the first one. */
  function Chosen(records: seq<NameParts>): (r: NameParts)
    requires |records| > 0
    ensures r in records
    ensures r.isPrimary || forall i :: 0 <= i < |records| ==> !records[i].isPrimary
    ensures !r.isPrimary ==> r == records[0]
  {
    match Sorting.FindFirst(records, IsPrimary())
    case Some(n) => n
    case None => records[0]
  }

  /** `r` is `s` with the white space at both ends removed: a slice of `s`
      with only white space around it and none at its own ends. */
  ghost predicate StripsEnds(s: string, r: string) {
    exists i :: 0 <= i <= |s| - |r| && r == s[i..i + |r|] && IsBlank(s[..i]) && IsBlank(s[i + |r|..])
                && (|r| > 0 ==> !IsWhite(r[0]) && !IsWhite(r[|r| - 1]))
  }

  /** One record rendered as the requested part: a single name as stored
      (or ""), or both names joined and stripped of surrounding white
      space. The full form is empty exactly when both names are blank; the
      inverted form keeps its comma, so it is never empty. */
  function PartOf(n: NameParts, part: Part): (r: string)
    ensures part == First ==> r == OrEmpty(n.firstName)
    ensures part == Last ==> r == OrEmpty(n.lastName)
    ensures part == FullInverted ==> StripsEnds(OrEmpty(n.lastName) + ", " + OrEmpty(n.firstName), r) && ',' in r
    ensures part == Full ==> StripsEnds(OrEmpty(n.firstName) + " " + OrEmpty(n.lastName), r)
    ensures part == Full ==> (r == "" <==> IsBlank(OrEmpty(n.firstName)) && IsBlank(OrEmpty(n.lastName)))
  {
    match part
    case First => OrEmpty(n.firstName)
    case Last => OrEmpty(n.lastName)
    case FullInverted =>
      var s := OrEmpty(n.lastName) + ", " + OrEmpty(n.firstName);
      TrimStrips(s);
      CommaSurvives(OrEmpty(n.lastName), OrEmpty(n.firstName));
      Trim(s)
    case Full =>
      var s := OrEmpty(n.firstName) + " " + OrEmpty(n.lastName);
      TrimStrips(s);
      BlankJoin(OrEmpty(n.firstName), OrEmpty(n.lastName));
      TrimEmptyIffBlank(s);
      Trim(s)
  }

  lemma TrimStrips(s: string)
    ensures StripsEnds(s, Trim(s))
  {
    var k := TrimOffset(s);
    assert Trim(s) == s[k..k + |Trim(s)|];
  }

  /** Two texts joined by a space are blank exactly when both are. */
  lemma BlankJoin(a: string, b: string)
    ensures IsBlank(a + " " + b) <==> IsBlank(a) && IsBlank(b)
  {
    var s := a + " " + b;
    if IsBlank(s) {
      assert forall i :: 0 <= i < |a| ==> a[i] == s[i];
      assert forall i :: 0 <= i < |b| ==> b[i] == s[|a| + 1 + i];
    }
  }

  /** The comma of `last + ", " + first` is not white, so trimming keeps it. */
  lemma CommaSurvives(last: string, first: string)
    ensures ',' in Trim(last + ", " + first)
  {
    var s := last + ", " + first;
    var k := TrimOffset(s);
    var r := Trim(s);
    assert s[|last|] == ',';
    assert !IsBlank(s[..|last| + 1]) by { assert s[..|last| + 1][|last|] == ','; }
    assert !IsBlank(s[|last|..]) by { assert s[|last|..][0] == ','; }
    BlankPrefix(s, k, |last| + 1);
    BlankSuffix(s, k + |r|, |last|);
    assert r[|last| - k] == ',';
  }

  /** A blank prefix is no longer than any prefix that is not blank. */
  lemma BlankPrefix(s: string, k: nat, m: nat)
    requires k <= |s| && m <= |s| && IsBlank(s[..k]) && !IsBlank(s[..m])
    ensures k < m
  {
  }

  /** A blank suffix starts after any suffix that is not blank does. */
  lemma BlankSuffix(s: string, j: nat, m: nat)
    requires j <= |s| && m <= |s| && IsBlank(s[j..]) && !IsBlank(s[m..])
    ensures m < j
  {
  }

  /** `displayName(names, { part })`: nothing to show, and an empty array,
      give ""; an array is shown by its first primary record, or by its
      first record when none is primary; a single record by itself. */
  function Show(names: Names, part: Part): (r: string)
    ensures names.NoNames? ==> r == ""
    ensures names.Many? && |names.records| == 0 ==> r == ""
    ensures names.Many? && |names.records| > 0 ==>
              exists k :: 0 <= k < |names.records| && r == PartOf(names.records[k], part)
                          && (forall j :: 0 <= j < k ==> !names.records[j].isPrimary)
                          && (names.records[k].isPrimary || (k == 0 && forall j :: 0 <= j < |names.records| ==> !names.records[j].isPrimary))
    ensures names.One? ==> r == PartOf(names.record, part)
  {
    match names
    case NoNames => ""
    case Many(records) =>
      if |records| == 0 then ""
      else
        ChosenIndex(records);
        PartOf(Chosen(records), part)
    case One(n) => PartOf(n, part)
  }

  /** Where the chosen record sits: at the first primary index, or at 0
      when none is primary. */
  lemma ChosenIndex(records: seq<NameParts>)
    requires |records| > 0
    ensures exists k :: 0 <= k < |records| && Chosen(records) == records[k]
                        && (forall j :: 0 <= j < k ==> !records[j].isPrimary)
                        && (records[k].isPrimary || (k == 0 && forall j :: 0 <= j < |records| ==> !records[j].isPrimary))
  {
    if exists i :: 0 <= i < |records| && records[i].isPrimary {
      var k := FirstPrimary(records);
      Sorting.FindFirstAt(records, IsPrimary(), k);
      assert Chosen(records) == records[k];
    } else {
      assert Chosen(records) == records[0];
    }
  }

  /** The first primary index of a list that has one. */
  lemma FirstPrimary(records: seq<NameParts>) returns (k: nat)
    requires exists i :: 0 <= i < |records| && records[i].isPrimary
    ensures k < |records| && records[k].isPrimary && forall j :: 0 <= j < k ==> !records[j].isPrimary
  {
    k := 0;
    while !records[k].isPrimary
      invariant k < |records| && forall j :: 0 <= j < k ==> !records[j].isPrimary
      invariant exists i :: k <= i < |records| && records[i].isPrimary
      decreases |records| - k
    {
      k := k + 1;
    }
  }

  /** The array case picks the record at the first primary index, and the
      first record when no record is primary. */
  lemma ShowsFirstPrimary(records: seq<NameParts>, part: Part, i: int)
    requires 0 <= i < |records| && records[i].isPrimary
    requires forall j :: 0 <= j < i ==> !records[j].isPrimary
    ensures Show(Many(records), part) == PartOf(records[i], part)
  {
    Sorting.FindFirstAt(records, IsPrimary(), i);
  }

  lemma ShowsFirstWithoutPrimary(records: seq<NameParts>, part: Part)
    requires |records| > 0
    requires forall j :: 0 <= j < |records| ==> !records[j].isPrimary
    ensures Show(Many(records), part) == PartOf(records[0], part)
  {
  }

  /** A single record is shown as the one-element array holding it. */
  lemma OneIsSingletonArray(n: NameParts, part: Part)
    ensures Show(One(n), part) == Show(Many([n]), part)
  {
    if n.isPrimary {
      Sorting.FindFirstAt([n], IsPrimary(), 0);
    }
  }

  /** A string with no white space at either end is its own trim. */
  lemma {:induction false} TrimOfTrimmed(s: string)
    requires Trimmed(s)
    ensures Trim(s) == s
  {
    assert TrimStart(s) == s;
    assert TrimEnd(s) == s;
  }

  /** A record with neither name gives "" in full and "," inverted. */
  lemma NoNameParts(n: NameParts)
    requires OrEmpty(n.firstName) == "" && OrEmpty(n.lastName) == ""
    ensures PartOf(n, Full) == ""
    ensures PartOf(n, FullInverted) == ","
  {
    assert OrEmpty(n.lastName) + ", " + OrEmpty(n.firstName) == ", ";
    TrimCommaSpace();
  }

  lemma TrimCommaSpace()
    ensures Trim(", ") == ","
  {
    var c := ", ";
    assert c[0] == ',' && !IsWhite(',');
    assert TrimStart(c) == c;
    assert c[|c| - 1] == ' ' && IsWhite(' ') && c[..|c| - 1] == ",";
    assert TrimEnd(c) == TrimEnd(",");
    TrimOfTrimmed(",");
  }

  /** Non-empty, with no white space at either end. */
  predicate Trimmed(s: string) {
    |s| > 0 && !IsWhite(s[0]) && !IsWhite(s[|s| - 1])
  }

  lemma JoinTrimmed(a: string, sep: string, b: string)
    requires Trimmed(a) && Trimmed(b)
    ensures Trim(a + sep + b) == a + sep + b
  {
    var s := a + sep + b;
    assert s[0] == a[0] && s[|s| - 1] == b[|b| - 1];
    TrimOfTrimmed(s);
  }

  /** With both names present and without surrounding white space, the full
      form is the first name, a space and the last name. */
  lemma FullOfBoth(n: NameParts)
    requires n.firstName.Some? && Trimmed(n.firstName.value)
    requires n.lastName.Some? && Trimmed(n.lastName.value)
    ensures PartOf(n, Full) == n.firstName.value + " " + n.lastName.value
  {
    JoinTrimmed(n.firstName.value, " ", n.lastName.value);
  }

  /** Under the same condition the inverted form is the last name, a comma
      and a space, and the first name. */
  lemma InvertedOfBoth(n: NameParts)
    requires n.firstName.Some? && Trimmed(n.firstName.value)
    requires n.lastName.Some? && Trimmed(n.lastName.value)
    ensures PartOf(n, FullInverted) == n.lastName.value + ", " + n.firstName.value
  {
    JoinTrimmed(n.lastName.value, ", ", n.firstName.value);
  }
}
