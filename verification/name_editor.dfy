/** The multi-name editor of the new-individual form
    (`src/pages/IndividualsPage.tsx`): a list of name entries of which the
    form keeps exactly one primary, the edits the form offers on it, and the
    clean-up the names go through before they are created. */
module NameEditor {
  import opened Wrappers
  import opened Text
  import Sorting

  /** `NameFormData`: one name entry as typed in the form. */
  datatype NameForm = NameForm(nameType: string, firstName: string, lastName: string, isPrimary: bool)

  /** `createEmptyName(isPrimary)`. */
  function EmptyName(isPrimary: bool): NameForm {
    NameForm("birth", "", "", isPrimary)
  }

  /** An entry as `createEmptyName` leaves it: a birth name with both parts empty. */
  predicate Fresh(n: NameForm) {
    n.nameType == "birth" && n.firstName == "" && n.lastName == ""
  }

  /** Entry `p` is primary and no other entry is. */
  predicate SolePrimary(names: seq<NameForm>, p: int) {
    0 <= p < |names| && forall i :: 0 <= i < |names| ==> (names[i].isPrimary <==> i == p)
  }

  /** The two entries carry the same type and name parts. */
  predicate SameText(a: NameForm, b: NameForm) {
    a.nameType == b.nameType && a.firstName == b.firstName && a.lastName == b.lastName
  }

  // ---------------------------------------------------------------------
  // The edits
  // ---------------------------------------------------------------------

  /** The names of `createEmptyFormWithName`: one fresh entry, primary. */
  function InitialNames(): (r: seq<NameForm>)
    ensures |r| == 1 && Fresh(r[0]) && SolePrimary(r, 0)
  {
    [EmptyName(true)]
  }

  /** `addName`: a fresh entry, not primary, after the others. */
  function AddName(names: seq<NameForm>): (r: seq<NameForm>)
    ensures |r| == |names| + 1 && r[..|names|] == names
    ensures Fresh(r[|names|]) && !r[|names|].isPrimary
  {
    names + [EmptyName(false)]
  }

  /** Adding an entry keeps the primary where it was. */
  lemma AddNameKeepsPrimary(names: seq<NameForm>, p: int)
    requires SolePrimary(names, p)
    ensures SolePrimary(AddName(names), p)
  {
  }

  /** `setPrimary(index)`: every entry's flag becomes "is at `index`". */
  function SetPrimary(names: seq<NameForm>, index: int): (r: seq<NameForm>)
    ensures |r| == |names|
    ensures forall i :: 0 <= i < |r| ==> SameText(r[i], names[i]) && (r[i].isPrimary <==> i == index)
  {
    seq(|names|, i requires 0 <= i < |names| => names[i].(isPrimary := i == index))
  }

  /** Partner of `SetPrimary`: on an entry of the list it leaves that entry
      the only primary, whatever the flags were before. */
  lemma SetPrimaryMakesSole(names: seq<NameForm>, index: int)
    requires 0 <= index < |names|
    ensures SolePrimary(SetPrimary(names, index), index)
  {
  }

  /** Choosing the same primary twice changes nothing more. */
  lemma SetPrimaryIdempotent(names: seq<NameForm>, index: int)
    ensures SetPrimary(SetPrimary(names, index), index) == SetPrimary(names, index)
  {
  }

  /** The entry at `index` skipped: `names.filter((_, i) => i !== index)`. */
  function Without(names: seq<NameForm>, index: int): (r: seq<NameForm>)
    ensures 0 <= index < |names| ==> |r| == |names| - 1
    ensures !(0 <= index < |names|) ==> r == names
    ensures 0 <= index < |names| ==> forall k :: 0 <= k < |r| ==> r[k] == names[if k < index then k else k + 1]
  {
    if 0 <= index < |names| then names[..index] + names[index + 1..] else names
  }

  /** The message of the `TypeError` the flag test throws when `index` is
      not an entry. */
  const NoEntryAtIndex: string := "Cannot read properties of undefined (reading 'isPrimary')"

  /** `removeName(index)`: the entry is dropped; no entry left gives a fresh
      primary one; dropping the primary makes the first remaining entry the
      primary. Any other index throws once the flag of the missing entry is
      read, unless no entry was there to begin with. */
  function RemoveName(names: seq<NameForm>, index: int): (r: Result<seq<NameForm>>)
    ensures r.Success? <==> 0 <= index < |names| || |names| == 0
    ensures r.Success? && |names| <= 1 ==> r.value == InitialNames()
    ensures r.Success? && |names| > 1 ==>
              && |r.value| == |names| - 1
              && (forall k :: 0 <= k < |r.value| ==> SameText(r.value[k], names[if k < index then k else k + 1]))
              && (names[index].isPrimary ==> SolePrimary(r.value, 0))
              && (!names[index].isPrimary ==> r.value == Without(names, index))
  {
    var rest := Without(names, index);
    if |rest| == 0 then Success(InitialNames())
    else if !(0 <= index < |names|) then Failure(NoEntryAtIndex)
    else if names[index].isPrimary then Success(SetPrimary(rest, 0))
    else Success(rest)
  }

  /** Partner of `RemoveName`: removing an entry keeps exactly one primary,
      the same entry as before unless it was the one removed. */
  lemma RemoveNameKeepsSolePrimary(names: seq<NameForm>, index: int, p: int)
    requires SolePrimary(names, p) && 0 <= index < |names|
    ensures var q := if |names| == 1 || p == index then 0 else if p < index then p else p - 1;
      RemoveName(names, index).Success? && SolePrimary(RemoveName(names, index).value, q)
  {
    if |names| > 1 && p != index {
      var r := RemoveName(names, index).value;
      var q := if p < index then p else p - 1;
      forall k | 0 <= k < |r| ensures r[k].isPrimary <==> k == q {
        assert r[k] == names[if k < index then k else k + 1];
      }
    }
  }

  /** The change `updateName(index, field, value)` makes: one field, one value. */
  datatype Edit = SetType(nameType: string) | SetFirstName(firstName: string) | SetLastName(lastName: string)
                | SetIsPrimary(isPrimary: bool)

  /** `updateName`: the entry at `index` with the field replaced, the other
      entries as they were (an index off the list changes nothing). */
  function UpdateName(names: seq<NameForm>, index: int, edit: Edit): (r: seq<NameForm>)
    ensures |r| == |names|
    ensures forall i :: 0 <= i < |r| && i != index ==> r[i] == names[i]
    ensures 0 <= index < |r| ==>
              && r[index].nameType == (if edit.SetType? then edit.nameType else names[index].nameType)
              && r[index].firstName == (if edit.SetFirstName? then edit.firstName else names[index].firstName)
              && r[index].lastName == (if edit.SetLastName? then edit.lastName else names[index].lastName)
              && r[index].isPrimary == (if edit.SetIsPrimary? then edit.isPrimary else names[index].isPrimary)
  {
    seq(|names|, i requires 0 <= i < |names| =>
      if i != index then names[i]
      else match edit
        case SetType(t) => names[i].(nameType := t)
        case SetFirstName(s) => names[i].(firstName := s)
        case SetLastName(s) => names[i].(lastName := s)
        case SetIsPrimary(b) => names[i].(isPrimary := b))
  }

  /** The edits the form's inputs make (type, first name, last name) leave
      the primary where it was. */
  lemma TextEditKeepsPrimary(names: seq<NameForm>, index: int, edit: Edit, p: int)
    requires SolePrimary(names, p) && !edit.SetIsPrimary?
    ensures SolePrimary(UpdateName(names, index, edit), p)
  {
  }

  /** Writing a field with the value it already holds changes nothing. */
  lemma UpdateNameSameValue(names: seq<NameForm>, index: int)
    requires 0 <= index < |names|
    ensures UpdateName(names, index, SetFirstName(names[index].firstName)) == names
    ensures UpdateName(names, index, SetLastName(names[index].lastName)) == names
    ensures UpdateName(names, index, SetType(names[index].nameType)) == names
  {
  }

  // ---------------------------------------------------------------------
  // Counting primaries
  // ---------------------------------------------------------------------

  function PrimaryCount(names: seq<NameForm>): nat {
    if |names| == 0 then 0 else (if names[0].isPrimary then 1 else 0) + PrimaryCount(names[1..])
  }

  /** `names.some(name => name.isPrimary)`. */
  predicate HasPrimary(names: seq<NameForm>) {
    exists i :: 0 <= i < |names| && names[i].isPrimary
  }

  lemma {:induction false} CountZeroIffNone(names: seq<NameForm>)
    ensures PrimaryCount(names) == 0 <==> !HasPrimary(names)
    decreases |names|
  {
    if |names| > 0 {
      CountZeroIffNone(names[1..]);
      if HasPrimary(names[1..]) {
        var i :| 0 <= i < |names[1..]| && names[1..][i].isPrimary;
        assert names[i + 1].isPrimary;
      }
      if !names[0].isPrimary && HasPrimary(names) {
        var i :| 0 <= i < |names| && names[i].isPrimary;
        assert names[1..][i - 1].isPrimary;
      }
    }
  }

  lemma {:induction false} SolePrimaryCount(names: seq<NameForm>, p: int)
    requires SolePrimary(names, p)
    ensures PrimaryCount(names) == 1
    decreases |names|
  {
    if p == 0 {
      CountZeroIffNone(names[1..]);
    } else {
      assert names[1..][p - 1] == names[p];
      SolePrimaryCount(names[1..], p - 1);
    }
  }

  lemma {:induction false} CountOneSole(names: seq<NameForm>) returns (p: int)
    requires PrimaryCount(names) == 1
    ensures SolePrimary(names, p)
    decreases |names|
  {
    if names[0].isPrimary {
      CountZeroIffNone(names[1..]);
      p := 0;
      forall i | 0 < i < |names| ensures !names[i].isPrimary {
        assert names[i] == names[1..][i - 1];
      }
    } else {
      var q := CountOneSole(names[1..]);
      p := q + 1;
      forall i | 0 < i < |names| ensures names[i].isPrimary <==> i == p {
        assert names[i] == names[1..][i - 1];
      }
    }
  }

  lemma {:induction false} FilterPrimaryCount(names: seq<NameForm>, keep: NameForm -> bool)
    ensures PrimaryCount(Sorting.Filter(names, keep)) <= PrimaryCount(names)
    decreases |names|
  {
    if |names| > 0 {
      FilterPrimaryCount(names[1..], keep);
      var rest := Sorting.Filter(names[1..], keep);
      if keep(names[0]) {
        assert Sorting.Filter(names, keep) == [names[0]] + rest;
        assert ([names[0]] + rest)[1..] == rest;
      } else {
        assert Sorting.Filter(names, keep) == rest;
      }
    }
  }

  // ---------------------------------------------------------------------
  // Submitting
  // ---------------------------------------------------------------------

  /** `name.firstName.trim() || name.lastName.trim()`: the entry names someone. */
  predicate Filled(n: NameForm) {
    Trim(n.firstName) != "" || Trim(n.lastName) != ""
  }

  function FilledF(): NameForm -> bool {
    (n: NameForm) => Filled(n)
  }

  /** `validNames[0].isPrimary = true` when no kept entry is primary: the
      flags stay as they are if one is, else only the first entry is primary. */
  function EnsurePrimary(kept: seq<NameForm>): (r: seq<NameForm>)
    ensures |r| == |kept|
    ensures forall i :: 0 <= i < |r| ==> SameText(r[i], kept[i])
    ensures HasPrimary(kept) ==> r == kept
    ensures !HasPrimary(kept) ==> forall i :: 0 <= i < |r| ==> (r[i].isPrimary <==> i == 0)
  {
    if |kept| > 0 && !HasPrimary(kept) then [kept[0].(isPrimary := true)] + kept[1..] else kept
  }

  /** `part.trim() || null`. */
  function PartOrNull(part: string): (r: Option<string>)
    ensures r.None? <==> IsBlank(part)
    ensures r.Some? ==> r.value == Trim(part) && r.value != ""
  {
    TrimEmptyIffBlank(part);
    var t := Trim(part);
    if t == "" then None else Some(t)
  }

  /** The input of one `createName` call (the individual's id is added by the caller). */
  datatype NewName = NewName(nameType: string, firstName: Option<string>, lastName: Option<string>, isPrimary: bool)

  function ToNewName(n: NameForm): NewName {
    NewName(n.nameType, PartOrNull(n.firstName), PartOrNull(n.lastName), n.isPrimary)
  }

  function ToNewNameF(): NameForm -> NewName {
    (n: NameForm) => ToNewName(n)
  }

  /** The entries that name someone. */
  function Kept(names: seq<NameForm>): (r: seq<NameForm>)
    ensures forall n :: n in r <==> n in names && Filled(n)
  {
    Sorting.Filter(names, FilledF())
  }

  /** The names `handleCreateIndividual` creates once the individual exists,
      one per entry that names someone; none of them has both parts null. */
  function Submit(names: seq<NameForm>): (r: seq<NewName>)
    ensures |r| == |Kept(names)|
    ensures forall k :: 0 <= k < |r| ==> r[k].firstName.Some? || r[k].lastName.Some?
  {
    var kept := Kept(names);
    assert forall k :: 0 <= k < |kept| ==> kept[k] in kept;
    Sorting.Map(EnsurePrimary(kept), ToNewNameF())
  }

  /** The fields `Submit` sends: the type as chosen, the parts trimmed with
      blank ones as `null`, and the flags of the kept entries, or only the
      first one primary if none of them was. */
  lemma SubmitFields(names: seq<NameForm>, k: int)
    requires 0 <= k < |Submit(names)|
    ensures var kept, r := Kept(names), Submit(names);
      && r[k].nameType == kept[k].nameType
      && r[k].firstName == PartOrNull(kept[k].firstName)
      && r[k].lastName == PartOrNull(kept[k].lastName)
      && (HasPrimary(kept) ==> r[k].isPrimary == kept[k].isPrimary)
      && (!HasPrimary(kept) ==> (r[k].isPrimary <==> k == 0))
  {
  }

  /** The created name at `q` is the only primary one. */
  predicate SolePrimaryCreated(r: seq<NewName>, q: int) {
    0 <= q < |r| && forall k :: 0 <= k < |r| ==> (r[k].isPrimary <==> k == q)
  }

  /** Partner of `Submit`: from a form with exactly one primary entry, the
      names created (if any) have exactly one primary: the primary entry's
      own when it names someone, else the first one kept. */
  lemma SubmitHasSolePrimary(names: seq<NameForm>, p: int)
    requires SolePrimary(names, p)
    ensures |Submit(names)| > 0 ==> exists q :: SolePrimaryCreated(Submit(names), q)
    ensures Filled(names[p]) ==> exists q :: SolePrimaryCreated(Submit(names), q) && Submit(names)[q] == ToNewName(names[p])
  {
    if Filled(names[p]) {
      var q := FilledPrimaryCreated(names, p);
    } else if |Submit(names)| > 0 {
      BlankPrimaryDropped(names, p);
    }
  }

  /** A primary entry that names someone is created, as the only primary. */
  lemma FilledPrimaryCreated(names: seq<NameForm>, p: int) returns (q: int)
    requires SolePrimary(names, p) && Filled(names[p])
    ensures SolePrimaryCreated(Submit(names), q) && Submit(names)[q] == ToNewName(names[p])
  {
    var kept := Kept(names);
    assert names[p] in kept;
    SolePrimaryCount(names, p);
    FilterPrimaryCount(names, FilledF());
    CountZeroIffNone(kept);
    q := CountOneSole(kept);
    var j :| 0 <= j < |kept| && kept[j] == names[p];
    assert q == j;
    forall k | 0 <= k < |Submit(names)| ensures Submit(names)[k].isPrimary <==> k == q {
      SubmitFields(names, k);
    }
    SubmitFields(names, q);
  }

  /** A blank primary entry is dropped and the first kept entry takes its place. */
  lemma BlankPrimaryDropped(names: seq<NameForm>, p: int)
    requires SolePrimary(names, p) && !Filled(names[p]) && |Submit(names)| > 0
    ensures SolePrimaryCreated(Submit(names), 0)
  {
    var kept := Kept(names);
    forall k | 0 <= k < |kept| ensures !kept[k].isPrimary {
      assert kept[k] in names && Filled(kept[k]);
      var i :| 0 <= i < |names| && names[i] == kept[k];
    }
    assert !HasPrimary(kept);
    forall k | 0 <= k < |Submit(names)| ensures Submit(names)[k].isPrimary <==> k == 0 {
      SubmitFields(names, k);
    }
  }
}
