/** The individual pickers of the event and family forms
    (`getIndividualOptions` in `src/components/FamilyForm.tsx` and the
    first two steps of the one in `src/components/EventForm.tsx`): the
    individuals offered, kept to one gender when asked and without the ids
    to exclude. An option stands for its individual; its label is
    rendering. The list is absent while the individuals are loading. */
module IndividualOptions {
  import opened Wrappers
  import Sorting

  /** An individual as the pickers read it. */
  datatype Person = Person(id: string, gender: Option<string>)

  /** The two values of the `gender` enum a picker can ask for. */
  datatype Gender = Male | Female

  function GenderName(g: Gender): string {
    match g
    case Male => "male"
    case Female => "female"
  }

  /** `individual.gender === gender`. */
  function OfGender(g: Gender): Person -> bool {
    (p: Person) => p.gender == Some(GenderName(g))
  }

  /** `!excludeIds.includes(individual.id)`. */
  function NotIn(ids: seq<string>): Person -> bool {
    (p: Person) => p.id !in ids
  }

  /** Whether an individual passes both filters. */
  predicate Allowed(p: Person, gender: Option<Gender>, exclude: Option<seq<string>>) {
    (gender.None? || OfGender(gender.value)(p)) && (exclude.None? || p.id !in exclude.value)
  }

  /** `getIndividualOptions(gender, excludeIds)`: the listed individuals,
      filtered by gender when one is given and without the excluded ids
      when the list of them is not empty; none while loading. */
  function Options(people: Option<seq<Person>>, gender: Option<Gender>, exclude: Option<seq<string>>): (r: seq<Person>)
    ensures people.None? ==> r == []
    ensures people.Some? ==> forall p :: p in r <==> p in people.value && Allowed(p, gender, exclude)
  {
    match people
    case None => []
    case Some(ps) =>
      var byGender := if gender.Some? then Sorting.Filter(ps, OfGender(gender.value)) else ps;
      if exclude.Some? && |exclude.value| > 0 then Sorting.Filter(byGender, NotIn(exclude.value)) else byGender
  }

  /** Partner of `Options`: the options keep the order of the list, and
      with no filter asked for they are the whole list. */
  lemma OptionsKeepOrder(people: seq<Person>, gender: Option<Gender>, exclude: Option<seq<string>>)
    ensures Sorting.IsSublist(Options(Some(people), gender, exclude), people)
    ensures gender.None? && (exclude.None? || exclude.value == []) ==> Options(Some(people), gender, exclude) == people
  {
    var byGender := if gender.Some? then Sorting.Filter(people, OfGender(gender.value)) else people;
    if gender.Some? {
      Sorting.FilterIsSublist(people, OfGender(gender.value));
    } else {
      SublistOfItself(people);
    }
    if exclude.Some? && |exclude.value| > 0 {
      Sorting.FilterIsSublist(byGender, NotIn(exclude.value));
      SublistTransitive(Sorting.Filter(byGender, NotIn(exclude.value)), byGender, people);
    }
  }

  lemma {:induction false} SublistOfItself<T>(s: seq<T>)
    ensures Sorting.IsSublist(s, s)
    decreases |s|
  {
    if |s| > 0 {
      SublistOfItself(s[1..]);
    }
  }

  lemma {:induction false} SublistTransitive<T>(a: seq<T>, b: seq<T>, c: seq<T>)
    requires Sorting.IsSublist(a, b) && Sorting.IsSublist(b, c)
    ensures Sorting.IsSublist(a, c)
    decreases |c|
  {
    if |a| > 0 {
      assert |b| > 0 && |c| > 0;
      if b[0] == c[0] && Sorting.IsSublist(b[1..], c[1..]) {
        if a[0] == b[0] && Sorting.IsSublist(a[1..], b[1..]) {
          SublistTransitive(a[1..], b[1..], c[1..]);
        } else {
          SublistTransitive(a, b[1..], c[1..]);
        }
      } else {
        SublistTransitive(a, b, c[1..]);
      }
    }
  }
}
