/** The family form (`src/components/FamilyForm.tsx`): its validation, the
    individuals each picker offers, the family types offered and the values
    the form is reset to after a family is created with "create another". */
module FamilyForm {
  import opened Wrappers
  import Sorting
  import opened IndividualOptions

  /** `FamilyFormData`; "" is "none chosen". */
  datatype FamilyFormData = FamilyFormData(husbandId: string, wifeId: string, familyType: string, children: seq<string>)

  // ---------------------------------------------------------------------
  // Validation
  // ---------------------------------------------------------------------

  const NoParentMessage: string := "At least one parent (husband or wife) is required"
  const NoTypeMessage: string := "Family type is required"

  /** The error of each validated field, if any. */
  datatype Errors = Errors(husbandId: Option<string>, wifeId: Option<string>, familyType: Option<string>)

  predicate Valid(e: Errors) {
    e.husbandId.None? && e.wifeId.None? && e.familyType.None?
  }

  /** The form's `validate` rules. */
  function Validate(values: FamilyFormData): (r: Errors)
    ensures r.husbandId.Some? <==> values.husbandId == "" && values.wifeId == ""
    ensures r.wifeId.Some? <==> values.husbandId == "" && values.wifeId == ""
    ensures r.familyType.Some? <==> values.familyType == ""
    ensures r.husbandId.Some? ==> r.husbandId.value == NoParentMessage && r.wifeId == r.husbandId
    ensures r.familyType.Some? ==> r.familyType.value == NoTypeMessage
  {
    var noParent := values.husbandId == "" && values.wifeId == "";
    Errors(if noParent then Some(NoParentMessage) else None,
           if noParent then Some(NoParentMessage) else None,
           if values.familyType == "" then Some(NoTypeMessage) else None)
  }

  /** A form passes exactly when it has a parent and a type; the children
      are never checked. */
  lemma ValidIffParentAndType(values: FamilyFormData, children: seq<string>)
    ensures Valid(Validate(values)) <==> (values.husbandId != "" || values.wifeId != "") && values.familyType != ""
    ensures Validate(values.(children := children)) == Validate(values)
  {
  }

  // ---------------------------------------------------------------------
  // The family types
  // ---------------------------------------------------------------------

  /** The values of the `family_type` enum, in the order the labels are declared. */
  const FamilyTypes: seq<string> := ["married", "civil union", "unknown", "unmarried"]

  datatype TypeOption = TypeOption(value: string, text: string)

  /** `getFamilyTypeOptions`: one option per family type with its label. */
  function FamilyTypeOptions(): (r: seq<TypeOption>)
    ensures |r| == |FamilyTypes| == 4
    ensures forall i :: 0 <= i < |r| ==> r[i].value == FamilyTypes[i]
    ensures forall i, j :: 0 <= i < j < |r| ==> r[i].value != r[j].value && r[i].text != r[j].text
  {
    [TypeOption("married", "Married"), TypeOption("civil union", "Civil Union"),
     TypeOption("unknown", "Unknown"), TypeOption("unmarried", "Unmarried")]
  }

  /** The values a new form starts with and is reset to. */
  function ResetValues(): (r: FamilyFormData)
    ensures r.familyType in FamilyTypes && r.husbandId == "" && r.wifeId == "" && r.children == []
  {
    FamilyFormData("", "", "married", [])
  }

  /** Partner of `ResetValues`: the reset form's type is the first option
      offered and passes its check; only the missing parents keep the form
      from being submitted. */
  lemma ResetNeedsOnlyAParent(parent: string)
    ensures FamilyTypeOptions()[0].value == ResetValues().familyType
    ensures var e := Validate(ResetValues()); e.familyType.None? && e.husbandId.Some? && e.wifeId.Some?
    ensures parent != "" ==> Valid(Validate(ResetValues().(husbandId := parent)))
    ensures parent != "" ==> Valid(Validate(ResetValues().(wifeId := parent)))
  {
  }

  // ---------------------------------------------------------------------
  // The pickers
  // ---------------------------------------------------------------------

  /** The husband picker: the males, without the chosen wife. */
  function HusbandOptions(people: Option<seq<Person>>, values: FamilyFormData): (r: seq<Person>)
    ensures people.Some? ==> forall p :: p in r <==> p in people.value && p.gender == Some("male") && p.id != values.wifeId
  {
    Options(people, Some(Male), Some([values.wifeId]))
  }

  /** The wife picker: the females, without the chosen husband. */
  function WifeOptions(people: Option<seq<Person>>, values: FamilyFormData): (r: seq<Person>)
    ensures people.Some? ==> forall p :: p in r <==> p in people.value && p.gender == Some("female") && p.id != values.husbandId
  {
    Options(people, Some(Female), Some([values.husbandId]))
  }

  function NonEmpty(): string -> bool {
    (s: string) => s != ""
  }

  /** `getChildOptions`: everyone but the chosen parents. */
  function ChildOptions(people: Option<seq<Person>>, values: FamilyFormData): (r: seq<Person>)
    ensures people.Some? ==> forall p :: p in r <==>
              p in people.value && (p.id == "" || (p.id != values.husbandId && p.id != values.wifeId))
  {
    Options(people, None, Some(Sorting.Filter([values.husbandId, values.wifeId], NonEmpty())))
  }

  /** Partner of the pickers: a chosen parent is never offered as a child,
      a chosen husband never as the wife nor the other way round, and
      nobody is offered as both husband and wife. */
  lemma PickersExcludeChosen(people: seq<Person>, values: FamilyFormData, p: Person)
    ensures values.husbandId != "" && p.id == values.husbandId ==>
              p !in ChildOptions(Some(people), values) && p !in WifeOptions(Some(people), values)
    ensures values.wifeId != "" && p.id == values.wifeId ==>
              p !in ChildOptions(Some(people), values) && p !in HusbandOptions(Some(people), values)
    ensures !(p in HusbandOptions(Some(people), values) && p in WifeOptions(Some(people), values))
  {
  }

  /** With no parent chosen every listed individual may be a child. */
  lemma NoParentsAllChildren(people: seq<Person>, values: FamilyFormData)
    requires values.husbandId == "" && values.wifeId == ""
    ensures ChildOptions(Some(people), values) == people
  {
    assert Sorting.Filter([values.husbandId, values.wifeId], NonEmpty()) == [];
    OptionsKeepOrder(people, None, Some([]));
  }
}
