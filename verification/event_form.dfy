/** The event form (`src/components/EventForm.tsx`): its validation, the
    subject slots it sets up when the event type changes, the individuals
    and roles its pickers offer, and the values it is reset to after an
    event is created with "create another". The form may be opened for a
    preselected individual (`None` when the prop is not given). */
module EventForm {
  import opened Wrappers
  import Sorting
  import opened IndividualOptions

  /** A participant row of the form: an individual and a role, "" when not chosen. */
  datatype ParticipantData = ParticipantData(individualId: string, roleId: string)

  /** `EventFormData`; each subject is its individual's id, "" when not chosen. */
  datatype EventFormData = EventFormData(
    typeId: string, date: string, placeId: string, description: string,
    subjects: seq<string>, participants: seq<ParticipantData>)

  // ---------------------------------------------------------------------
  // Validation and reset
  // ---------------------------------------------------------------------

  const NoTypeMessage: string := "Event type is required"

  /** The form's one `validate` rule, on the type. */
  function Validate(values: EventFormData): (r: Option<string>)
    ensures r.Some? <==> values.typeId == ""
    ensures r.Some? ==> r.value == NoTypeMessage
  {
    if values.typeId == "" then Some(NoTypeMessage) else None
  }

  /** The values `handleSubmit` sets once an event is created and another
      one is to follow: everything empty, no subjects, no participants. */
  function ResetValues(): (r: EventFormData)
    ensures r.subjects == [] && r.participants == [] && r.typeId == ""
  {
    EventFormData("", "", "", "", [], [])
  }

  /** `handleSubmit` after `onSubmit`: only a created event with "create
      another" ticked resets the form. */
  function AfterSubmit(creating: bool, createAnother: bool, values: EventFormData): EventFormData {
    if creating && createAnother then ResetValues() else values
  }

  /** Partner of `ResetValues` and `AfterSubmit`: the reset form cannot be
      submitted until a type is chosen again, and choosing one is all it
      takes; a form that is not reset keeps its values, so a valid one
      stays valid. */
  lemma ResetNeedsAType(typeId: string, values: EventFormData, creating: bool, createAnother: bool)
    ensures Validate(ResetValues()).Some?
    ensures typeId != "" ==> Validate(ResetValues().(typeId := typeId)).None?
    ensures creating && createAnother ==>
              Validate(AfterSubmit(creating, createAnother, values)).Some?
              && AfterSubmit(creating, createAnother, values).subjects == []
    ensures !(creating && createAnother) ==> AfterSubmit(creating, createAnother, values) == values
  {
  }

  // ---------------------------------------------------------------------
  // Subject slots
  // ---------------------------------------------------------------------

  /** An event type as the form reads it. */
  datatype TypeRow = TypeRow(id: string, key: Option<string>)

  function TypeIdIs(id: string): TypeRow -> bool {
    (t: TypeRow) => t.id == id
  }

  /** `eventTypes.data?.find(type => type.id === typeId)?.key === "marriage"`. */
  function IsMarriageType(types: Option<seq<TypeRow>>, typeId: string): (r: bool)
    ensures r <==> types.Some? && exists i :: 0 <= i < |types.value| && types.value[i].id == typeId
                                            && (forall j :: 0 <= j < i ==> types.value[j].id != typeId)
                                            && types.value[i].key == Some("marriage")
  {
    if types.None? then false
    else
      var found := Sorting.FindFirst(types.value, TypeIdIs(typeId));
      if found.Some? then
        FirstIndex(types.value, typeId);
        found.value.key == Some("marriage")
      else false
  }

  /** The type `find` returns sits at the first index with the id, and
      any such index holds it. */
  lemma FirstIndex(types: seq<TypeRow>, typeId: string)
    requires Sorting.FindFirst(types, TypeIdIs(typeId)).Some?
    ensures exists i :: 0 <= i < |types| && types[i] == Sorting.FindFirst(types, TypeIdIs(typeId)).value
                        && types[i].id == typeId && forall j :: 0 <= j < i ==> types[j].id != typeId
    ensures forall i :: 0 <= i < |types| && types[i].id == typeId && (forall j :: 0 <= j < i ==> types[j].id != typeId)
                        ==> types[i] == Sorting.FindFirst(types, TypeIdIs(typeId)).value
  {
    forall i | 0 <= i < |types| && types[i].id == typeId && (forall j :: 0 <= j < i ==> types[j].id != typeId)
      ensures types[i] == Sorting.FindFirst(types, TypeIdIs(typeId)).value
    {
      Sorting.FindFirstAt(types, TypeIdIs(typeId), i);
    }
    var k := FirstMatch(types, typeId);
    Sorting.FindFirstAt(types, TypeIdIs(typeId), k);
  }

  lemma {:induction false} FirstMatch(types: seq<TypeRow>, typeId: string) returns (k: int)
    requires exists i :: 0 <= i < |types| && types[i].id == typeId
    ensures 0 <= k < |types| && types[k].id == typeId && forall j :: 0 <= j < k ==> types[j].id != typeId
    decreases |types|
  {
    if types[0].id == typeId {
      k := 0;
    } else {
      var i :| 0 <= i < |types| && types[i].id == typeId;
      assert types[1..][i - 1] == types[i];
      var k' := FirstMatch(types[1..], typeId);
      k := k' + 1;
      forall j | 0 < j < k ensures types[j].id != typeId {
        assert types[j] == types[1..][j - 1];
      }
    }
  }

  function PersonIdIs(id: string): Person -> bool {
    (p: Person) => p.id == id
  }

  /** `individuals.data?.find(individual => individual.id === id)?.gender`. */
  function GenderOf(people: Option<seq<Person>>, id: Option<string>): (r: Option<string>)
    ensures r.Some? ==> id.Some? && people.Some? && exists p :: p in people.value && p.id == id.value && p.gender == r
  {
    if people.None? || id.None? then None
    else match Sorting.FindFirst(people.value, PersonIdIs(id.value))
      case None => None
      case Some(p) => p.gender
  }

  /** A gender value that is truthy: present and not "". */
  predicate Known(gender: Option<string>) {
    gender.Some? && gender.value != ""
  }

  /** The subjects `onValuesChange` sets when the type changes: a marriage
      has two slots (husband, wife) and puts a preselected individual of
      known gender in the husband's if male, else in the wife's; any other
      type has one slot holding the preselected individual, or "". */
  function SubjectSlots(isMarriage: bool, preselected: Option<string>, gender: Option<string>): (r: seq<string>)
    ensures isMarriage ==> |r| == 2
    ensures !isMarriage ==> r == [preselected.GetOr("")]
    ensures isMarriage && preselected.Some? && preselected.value != "" && gender == Some("male") ==> r == [preselected.value, ""]
    ensures isMarriage && preselected.Some? && preselected.value != "" && Known(gender) && gender != Some("male") ==>
              r == ["", preselected.value]
    ensures isMarriage && !(preselected.Some? && preselected.value != "" && Known(gender)) ==> r == ["", ""]
  {
    if isMarriage then
      if preselected.Some? && preselected.value != "" && Known(gender) then
        if gender.value == "male" then [preselected.value, ""] else ["", preselected.value]
      else ["", ""]
    else [preselected.GetOr("")]
  }

  /** `onValuesChange`: only a change of type resets the subjects, to the
      slots for the new type; nothing else in the form changes. */
  function OnValuesChange(values: EventFormData, previous: EventFormData, types: Option<seq<TypeRow>>,
                          people: Option<seq<Person>>, preselected: Option<string>): (r: EventFormData)
    ensures values.typeId == previous.typeId ==> r == values
    ensures r.(subjects := values.subjects) == values
    ensures values.typeId != previous.typeId ==>
              r.subjects == SubjectSlots(IsMarriageType(types, values.typeId), preselected, GenderOf(people, preselected))
  {
    if values.typeId == previous.typeId then values
    else values.(subjects := SubjectSlots(IsMarriageType(types, values.typeId), preselected, GenderOf(people, preselected)))
  }

  // ---------------------------------------------------------------------
  // The individual pickers
  // ---------------------------------------------------------------------

  /** `getIndividualOptions(gender, excludeSubjectIds, forSubjects)`: the
      family form's filters, then, outside the subject pickers, without the
      preselected individual. */
  function PickerOptions(people: Option<seq<Person>>, gender: Option<Gender>, exclude: Option<seq<string>>,
                         preselected: Option<string>, forSubjects: bool): (r: seq<Person>)
    ensures people.None? ==> r == []
    ensures people.Some? ==> forall p :: p in r <==>
              && p in people.value && Allowed(p, gender, exclude)
              && !(preselected.Some? && preselected.value != "" && !forSubjects && p.id == preselected.value)
  {
    var base := Options(people, gender, exclude);
    if preselected.Some? && preselected.value != "" && !forSubjects then Sorting.Filter(base, NotIn([preselected.value]))
    else base
  }

  /** Partner of `SubjectSlots` and the subject pickers: a preselected male
      lands in the husband's slot and the husband picker offers him; a
      preselected female lands in the wife's slot and the wife picker offers
      her. */
  lemma PreselectedSlotOffered(people: seq<Person>, preselected: string)
    requires preselected != ""
    ensures var gender := GenderOf(Some(people), Some(preselected));
      var slots := SubjectSlots(true, Some(preselected), gender);
      && (gender == Some("male") ==>
            slots[0] == preselected
            && exists p :: p in PickerOptions(Some(people), Some(Male), None, Some(preselected), true) && p.id == preselected)
      && (gender == Some("female") ==>
            slots[1] == preselected
            && exists p :: p in PickerOptions(Some(people), Some(Female), None, Some(preselected), true) && p.id == preselected)
  {
  }

  /** The participant pickers never offer the preselected individual nor an
      individual already chosen as a subject. */
  lemma ParticipantPickerExcludes(people: seq<Person>, subjects: seq<string>, preselected: Option<string>, p: Person)
    requires p in PickerOptions(Some(people), None, Some(Sorting.Filter(subjects, SubjectChosen())), preselected, false)
    ensures p.id == "" || p.id !in subjects
    ensures preselected.Some? && preselected.value != "" ==> p.id != preselected.value
  {
  }

  function SubjectChosen(): string -> bool {
    (s: string) => s != ""
  }

  // ---------------------------------------------------------------------
  // The role picker
  // ---------------------------------------------------------------------

  /** An event role as the form reads it. */
  datatype RoleRow = RoleRow(id: string, key: Option<string>, isSystem: bool)

  const MaleOnlyRoles: seq<string> := ["father", "godfather", "father_of_husband", "father_of_wife"]
  const FemaleOnlyRoles: seq<string> := ["mother", "godmother", "mother_of_husband", "mother_of_wife"]

  /** The roles handled by the subject pickers. */
  predicate SubjectRole(key: Option<string>) {
    key == Some("subject") || key == Some("husband") || key == Some("wife")
  }

  /** The filter of `getRoleOptions` for an individual of the given gender. */
  predicate Offered(role: RoleRow, gender: Option<string>) {
    && !SubjectRole(role.key)
    && !(role.isSystem && Known(gender) && gender.value == "male" && role.key.GetOr("") in FemaleOnlyRoles)
    && !(role.isSystem && Known(gender) && gender.value == "female" && role.key.GetOr("") in MaleOnlyRoles)
  }

  function OfferedF(gender: Option<string>): RoleRow -> bool {
    (role: RoleRow) => Offered(role, gender)
  }

  /** `getRoleOptions(selectedIndividualId)`: the roles offered for the
      individual chosen in a participant row; none while loading. */
  function RoleOptions(roles: Option<seq<RoleRow>>, people: Option<seq<Person>>, selected: string): (r: seq<RoleRow>)
    ensures roles.None? ==> r == []
    ensures roles.Some? ==> forall role :: role in r <==> role in roles.value && Offered(role, GenderOf(people, Some(selected)))
  {
    if roles.None? then [] else Sorting.Filter(roles.value, OfferedF(GenderOf(people, Some(selected))))
  }

  /** The subject, husband and wife roles are never offered. */
  lemma NoSubjectRoles(roles: seq<RoleRow>, people: Option<seq<Person>>, selected: string, role: RoleRow)
    requires role in RoleOptions(Some(roles), people, selected)
    ensures role.key != Some("subject") && role.key != Some("husband") && role.key != Some("wife")
  {
  }

  /** A role that is not a system role is offered whatever the individual's
      gender, unless it is a subject role. */
  lemma NonSystemNotFiltered(roles: seq<RoleRow>, people: Option<seq<Person>>, selected: string, role: RoleRow)
    requires role in roles && !role.isSystem && !SubjectRole(role.key)
    ensures role in RoleOptions(Some(roles), people, selected)
  {
  }

  /** For system roles, a male is never offered a female-only role and a
      female never a male-only one; with no known gender every system role
      but the subject roles is offered. */
  lemma SystemRolesByGender(roles: seq<RoleRow>, people: Option<seq<Person>>, selected: string, role: RoleRow)
    requires role in roles && role.isSystem && !SubjectRole(role.key)
    ensures var gender := GenderOf(people, Some(selected));
      && (gender == Some("male") ==> (role in RoleOptions(Some(roles), people, selected) <==> role.key.GetOr("") !in FemaleOnlyRoles))
      && (gender == Some("female") ==> (role in RoleOptions(Some(roles), people, selected) <==> role.key.GetOr("") !in MaleOnlyRoles))
      && (!Known(gender) ==> role in RoleOptions(Some(roles), people, selected))
  {
  }
}
