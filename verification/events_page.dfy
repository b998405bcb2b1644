/** The events list page (`src/pages/EventsPage.tsx`): which creation call
    the "create event" button makes from the form's type, the individuals
    chosen in it and the configured event roles, and how an individual is
    labelled in the page's pickers and lists. Whether the chosen type is a
    marriage is the answer of `isMarriageEventType`, an input here. */
module EventsPage {
  import opened Wrappers
  import opened Text
  import Sorting
  import Events
  import Names
  import Individuals

  // ---------------------------------------------------------------------
  // Creating an event
  // ---------------------------------------------------------------------

  /** An event role as the page reads it: its id and its key, if any. */
  datatype RoleRow = RoleRow(id: string, key: Option<string>)

  /** The individuals chosen in the form; "" is "none chosen". */
  datatype Selection = Selection(subject: string, husband: string, wife: string)

  /** One participant to add: an individual in a role. */
  datatype Participant = Participant(individualId: string, roleId: string)

  /** What the button does: an alert, or one of the three creation calls. */
  datatype Action =
    | Alert(message: string)
    | CreateMarriage(event: Events.NewEvent, spouses: seq<Participant>)
    | CreateWithSubject(event: Events.NewEvent, subject: Participant)
    | CreateBasic(event: Events.NewEvent)

  const NoTypeMessage: string := "Please select an event type"
  const SameSpouseMessage: string := "Husband and wife must be different individuals"
  const NoSpouseRolesMessage: string := "Husband or Wife role not found. Please check your event roles configuration."
  const NoSubjectRoleMessage: string := "Subject role not found. Please check your event roles configuration."

  function KeyIs(key: string): RoleRow -> bool {
    (r: RoleRow) => r.key == Some(key)
  }

  /** `eventRoles.find(role => role.key === key)`. */
  function RoleWithKey(roles: seq<RoleRow>, key: string): (r: Option<RoleRow>)
    ensures r.Some? ==> r.value in roles && r.value.key == Some(key)
    ensures r.None? <==> forall i :: 0 <= i < |roles| ==> roles[i].key != Some(key)
  {
    Sorting.FindFirst(roles, KeyIs(key))
  }

  /** The three kinds of creation. */
  datatype Branch = MarriageBranch | SubjectBranch | BasicBranch

  /** The branch taken: marriage when the type is a marriage and a spouse is
      chosen, with a subject when it is not a marriage and a subject is
      chosen, otherwise an event without participants. */
  function BranchOf(isMarriage: bool, sel: Selection): (r: Branch)
    ensures r == MarriageBranch <==> isMarriage && (sel.husband != "" || sel.wife != "")
    ensures r == SubjectBranch <==> !isMarriage && sel.subject != ""
    ensures r == BasicBranch <==> (isMarriage && sel.husband == "" && sel.wife == "") || (!isMarriage && sel.subject == "")
  {
    if isMarriage && (sel.husband != "" || sel.wife != "") then MarriageBranch
    else if !isMarriage && sel.subject != "" then SubjectBranch
    else BasicBranch
  }

  /** How the marriage branch passes the spouses on: as written, both slots
      whatever they hold; corrected, only the spouses actually chosen. */
  datatype SpouseSlots = BothSlots | ChosenOnly

  function Spouses(sel: Selection, husbandRole: RoleRow, wifeRole: RoleRow, slots: SpouseSlots): seq<Participant> {
    var h := Participant(sel.husband, husbandRole.id);
    var w := Participant(sel.wife, wifeRole.id);
    match slots
    case BothSlots => [h, w]
    case ChosenOnly => (if sel.husband != "" then [h] else []) + (if sel.wife != "" then [w] else [])
  }

  /** `handleCreateEvent`, for a way of passing the spouses on. */
  function HandleCreate(event: Events.NewEvent, isMarriage: bool, sel: Selection, roles: seq<RoleRow>, slots: SpouseSlots): (r: Action)
    ensures event.typeId == "" ==> r == Alert(NoTypeMessage)
    ensures r.CreateBasic? <==> event.typeId != "" && BranchOf(isMarriage, sel) == BasicBranch
    ensures r.CreateWithSubject? <==>
              event.typeId != "" && BranchOf(isMarriage, sel) == SubjectBranch && RoleWithKey(roles, "subject").Some?
    ensures r.CreateMarriage? <==>
              && event.typeId != "" && BranchOf(isMarriage, sel) == MarriageBranch
              && !(sel.husband != "" && sel.husband == sel.wife)
              && RoleWithKey(roles, "husband").Some? && RoleWithKey(roles, "wife").Some?
    ensures event.typeId != "" && BranchOf(isMarriage, sel) == MarriageBranch && sel.husband != "" && sel.husband == sel.wife ==>
              r == Alert(SameSpouseMessage)
    ensures r.Alert? && event.typeId != "" && BranchOf(isMarriage, sel) == MarriageBranch && sel.husband != sel.wife ==>
              r == Alert(NoSpouseRolesMessage)
    ensures r.Alert? && event.typeId != "" && BranchOf(isMarriage, sel) == SubjectBranch ==> r == Alert(NoSubjectRoleMessage)
    ensures !r.Alert? ==> r.event == event
    ensures r.CreateWithSubject? ==> r.subject == Participant(sel.subject, RoleWithKey(roles, "subject").value.id)
    ensures r.CreateMarriage? ==>
              r.spouses == Spouses(sel, RoleWithKey(roles, "husband").value, RoleWithKey(roles, "wife").value, slots)
  {
    if event.typeId == "" then Alert(NoTypeMessage)
    else match BranchOf(isMarriage, sel)
      case MarriageBranch =>
        if sel.husband != "" && sel.wife != "" && sel.husband == sel.wife then Alert(SameSpouseMessage)
        else
          var husbandRole := RoleWithKey(roles, "husband");
          var wifeRole := RoleWithKey(roles, "wife");
          if husbandRole.None? || wifeRole.None? then Alert(NoSpouseRolesMessage)
          else CreateMarriage(event, Spouses(sel, husbandRole.value, wifeRole.value, slots))
      case SubjectBranch =>
        var subjectRole := RoleWithKey(roles, "subject");
        if subjectRole.None? then Alert(NoSubjectRoleMessage)
        else CreateWithSubject(event, Participant(sel.subject, subjectRole.value.id))
      case BasicBranch => CreateBasic(event)
  }

  /** The husband's participant comes first, in the husband's role, and the
      two spouses sent are never the same individual. */
  lemma MarriageSpousesInOrder(event: Events.NewEvent, isMarriage: bool, sel: Selection, roles: seq<RoleRow>, slots: SpouseSlots)
    requires HandleCreate(event, isMarriage, sel, roles, slots).CreateMarriage?
    ensures var ps := HandleCreate(event, isMarriage, sel, roles, slots).spouses;
      && 1 <= |ps| <= 2
      && (sel.husband != "" || slots == BothSlots ==> ps[0] == Participant(sel.husband, RoleWithKey(roles, "husband").value.id))
      && (|ps| == 2 ==> ps[1] == Participant(sel.wife, RoleWithKey(roles, "wife").value.id))
      && (|ps| == 2 && ps[0].individualId != "" ==> ps[0].individualId != ps[1].individualId)
  {
  }

  /** Corrected: every participant the page asks to create names a chosen
      individual, whichever branch is taken. */
  lemma ChosenOnlySendsChosen(event: Events.NewEvent, isMarriage: bool, sel: Selection, roles: seq<RoleRow>)
    ensures var r := HandleCreate(event, isMarriage, sel, roles, ChosenOnly);
      && (r.CreateMarriage? ==> forall i :: 0 <= i < |r.spouses| ==> r.spouses[i].individualId != "")
      && (r.CreateWithSubject? ==> r.subject.individualId != "")
  {
  }

  /** As written: a marriage with only the husband chosen still sends the
      wife's slot, an empty individual id. */
  lemma BothSlotsSendsEmptyWife(event: Events.NewEvent, husband: string, roles: seq<RoleRow>)
    requires event.typeId != "" && husband != ""
    requires RoleWithKey(roles, "husband").Some? && RoleWithKey(roles, "wife").Some?
    ensures HandleCreate(event, true, Selection("", husband, ""), roles, BothSlots)
              == CreateMarriage(event, [Participant(husband, RoleWithKey(roles, "husband").value.id),
                                        Participant("", RoleWithKey(roles, "wife").value.id)])
  {
  }

  /** What `createMarriage` then does with that wife slot: "" is no
      individual's id, so once the event row and the husband's participant
      are written, the wife's insert breaks the foreign key to `individuals`
      and the call is rejected, leaving the marriage with the husband alone. */
  lemma EmptyWifeRefused(t: Events.Tree, event: Events.NewEvent, husband: string, husbandRole: string, wifeRole: string,
                         eventId: string, husbandPid: string, wifePid: string, now: int)
    requires Events.EventAccepted(t, Events.NewRow(event, eventId, now))
    requires Events.JoinsEvent(t, Events.ParticipantRow(husbandPid, now, eventId, husband, husbandRole))
    requires Events.GetParticipantById(t, wifePid).None? && husbandPid != wifePid
    requires "" !in t.individuals
    requires forall i :: 0 <= i < |t.participants| ==> t.participants[i].eventId != eventId
    ensures var written := Events.CreateMarriage(t, event, husband, "", husbandRole, wifeRole, eventId, husbandPid, wifePid, now);
      && written.1 == Failure(Events.ForeignKeyFailed)
      && written.0.events == t.events + [Events.NewRow(event, eventId, now)]
      && written.0.participants == t.participants + [Events.ParticipantRow(husbandPid, now, eventId, husband, husbandRole)]
  {
    var h := Events.ParticipantRow(husbandPid, now, eventId, husband, husbandRole);
    var w := Events.ParticipantRow(wifePid, now, eventId, "", wifeRole);
    Events.NoTripleOnNewEvent(t, w);
    Events.JoinsAfter(t, h, w);
  }

  // ---------------------------------------------------------------------
  // Labelling an individual
  // ---------------------------------------------------------------------

  /** An individual as `getAllWithNames` lists it: the row and its primary name. */
  type Listed = (Individuals.IndividualRow, Option<Names.NameRow<string>>)

  function IdIs(id: string): Listed -> bool {
    (x: Listed) => x.0.id == id
  }

  /** A name part that is present and not "". */
  predicate Given(part: Option<string>) {
    part.Some? && part.value != ""
  }

  /** `Individual #` followed by the gedcom id, or by the first eight
      characters of the id when the gedcom id is missing or 0. */
  function Numbered(ind: Individuals.IndividualRow): string {
    "Individual #" + (if ind.gedcomId.Some? && ind.gedcomId.value != 0 then IntToString(ind.gedcomId.value)
                      else ind.id[..if |ind.id| < 8 then |ind.id| else 8])
  }

  /** `getIndividualDisplayName`: "Unknown Individual" for an id not listed;
      else the primary name's first and last name (those given) joined by a
      space; else the numbered label. */
  function IndividualLabel(individuals: seq<Listed>, id: string): (r: string)
    ensures Sorting.FindFirst(individuals, IdIs(id)).None? ==> r == "Unknown Individual"
    ensures Sorting.FindFirst(individuals, IdIs(id)).Some? ==>
              var x := Sorting.FindFirst(individuals, IdIs(id)).value;
              var first := if x.1.Some? then x.1.value.firstName else None;
              var last := if x.1.Some? then x.1.value.lastName else None;
              && x.0.id == id
              && (Given(first) && Given(last) ==> r == first.value + " " + last.value)
              && (Given(first) && !Given(last) ==> r == first.value)
              && (!Given(first) && Given(last) ==> r == last.value)
              && (!Given(first) && !Given(last) ==> r == Numbered(x.0))
  {
    match Sorting.FindFirst(individuals, IdIs(id))
    case None => "Unknown Individual"
    case Some(x) =>
      var first := if x.1.Some? then x.1.value.firstName else None;
      var last := if x.1.Some? then x.1.value.lastName else None;
      if Given(first) && Given(last) then
        assert [first.value, last.value][1..] == [last.value];
        assert Join([last.value], " ") == last.value;
        Join([first.value, last.value], " ")
      else if Given(first) then Join([first.value], " ")
      else if Given(last) then Join([last.value], " ")
      else Numbered(x.0)
  }

  /** Partner of `Numbered`: the label's number reads back as the gedcom id
      when one is set and positive, and is otherwise a prefix of the id of at
      most eight characters. */
  lemma NumberedReadsBack(ind: Individuals.IndividualRow)
    ensures StartsWith(Numbered(ind), "Individual #")
    ensures var tail := Numbered(ind)[|"Individual #"|..];
      && (ind.gedcomId.Some? && ind.gedcomId.value > 0 ==> ParseInt(tail) == Some(ind.gedcomId.value))
      && (ind.gedcomId.None? || ind.gedcomId.value == 0 ==> tail <= ind.id && |tail| <= 8)
  {
    var tail := Numbered(ind)[|"Individual #"|..];
    if ind.gedcomId.Some? && ind.gedcomId.value > 0 {
      assert tail == NatToString(ind.gedcomId.value);
      ParseIntOfNatToString(ind.gedcomId.value);
    }
  }

  /** Only the first listed individual with the id counts: adding others
      with the same id after it does not change the label. */
  lemma LabelOfFirstListed(individuals: seq<Listed>, x: Listed, id: string)
    requires Sorting.FindFirst(individuals, IdIs(id)).Some?
    ensures IndividualLabel(individuals + [x], id) == IndividualLabel(individuals, id)
  {
    Sorting.FindFirstAppend(individuals, x, IdIs(id));
  }
}
