/** The page of one event (`src/pages/EventPage.tsx`): the edit buffer
    filled from the event, the guard on adding a participant, and how the
    event's `created_at` is turned into a date. Individuals are labelled as
    on the events list page (`EventsPage.IndividualLabel`, the same rule at
    lines 120-133 of this page). */
module EventPage {
  import opened Wrappers
  import Events

  // ---------------------------------------------------------------------
  // Editing the event
  // ---------------------------------------------------------------------

  /** `startEditEvent`: nothing without a loaded event; otherwise the edit
      buffer holds the event's type, date, description, place and gedcom id. */
  function StartEditEvent(event: Option<Events.EventRow>): (r: Option<Events.EventUpdate>)
    ensures r.None? <==> event.None?
    ensures r.Some? ==>
              && r.value.typeId == Some(event.value.typeId)
              && r.value.date == Some(event.value.date)
              && r.value.description == Some(event.value.description)
              && r.value.placeId == Some(event.value.placeId)
              && r.value.gedcomId == Some(event.value.gedcomId)
  {
    match event
    case None => None
    case Some(e) => Some(Events.EventUpdate(Some(e.typeId), Some(e.date), Some(e.description), Some(e.placeId), Some(e.gedcomId)))
  }

  /** Partner of `StartEditEvent`: saving the buffer untouched writes every
      editable column, and the statement leaves the event as it was. */
  lemma UntouchedEditChangesNothing(e: Events.EventRow)
    ensures var u := StartEditEvent(Some(e)).value;
      Events.Execute(e, Events.Assignments(u)) == e
  {
    Events.ExecuteAssignments(e, StartEditEvent(Some(e)).value);
  }

  // ---------------------------------------------------------------------
  // Adding a participant
  // ---------------------------------------------------------------------

  /** `CreateEventParticipantInput` as the add form holds it; "" is "none chosen". */
  datatype ParticipantForm = ParticipantForm(eventId: string, individualId: string, roleId: string)

  const MissingChoiceMessage: string := "Please select both individual and role"

  datatype AddAction = Alert(message: string) | Add(participant: Events.NewParticipant)

  /** `handleAddParticipant`: an alert unless both an individual and a role
      are chosen; otherwise the form as it stands is sent. */
  function HandleAddParticipant(form: ParticipantForm): (r: AddAction)
    ensures r.Add? <==> form.individualId != "" && form.roleId != ""
    ensures r.Alert? ==> r.message == MissingChoiceMessage
    ensures r.Add? ==> r.participant == Events.NewParticipant(form.eventId, form.individualId, form.roleId)
  {
    if form.individualId == "" || form.roleId == "" then Alert(MissingChoiceMessage)
    else Add(Events.NewParticipant(form.eventId, form.individualId, form.roleId))
  }

  /** The form as the page opens it and resets it after a successful add. */
  function EmptyParticipantForm(eventId: string): ParticipantForm {
    ParticipantForm(eventId, "", "")
  }

  /** Partner of `HandleAddParticipant`: the reset form cannot be sent again
      as it is; choosing an individual and a role makes it sendable, for
      this event. */
  lemma ResetFormNeedsChoices(eventId: string, individualId: string, roleId: string)
    ensures HandleAddParticipant(EmptyParticipantForm(eventId)).Alert?
    ensures HandleAddParticipant(EmptyParticipantForm(eventId).(individualId := individualId)).Alert?
    ensures individualId != "" && roleId != "" ==>
              var r := HandleAddParticipant(EmptyParticipantForm(eventId).(individualId := individualId, roleId := roleId));
              r.Add? && r.participant.eventId == eventId
  {
  }

  // ---------------------------------------------------------------------
  // The creation date
  // ---------------------------------------------------------------------

  /** The value `created_at` holds: a string, a number, or something else. */
  datatype CreatedAt = Text(s: string) | Number(n: int) | Other

  /** What the page turns it into: a date parsed from the string, a date at
      a number of milliseconds since the epoch, or the raw value shown as is. */
  datatype CreatedShown = FromText(s: string) | FromMillis(ms: int) | Raw

  /** Above this a number is read as milliseconds, otherwise as seconds. */
  const MillisThreshold: int := 10_000_000_000

  /** `n > 1e10 ? n : n * 1000`. */
  function ToMillis(n: int): int {
    if n > MillisThreshold then n else n * 1000
  }

  /** The creation date shown on the page. */
  function CreatedDate(v: CreatedAt): (r: CreatedShown)
    ensures v.Text? <==> r.FromText?
    ensures v.Number? <==> r.FromMillis?
    ensures v.Text? ==> r.s == v.s
    ensures v.Number? ==> r.ms == ToMillis(v.n)
  {
    match v
    case Text(s) => FromText(s)
    case Number(n) => FromMillis(ToMillis(n))
    case Other => Raw
  }

  /** A number of seconds up to the threshold becomes that many whole
      seconds' worth of milliseconds: dividing by 1000 gives it back. */
  lemma SecondsRoundTrip(n: int)
    requires n <= MillisThreshold
    ensures ToMillis(n) % 1000 == 0 && ToMillis(n) / 1000 == n
  {
  }

  /** From 10^7 on (seconds: 1970-04-26), a converted value is above the
      threshold, so converting it again changes nothing. */
  lemma MillisStable(n: int)
    requires n > MillisThreshold / 1000
    ensures ToMillis(ToMillis(n)) == ToMillis(n)
  {
  }

  /** The heuristic is not monotonic: the last number read as seconds comes
      out later than the first one read as milliseconds. */
  lemma ThresholdJump()
    ensures ToMillis(MillisThreshold) > ToMillis(MillisThreshold + 1)
  {
  }
}
