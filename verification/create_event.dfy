/** `createEvent` in `src/api/events/createEvent.ts`: inserts an event, its
    subjects, and the participants derived from the subjects plus the ones
    given by hand. Each statement is sent on its own: when a later step
    throws, the rows written before it stay. The id of the new event is
    chosen by the database and is a parameter here. */
module CreateEvent {
  import opened Wrappers
  import opened SupabaseDb
  import Text
  import Sorting

  datatype ParticipantInput = ParticipantInput(individualId: string, roleId: string)

  /** `CreateEventData`; each subject is its individual's id. */
  datatype EventForm = EventForm(
    typeId: string, date: string, placeId: string, description: string,
    subjects: seq<string>, participants: seq<ParticipantInput>)

  /** The tables after the call, and what it returned or threw. */
  datatype Outcome = Outcome(db: Db, result: Result<string>)

  /** `s && s.trim() !== ""`. */
  predicate Filled(s: string) {
    s != "" && Text.Trim(s) != ""
  }

  function FilledId(): string -> bool {
    (s: string) => Filled(s)
  }

  /** A string counts as given exactly when it is not blank. */
  lemma FilledIffNotBlank(s: string)
    ensures Filled(s) <==> !Text.IsBlank(s)
  {
    Text.TrimEmptyIffBlank(s);
  }

  /** The row inserted for the event: blank date and description are
      stored as null, an empty place as null. */
  function EventRowFor(id: string, treeId: string, form: EventForm): (r: EventRow)
    ensures r.id == id && r.treeId == treeId && r.typeId == form.typeId
    ensures r.date.None? <==> Text.IsBlank(form.date)
    ensures r.date.Some? ==> r.date.value == form.date
    ensures r.description.None? <==> Text.IsBlank(form.description)
    ensures r.description.Some? ==> r.description.value == form.description
    ensures r.placeId.None? <==> form.placeId == ""
    ensures r.placeId.Some? ==> r.placeId.value == form.placeId
  {
    FilledIffNotBlank(form.date);
    FilledIffNotBlank(form.description);
    EventRow(id, treeId, form.typeId,
             if Filled(form.date) then Some(form.date) else None,
             OrNull(form.placeId),
             if Filled(form.description) then Some(form.description) else None)
  }

  /** The subjects with a given individual, in the form's order. */
  function ValidSubjects(subjects: seq<string>): (r: seq<string>)
    ensures forall s :: s in r <==> s in subjects && !Text.IsBlank(s)
  {
    forall s | s in subjects { FilledIffNotBlank(s); }
    Sorting.Filter(subjects, FilledId())
  }

  function SubjectRowFor(eventId: string, treeId: string): string -> SubjectRow {
    (individualId: string) => SubjectRow(eventId, individualId, treeId)
  }

  function KeyIs(key: string): RoleRow -> bool {
    (r: RoleRow) => r.key == key
  }

  function GenderIs(gender: string): IndividualRow -> bool {
    (i: IndividualRow) => i.gender == gender
  }

  /** The tree's roles with the keys "subject", "husband" or "wife". */
  function SpecialRoles(roles: seq<RoleRow>, treeId: string): seq<RoleRow> {
    Sorting.Filter(roles, (r: RoleRow) => r.treeId == treeId && r.key in ["subject", "husband", "wife"])
  }

  /** The participants derived from the subjects. A marriage with exactly
      two subjects gets the first male of the two as husband and the first
      female as wife, when the tree has those roles; any other event gets
      every subject in the subject role. */
  function DerivedParticipants(db: Db, treeId: string, typeKey: string, valid: seq<string>, subjectRole: RoleRow): (r: seq<ParticipantInput>)
  {
    var roles := SpecialRoles(db.roles, treeId);
    if typeKey == "marriage" && |valid| == 2 then
      var spouses := Sorting.Filter(db.individuals, (i: IndividualRow) => i.id in valid && i.treeId == treeId);
      var husband, wife := Sorting.FindFirst(spouses, GenderIs("male")), Sorting.FindFirst(spouses, GenderIs("female"));
      var husbandRole, wifeRole := Sorting.FindFirst(roles, KeyIs("husband")), Sorting.FindFirst(roles, KeyIs("wife"));
      (if husband.Some? && husbandRole.Some? then [ParticipantInput(husband.value.id, husbandRole.value.id)] else [])
      + (if wife.Some? && wifeRole.Some? then [ParticipantInput(wife.value.id, wifeRole.value.id)] else [])
    else
      Sorting.Map(valid, (s: string) => ParticipantInput(s, subjectRole.id))
  }

  function ValidParticipant(): ParticipantInput -> bool {
    (p: ParticipantInput) => Filled(p.individualId) && Filled(p.roleId)
  }

  function ParticipantRowFor(eventId: string, treeId: string): ParticipantInput -> ParticipantRow {
    (p: ParticipantInput) => ParticipantRow(eventId, p.individualId, p.roleId, treeId)
  }

  /** The participant rows written: the derived participants followed by
      the hand-given ones, keeping those that name both an individual and
      a role. */
  function ParticipantRows(db: Db, treeId: string, form: EventForm, newId: string, typeKey: string, subjectRole: RoleRow): (r: seq<ParticipantRow>)
    ensures forall p :: p in r ==>
              p.eventId == newId && p.treeId == treeId && !Text.IsBlank(p.individualId) && !Text.IsBlank(p.roleId)
  {
    var derived := DerivedParticipants(db, treeId, typeKey, ValidSubjects(form.subjects), subjectRole);
    var valid := Sorting.Filter(derived + form.participants, ValidParticipant());
    var r := Sorting.Map(valid, ParticipantRowFor(newId, treeId));
    forall p | p in r
      ensures !Text.IsBlank(p.individualId) && !Text.IsBlank(p.roleId)
    {
      var k :| 0 <= k < |r| && r[k] == p;
      assert valid[k] in valid;
      FilledIffNotBlank(p.individualId);
      FilledIffNotBlank(p.roleId);
    }
    r
  }

  /** The tables after the event and its subjects are written. */
  function WithEventAndSubjects(db: Db, treeId: string, form: EventForm, newId: string): Db {
    var valid := ValidSubjects(form.subjects);
    var db1 := db.(events := db.events + [EventRowFor(newId, treeId, form)]);
    if |valid| > 0 then db1.(subjects := db1.subjects + Sorting.Map(valid, SubjectRowFor(newId, treeId))) else db1
  }

  function TypeWithId(typeId: string): EventTypeRow -> bool {
    (t: EventTypeRow) => t.id == typeId
  }

  // ---------------------------------------------------------------------
  // What the database answers
  // ---------------------------------------------------------------------

  /** The outcome of each request apart from the constraint checks modelled
      below: a request that fails on its own (network, permissions) returns
      its error, which is thrown. */
  datatype Answers = Answers(event: Io, subjects: Io, eventType: Io, roles: Io, individuals: Io, participants: Io)

  const AllOk := Answers(Ok, Ok, Ok, Ok, Ok, Ok)

  /** PostgreSQL's message for a row whose foreign key names no row. */
  function FkViolation(table: string, constraint: string): string {
    "insert or update on table \"" + table + "\" violates foreign key constraint \"" + constraint + "\""
  }

  /** PostgREST's message when `.single()` does not get exactly one row. */
  const NotSingle := "JSON object requested, multiple (or no) rows returned"

  predicate TypeKnown(db: Db, typeId: string) {
    exists t :: t in db.eventTypes && t.id == typeId
  }

  predicate IndividualKnown(db: Db, id: string) {
    exists i :: i in db.individuals && i.id == id
  }

  predicate RoleKnown(db: Db, id: string) {
    exists r :: r in db.roles && r.id == id
  }

  /** The error `events_type_id_fkey` or `events_place_id_fkey` raises
      for the row, if any; the type is checked first. */
  function EventViolation(db: Db, row: EventRow): (r: Option<string>)
    ensures r.None? <==> TypeKnown(db, row.typeId) && (row.placeId.None? || row.placeId.value in db.places)
    ensures !TypeKnown(db, row.typeId) ==> r == Some(FkViolation("events", "events_type_id_fkey"))
  {
    if !TypeKnown(db, row.typeId) then Some(FkViolation("events", "events_type_id_fkey"))
    else if row.placeId.Some? && row.placeId.value !in db.places then Some(FkViolation("events", "events_place_id_fkey"))
    else None
  }

  /** The error `event_subjects_individual_id_fkey` raises for the first
      row naming no individual, if any. */
  function SubjectsViolation(db: Db, rows: seq<SubjectRow>): (r: Option<string>)
    ensures r.None? <==> forall i :: 0 <= i < |rows| ==> IndividualKnown(db, rows[i].individualId)
    ensures r.Some? ==> r.value == FkViolation("event_subjects", "event_subjects_individual_id_fkey")
  {
    if |rows| == 0 then None
    else if !IndividualKnown(db, rows[0].individualId) then Some(FkViolation("event_subjects", "event_subjects_individual_id_fkey"))
    else
      var rest := SubjectsViolation(db, rows[1..]);
      assert forall i :: 1 <= i < |rows| ==> rows[i] == rows[1..][i - 1];
      rest
  }

  /** The error the participant foreign keys raise for the first row naming
      no individual or no role, if any; the individual is checked first. */
  function ParticipantsViolation(db: Db, rows: seq<ParticipantRow>): (r: Option<string>)
    ensures r.None? <==> forall i :: 0 <= i < |rows| ==> IndividualKnown(db, rows[i].individualId) && RoleKnown(db, rows[i].roleId)
  {
    if |rows| == 0 then None
    else if !IndividualKnown(db, rows[0].individualId) then Some(FkViolation("event_participants", "event_participants_individual_id_fkey"))
    else if !RoleKnown(db, rows[0].roleId) then Some(FkViolation("event_participants", "event_participants_role_id_fkey"))
    else
      var rest := ParticipantsViolation(db, rows[1..]);
      assert forall i :: 1 <= i < |rows| ==> rows[i] == rows[1..][i - 1];
      rest
  }

  /** The error an insert returns: the request's own, else the constraint's. */
  function Refused(io: Io, violation: Option<string>): Option<string> {
    if io.Err? then Some(io.msg) else violation
  }

  // ---------------------------------------------------------------------
  // The call
  // ---------------------------------------------------------------------

  /** The reads between the inserts: the event-type lookup (`.single()`)
      throws unless exactly one type has the id; the roles are read next,
      and a tree without a "subject" role throws; a two-subject marriage
      then reads the spouses' genders. The result is the type's key and the
      subject role, or the error thrown. */
  function Lookups(written: Db, treeId: string, form: EventForm, answers: Answers): (r: Result<(string, RoleRow)>)
    ensures r.Success? ==> Sorting.FindFirst(SpecialRoles(written.roles, treeId), KeyIs("subject")) == Some(r.value.1)
    ensures r.Success? ==> exists t :: t in written.eventTypes && t.id == form.typeId && t.key == r.value.0
  {
    var types := Sorting.Filter(written.eventTypes, TypeWithId(form.typeId));
    if answers.eventType.Err? then Failure(answers.eventType.msg)
    else if |types| != 1 then Failure(NotSingle)
    else if answers.roles.Err? then Failure(answers.roles.msg)
    else
      var subjectRole := Sorting.FindFirst(SpecialRoles(written.roles, treeId), KeyIs("subject"));
      if subjectRole.None? then Failure("Subject role not found")
      else if types[0].key == "marriage" && |ValidSubjects(form.subjects)| == 2 && answers.individuals.Err? then
        Failure(answers.individuals.msg)
      else
        assert types[0] in types;
        Success((types[0].key, subjectRole.value))
  }

  /** The last insert: the participant rows in one statement, which a
      single unknown individual or role refuses whole; no rows, no insert. */
  function InsertParticipants(written: Db, treeId: string, newId: string, rows: seq<ParticipantRow>, answers: Answers): (r: Outcome)
    requires forall p :: p in rows ==>
               p.eventId == newId && p.treeId == treeId && !Text.IsBlank(p.individualId) && !Text.IsBlank(p.roleId)
    ensures r.result.Success? ==> r.result.value == newId
    ensures r.db.(participants := written.participants) == written
    ensures r.db.participants == written.participants || r.db.participants == written.participants + rows
    ensures r.result.Success? <==> |rows| == 0 || Refused(answers.participants, ParticipantsViolation(written, rows)).None?
    ensures r.result.Success? ==> r.db.participants == written.participants + rows
    ensures r.result.Failure? ==> r.db == written
    ensures forall i :: |written.participants| <= i < |r.db.participants| ==> r.db.participants[i] in rows
  {
    if |rows| == 0 then Outcome(written, Success(newId))
    else
      var participantsError := Refused(answers.participants, ParticipantsViolation(written, rows));
      if participantsError.Some? then Outcome(written, Failure(participantsError.value))
      else
        var all := written.participants + rows;
        assert forall i :: |written.participants| <= i < |all| ==> all[i] == rows[i - |written.participants|];
        Outcome(written.(participants := all), Success(newId))
  }

  /** The requests after the event and subject inserts, on the tables they
      left. */
  function AfterInserts(written: Db, treeId: string, form: EventForm, newId: string, answers: Answers): (r: Outcome)
    ensures r.result.Success? ==> r.result.value == newId
    ensures r.result.Failure? ==> r.db == written
    ensures r.db.(participants := written.participants) == written
    ensures |r.db.participants| >= |written.participants| && r.db.participants[..|written.participants|] == written.participants
    ensures forall i :: |written.participants| <= i < |r.db.participants| ==>
              var p := r.db.participants[i];
              p.eventId == newId && p.treeId == treeId && !Text.IsBlank(p.individualId) && !Text.IsBlank(p.roleId)
  {
    match Lookups(written, treeId, form, answers)
    case Failure(e) => Outcome(written, Failure(e))
    case Success((key, role)) =>
      var rows := ParticipantRows(written, treeId, form, newId, key, role);
      InsertParticipants(written, treeId, newId, rows, answers)
  }

  /** The subject rows the call inserts. */
  function NewSubjects(treeId: string, form: EventForm, newId: string): seq<SubjectRow> {
    Sorting.Map(ValidSubjects(form.subjects), SubjectRowFor(newId, treeId))
  }

  /** `createEvent(treeId, data)`. The event insert comes first: a refused
      one writes nothing. The subject rows go in one insert, which a single
      unknown individual refuses whole. Every error is thrown, and what was
      written before it stays. */
  function Create(db: Db, treeId: string, form: EventForm, newId: string, answers: Answers): (r: Outcome)
    ensures r.result.Success? ==> r.result.value == newId
    ensures answers.event.Err? ==> r == Outcome(db, Failure(answers.event.msg))
    ensures answers.event.Ok? && EventViolation(db, EventRowFor(newId, treeId, form)).Some? ==>
              r == Outcome(db, Failure(EventViolation(db, EventRowFor(newId, treeId, form)).value))
    ensures r.db.individuals == db.individuals && r.db.roles == db.roles && r.db.eventTypes == db.eventTypes
  {
    var row := EventRowFor(newId, treeId, form);
    var eventError := Refused(answers.event, EventViolation(db, row));
    if eventError.Some? then Outcome(db, Failure(eventError.value))
    else
      var withEvent := db.(events := db.events + [row]);
      var subjects := NewSubjects(treeId, form, newId);
      var subjectsError := if |subjects| > 0 then Refused(answers.subjects, SubjectsViolation(withEvent, subjects)) else None;
      if subjectsError.Some? then Outcome(withEvent, Failure(subjectsError.value))
      else AfterInserts(WithEventAndSubjects(db, treeId, form, newId), treeId, form, newId, answers)
  }

  /** Once the event and subject inserts are accepted, the rest of the call
      runs on the tables holding the event and its subjects. */
  lemma InsertsAccepted(db: Db, treeId: string, form: EventForm, newId: string, answers: Answers)
    requires answers.event.Ok? && EventViolation(db, EventRowFor(newId, treeId, form)).None?
    requires answers.subjects.Ok? && forall s :: s in form.subjects && !Text.IsBlank(s) ==> IndividualKnown(db, s)
    ensures Create(db, treeId, form, newId, answers) == AfterInserts(WithEventAndSubjects(db, treeId, form, newId), treeId, form, newId, answers)
    ensures WithEventAndSubjects(db, treeId, form, newId).events == db.events + [EventRowFor(newId, treeId, form)]
    ensures WithEventAndSubjects(db, treeId, form, newId).subjects == db.subjects + NewSubjects(treeId, form, newId)
    ensures WithEventAndSubjects(db, treeId, form, newId).(events := db.events, subjects := db.subjects) == db
  {
    var valid := ValidSubjects(form.subjects);
    var subjects := NewSubjects(treeId, form, newId);
    var withEvent := db.(events := db.events + [EventRowFor(newId, treeId, form)]);
    forall i | 0 <= i < |subjects| ensures IndividualKnown(withEvent, subjects[i].individualId) {
      assert subjects[i].individualId == valid[i];
      assert valid[i] in valid;
    }
  }

  // ---------------------------------------------------------------------
  // Properties
  // ---------------------------------------------------------------------

  /** An event type no row has is refused by `events_type_id_fkey`: the call
      throws before anything is written. */
  lemma UnknownTypeWritesNothing(db: Db, treeId: string, form: EventForm, newId: string, answers: Answers)
    requires answers.event.Ok? && !TypeKnown(db, form.typeId)
    ensures Create(db, treeId, form, newId, answers) == Outcome(db, Failure(FkViolation("events", "events_type_id_fkey")))
  {
  }

  /** A kept subject that names no individual makes the subjects insert
      fail: the event row stays, without any subject. */
  lemma UnknownSubjectKeepsBareEvent(db: Db, treeId: string, form: EventForm, newId: string, answers: Answers, individualId: string)
    requires answers.event.Ok? && EventViolation(db, EventRowFor(newId, treeId, form)).None?
    requires individualId in form.subjects && !Text.IsBlank(individualId) && !IndividualKnown(db, individualId)
    ensures Create(db, treeId, form, newId, answers)
            == Outcome(db.(events := db.events + [EventRowFor(newId, treeId, form)]),
                       Failure(if answers.subjects.Err? then answers.subjects.msg
                               else FkViolation("event_subjects", "event_subjects_individual_id_fkey")))
  {
    var valid := ValidSubjects(form.subjects);
    var subjects := Sorting.Map(valid, SubjectRowFor(newId, treeId));
    var withEvent := db.(events := db.events + [EventRowFor(newId, treeId, form)]);
    var k :| 0 <= k < |valid| && valid[k] == individualId;
    assert subjects[k].individualId == individualId;
    assert SubjectsViolation(withEvent, subjects).Some?;
  }

  /** Once the event and subject inserts are accepted, the event row and
      one subject row per kept subject are written whatever happens later,
      and no other table but the participants changes. */
  lemma CreateWritesEventAndSubjects(db: Db, treeId: string, form: EventForm, newId: string, answers: Answers)
    requires answers.event.Ok? && EventViolation(db, EventRowFor(newId, treeId, form)).None?
    requires answers.subjects.Ok? && forall s :: s in form.subjects && !Text.IsBlank(s) ==> IndividualKnown(db, s)
    ensures var r := Create(db, treeId, form, newId, answers).db;
      r.events == db.events + [EventRowFor(newId, treeId, form)]
      && r.subjects == db.subjects + Sorting.Map(ValidSubjects(form.subjects), SubjectRowFor(newId, treeId))
      && r.(events := db.events, subjects := db.subjects, participants := db.participants) == db
  {
    InsertsAccepted(db, treeId, form, newId, answers);
  }

  /** Once the event and subject inserts are accepted, the new event's
      subjects are exactly the non-blank ids of the form. */
  lemma NewEventSubjects(db: Db, treeId: string, form: EventForm, newId: string, answers: Answers, individualId: string)
    requires forall s :: s in db.subjects ==> s.eventId != newId
    requires answers.event.Ok? && EventViolation(db, EventRowFor(newId, treeId, form)).None?
    requires answers.subjects.Ok? && forall s :: s in form.subjects && !Text.IsBlank(s) ==> IndividualKnown(db, s)
    ensures SubjectRow(newId, individualId, treeId) in Create(db, treeId, form, newId, answers).db.subjects
            <==> individualId in form.subjects && !Text.IsBlank(individualId)
  {
    var valid := ValidSubjects(form.subjects);
    var added := Sorting.Map(valid, SubjectRowFor(newId, treeId));
    CreateWritesEventAndSubjects(db, treeId, form, newId, answers);
    if SubjectRow(newId, individualId, treeId) in added {
      var k :| 0 <= k < |added| && added[k] == SubjectRow(newId, individualId, treeId);
      assert valid[k] == individualId;
    }
    if individualId in valid {
      var k :| 0 <= k < |valid| && valid[k] == individualId;
      assert added[k] == SubjectRow(newId, individualId, treeId);
    }
  }

  /** Without a "subject" role in the tree the call throws, even for a
      marriage, and leaves the event and its subjects behind. */
  lemma MissingSubjectRoleThrows(db: Db, treeId: string, form: EventForm, newId: string)
    requires forall r :: r in db.roles && r.treeId == treeId ==> r.key != "subject"
    requires EventViolation(db, EventRowFor(newId, treeId, form)).None?
    requires forall s :: s in form.subjects && !Text.IsBlank(s) ==> IndividualKnown(db, s)
    requires |Sorting.Filter(db.eventTypes, TypeWithId(form.typeId))| == 1
    ensures Create(db, treeId, form, newId, AllOk) == Outcome(WithEventAndSubjects(db, treeId, form, newId), Failure("Subject role not found"))
  {
    var written := WithEventAndSubjects(db, treeId, form, newId);
    InsertsAccepted(db, treeId, form, newId, AllOk);
    assert written.roles == db.roles && written.eventTypes == db.eventTypes;
    assert Sorting.FindFirst(SpecialRoles(written.roles, treeId), KeyIs("subject")).None?;
  }

  /** Every participant row written belongs to the new event and the tree
      and names both an individual and a role; the rows already there are
      kept in front. */
  lemma ParticipantsAreValid(db: Db, treeId: string, form: EventForm, newId: string, answers: Answers)
    ensures var r := Create(db, treeId, form, newId, answers).db;
      |r.participants| >= |db.participants| && r.participants[..|db.participants|] == db.participants
      && forall i :: |db.participants| <= i < |r.participants| ==>
           var p := r.participants[i];
           p.eventId == newId && p.treeId == treeId && !Text.IsBlank(p.individualId) && !Text.IsBlank(p.roleId)
  {
    var written := WithEventAndSubjects(db, treeId, form, newId);
    assert written.participants == db.participants;
  }

  /** Outside the two-subject marriage, every given subject also takes part
      in the subject role. */
  lemma SubjectsParticipate(db: Db, treeId: string, form: EventForm, newId: string, typeKey: string, role: RoleRow, individualId: string)
    requires !(typeKey == "marriage" && |ValidSubjects(form.subjects)| == 2)
    requires !Text.IsBlank(role.id)
    requires individualId in form.subjects && !Text.IsBlank(individualId)
    ensures ParticipantRow(newId, individualId, role.id, treeId) in ParticipantRows(db, treeId, form, newId, typeKey, role)
  {
    var valid := ValidSubjects(form.subjects);
    var derived := DerivedParticipants(db, treeId, typeKey, valid, role);
    var p := ParticipantInput(individualId, role.id);
    var k :| 0 <= k < |valid| && valid[k] == individualId;
    assert derived[k] == p;
    FilledIffNotBlank(individualId);
    FilledIffNotBlank(role.id);
    var kept := Sorting.Filter(derived + form.participants, ValidParticipant());
    assert p in derived + form.participants;
    assert p in kept;
    var j :| 0 <= j < |kept| && kept[j] == p;
    assert Sorting.Map(kept, ParticipantRowFor(newId, treeId))[j] == ParticipantRow(newId, individualId, role.id, treeId);
  }

  /** With every request answered, every row it names present, the type
      found once and a subject role, the call returns the new id and appends
      exactly the participant rows derived. */
  lemma CreateSucceeds(db: Db, treeId: string, form: EventForm, newId: string, eventType: EventTypeRow, role: RoleRow)
    requires EventViolation(db, EventRowFor(newId, treeId, form)).None?
    requires forall s :: s in form.subjects && !Text.IsBlank(s) ==> IndividualKnown(db, s)
    requires Sorting.Filter(db.eventTypes, TypeWithId(form.typeId)) == [eventType]
    requires Sorting.FindFirst(SpecialRoles(db.roles, treeId), KeyIs("subject")) == Some(role)
    requires var rows := ParticipantRows(WithEventAndSubjects(db, treeId, form, newId), treeId, form, newId, eventType.key, role);
      forall i :: 0 <= i < |rows| ==> IndividualKnown(db, rows[i].individualId) && RoleKnown(db, rows[i].roleId)
    ensures var r := Create(db, treeId, form, newId, AllOk);
      r.result == Success(newId)
      && r.db.participants == db.participants + ParticipantRows(WithEventAndSubjects(db, treeId, form, newId), treeId, form, newId, eventType.key, role)
  {
    var written := WithEventAndSubjects(db, treeId, form, newId);
    InsertsAccepted(db, treeId, form, newId, AllOk);
    assert written.roles == db.roles && written.eventTypes == db.eventTypes && written.participants == db.participants;
    assert written.individuals == db.individuals;
    assert Sorting.Filter(written.eventTypes, TypeWithId(form.typeId))[0] == eventType;
    assert Lookups(written, treeId, form, AllOk) == Success((eventType.key, role));
    var rows := ParticipantRows(written, treeId, form, newId, eventType.key, role);
    assert forall i :: 0 <= i < |rows| ==> IndividualKnown(written, rows[i].individualId) && RoleKnown(written, rows[i].roleId);
    assert ParticipantsViolation(written, rows).None?;
  }

  /** A hand-given participant naming both an individual and a role gets
      its row. */
  lemma HandGivenWritten(db: Db, treeId: string, form: EventForm, newId: string, typeKey: string, role: RoleRow, k: nat)
    requires k < |form.participants| && Filled(form.participants[k].individualId) && Filled(form.participants[k].roleId)
    ensures ParticipantRowFor(newId, treeId)(form.participants[k]) in ParticipantRows(db, treeId, form, newId, typeKey, role)
  {
    var derived := DerivedParticipants(db, treeId, typeKey, ValidSubjects(form.subjects), role);
    var kept := Sorting.Filter(derived + form.participants, ValidParticipant());
    var p := form.participants[k];
    assert p == (derived + form.participants)[|derived| + k];
    assert p in kept;
    var j :| 0 <= j < |kept| && kept[j] == p;
    assert ParticipantRows(db, treeId, form, newId, typeKey, role)[j] == ParticipantRowFor(newId, treeId)(p);
  }

  /** A participant row naming an individual or a role that does not exist
      makes the participants insert fail. */
  lemma UnknownParticipantRefused(written: Db, treeId: string, newId: string, rows: seq<ParticipantRow>, answers: Answers, j: nat)
    requires forall p :: p in rows ==>
               p.eventId == newId && p.treeId == treeId && !Text.IsBlank(p.individualId) && !Text.IsBlank(p.roleId)
    requires j < |rows| && !(IndividualKnown(written, rows[j].individualId) && RoleKnown(written, rows[j].roleId))
    ensures InsertParticipants(written, treeId, newId, rows, answers).result.Failure?
  {
    assert ParticipantsViolation(written, rows).Some?;
  }

  /** A hand-given participant naming no individual or no role makes the
      last insert fail whole, if the call gets that far: it throws and no
      participant row is written. */
  lemma UnknownParticipantWritesNone(written: Db, treeId: string, form: EventForm, newId: string, answers: Answers, k: nat)
    requires k < |form.participants| && Filled(form.participants[k].individualId) && Filled(form.participants[k].roleId)
    requires !IndividualKnown(written, form.participants[k].individualId) || !RoleKnown(written, form.participants[k].roleId)
    ensures AfterInserts(written, treeId, form, newId, answers).db == written
    ensures AfterInserts(written, treeId, form, newId, answers).result.Failure?
  {
    var lookups := Lookups(written, treeId, form, answers);
    if lookups.Success? {
      var (key, role) := lookups.value;
      var rows := ParticipantRows(written, treeId, form, newId, key, role);
      HandGivenWritten(written, treeId, form, newId, key, role, k);
      var j :| 0 <= j < |rows| && rows[j] == ParticipantRowFor(newId, treeId)(form.participants[k]);
      UnknownParticipantRefused(written, treeId, newId, rows, answers, j);
    }
  }

  /** The hand-given participants come after the derived ones, each
      kept exactly when it names both an individual and a role. */
  lemma HandGivenParticipantsLast(db: Db, treeId: string, form: EventForm, newId: string, typeKey: string, subjectRole: RoleRow)
    ensures var derived := DerivedParticipants(db, treeId, typeKey, ValidSubjects(form.subjects), subjectRole);
      ParticipantRows(db, treeId, form, newId, typeKey, subjectRole)
      == Sorting.Map(Sorting.Filter(derived, ValidParticipant()), ParticipantRowFor(newId, treeId))
         + Sorting.Map(Sorting.Filter(form.participants, ValidParticipant()), ParticipantRowFor(newId, treeId))
  {
    var derived := DerivedParticipants(db, treeId, typeKey, ValidSubjects(form.subjects), subjectRole);
    Sorting.FilterConcat(derived, form.participants, ValidParticipant());
    Sorting.MapConcat(Sorting.Filter(derived, ValidParticipant()), Sorting.Filter(form.participants, ValidParticipant()), ParticipantRowFor(newId, treeId));
  }

  /** A two-subject marriage: the first male of the pair takes the husband
      role and the first female the wife role; two subjects of the same
      gender give a single spouse participant. */
  lemma MarriageSpouses(db: Db, treeId: string, valid: seq<string>, subjectRole: RoleRow, husbandRole: RoleRow, wifeRole: RoleRow)
    requires |valid| == 2
    requires Sorting.FindFirst(SpecialRoles(db.roles, treeId), KeyIs("husband")) == Some(husbandRole)
    requires Sorting.FindFirst(SpecialRoles(db.roles, treeId), KeyIs("wife")) == Some(wifeRole)
    ensures var derived := DerivedParticipants(db, treeId, "marriage", valid, subjectRole);
      var spouses := Sorting.Filter(db.individuals, (i: IndividualRow) => i.id in valid && i.treeId == treeId);
      var husband, wife := Sorting.FindFirst(spouses, GenderIs("male")), Sorting.FindFirst(spouses, GenderIs("female"));
      (husband.Some? ==> ParticipantInput(husband.value.id, husbandRole.id) in derived)
      && (wife.Some? ==> ParticipantInput(wife.value.id, wifeRole.id) in derived)
      && |derived| == (if husband.Some? then 1 else 0) + (if wife.Some? then 1 else 0)
  {
  }
}
