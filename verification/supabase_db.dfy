/** The Supabase tables the `src/api` writers touch, as ordered lists of
    rows. Every row carries the tree it belongs to, and every writer scopes
    its statements to one tree. Row ids generated by the database are kept
    only where a writer reads them back. */
module SupabaseDb {
  import opened Wrappers

  datatype IndividualRow = IndividualRow(id: string, treeId: string, gender: string)

  datatype NameRow = NameRow(
    individualId: string, treeId: string,
    firstName: string, lastName: string, surname: Option<string>,
    nameType: string, isPrimary: bool)

  datatype EventRow = EventRow(
    id: string, treeId: string, typeId: string,
    date: Option<string>, placeId: Option<string>, description: Option<string>)

  /** An `event_subjects` row: the individual an event is about. */
  datatype SubjectRow = SubjectRow(eventId: string, individualId: string, treeId: string)

  /** An `event_participants` row: an individual taking a role in an event. */
  datatype ParticipantRow = ParticipantRow(eventId: string, individualId: string, roleId: string, treeId: string)

  datatype FamilyRow = FamilyRow(
    id: string, treeId: string,
    husbandId: Option<string>, wifeId: Option<string>, familyType: string)

  /** A `family_children` row. */
  datatype ChildRow = ChildRow(familyId: string, individualId: string, treeId: string)

  datatype EventTypeRow = EventTypeRow(id: string, key: string)

  datatype RoleRow = RoleRow(id: string, treeId: string, key: string)

  /** The tables; of `places` only the ids matter here, as the target of
      the events' place foreign key. */
  datatype Db = Db(
    individuals: seq<IndividualRow>,
    names: seq<NameRow>,
    events: seq<EventRow>,
    subjects: seq<SubjectRow>,
    participants: seq<ParticipantRow>,
    families: seq<FamilyRow>,
    children: seq<ChildRow>,
    eventTypes: seq<EventTypeRow>,
    roles: seq<RoleRow>,
    places: seq<string>)

  /** A writer's answer, `{ id }`, and the tables after it. */
  datatype Saved = Saved(db: Db, id: string)

  /** `value || null` for a string column. */
  function OrNull(s: string): (r: Option<string>)
    ensures r.None? <==> s == ""
    ensures r.Some? ==> r.value == s
  {
    if s == "" then None else Some(s)
  }
}
