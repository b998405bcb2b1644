/** `deleteIndividual` in `src/api/individuals/deleteIndividual.ts`: removes
    an individual from a tree together with the events only they were the
    subject of. The events are visited in the order their subject rows were
    read, and each visit counts the event's subject rows as they stand at
    that moment. Names and `family_children` rows go with the individual
    row through the database's ON DELETE CASCADE. */
module DeleteIndividual {
  import opened Wrappers
  import opened SupabaseDb
  import Sorting

  function SubjectOfEvent(eventId: string, treeId: string): SubjectRow -> bool {
    (s: SubjectRow) => s.eventId == eventId && s.treeId == treeId
  }

  function SubjectRowOf(individualId: string, treeId: string): SubjectRow -> bool {
    (s: SubjectRow) => s.individualId == individualId && s.treeId == treeId
  }

  function SubjectRowAt(eventId: string, individualId: string, treeId: string): SubjectRow -> bool {
    (s: SubjectRow) => s.eventId == eventId && s.individualId == individualId && s.treeId == treeId
  }

  function ParticipantOfEvent(eventId: string, treeId: string): ParticipantRow -> bool {
    (p: ParticipantRow) => p.eventId == eventId && p.treeId == treeId
  }

  function ParticipantRowOf(individualId: string, treeId: string): ParticipantRow -> bool {
    (p: ParticipantRow) => p.individualId == individualId && p.treeId == treeId
  }

  function EventIs(eventId: string, treeId: string): EventRow -> bool {
    (e: EventRow) => e.id == eventId && e.treeId == treeId
  }

  function IndividualIs(individualId: string, treeId: string): IndividualRow -> bool {
    (i: IndividualRow) => i.id == individualId && i.treeId == treeId
  }

  function EventIdOf(): SubjectRow -> string {
    (s: SubjectRow) => s.eventId
  }

  /** The subject rows of an event, in the tree. */
  function SubjectsOf(db: Db, eventId: string, treeId: string): seq<SubjectRow> {
    Sorting.Filter(db.subjects, SubjectOfEvent(eventId, treeId))
  }

  /** The events the individual is a subject of, one entry per subject row. */
  function SubjectEventIds(db: Db, treeId: string, individualId: string): (r: seq<string>)
    ensures forall e :: e in r <==> SubjectRow(e, individualId, treeId) in db.subjects
  {
    var rows := Sorting.Filter(db.subjects, SubjectRowOf(individualId, treeId));
    var r := Sorting.Map(rows, EventIdOf());
    forall e
      ensures e in r <==> SubjectRow(e, individualId, treeId) in db.subjects
    {
      if e in r {
        var i :| 0 <= i < |r| && r[i] == e;
        assert rows[i] in rows;
      }
      if SubjectRow(e, individualId, treeId) in db.subjects {
        var row := SubjectRow(e, individualId, treeId);
        assert row in rows;
        var i :| 0 <= i < |rows| && rows[i] == row;
        assert r[i] == e;
      }
    }
    r
  }

  /** One turn of the loop: an event with a single subject row goes with
      its participants and subjects; otherwise only the individual's
      subject rows for it go. */
  function ForEvent(db: Db, treeId: string, individualId: string, eventId: string): (r: Db)
    ensures r.individuals == db.individuals && r.names == db.names && r.children == db.children
    ensures |SubjectsOf(db, eventId, treeId)| == 1 ==>
              (forall e :: e in r.events <==> e in db.events && !EventIs(eventId, treeId)(e))
              && (forall p :: p in r.participants <==> p in db.participants && !ParticipantOfEvent(eventId, treeId)(p))
              && (forall s :: s in r.subjects <==> s in db.subjects && !SubjectOfEvent(eventId, treeId)(s))
    ensures |SubjectsOf(db, eventId, treeId)| != 1 ==>
              r.events == db.events && r.participants == db.participants
              && (forall s :: s in r.subjects <==> s in db.subjects && !SubjectRowAt(eventId, individualId, treeId)(s))
  {
    if |SubjectsOf(db, eventId, treeId)| == 1 then
      db.(participants := Sorting.Filter(db.participants, Sorting.Not(ParticipantOfEvent(eventId, treeId))),
          subjects := Sorting.Filter(db.subjects, Sorting.Not(SubjectOfEvent(eventId, treeId))),
          events := Sorting.Filter(db.events, Sorting.Not(EventIs(eventId, treeId))))
    else
      db.(subjects := Sorting.Filter(db.subjects, Sorting.Not(SubjectRowAt(eventId, individualId, treeId))))
  }

  /** The loop over the subject rows read at the start. */
  function ForEvents(db: Db, treeId: string, individualId: string, eventIds: seq<string>): (r: Db)
    ensures r.individuals == db.individuals && r.names == db.names && r.children == db.children
    decreases |eventIds|
  {
    if |eventIds| == 0 then db
    else ForEvents(ForEvent(db, treeId, individualId, eventIds[0]), treeId, individualId, eventIds[1..])
  }

  /** The participants delete after the loop: every participant row of
      the individual in the tree. */
  function Unlink(db: Db, treeId: string, individualId: string): (r: Db)
    ensures Shrinks(db, r, treeId)
  {
    db.(participants := Sorting.Filter(db.participants, Sorting.Not(ParticipantRowOf(individualId, treeId))))
  }

  /** The last delete: the individual row, and through the cascade its
      names and `family_children` rows. */
  function RemoveIndividual(db: Db, treeId: string, individualId: string): (r: Db)
    ensures r.events == db.events && r.subjects == db.subjects && r.participants == db.participants
    ensures forall i :: i in r.individuals <==> i in db.individuals && !IndividualIs(individualId, treeId)(i)
  {
    var existed := exists i :: i in db.individuals && IndividualIs(individualId, treeId)(i);
    var removed := db.(individuals := Sorting.Filter(db.individuals, Sorting.Not(IndividualIs(individualId, treeId))));
    if existed then
      removed.(names := Sorting.Filter(removed.names, (n: NameRow) => n.individualId != individualId),
               children := Sorting.Filter(removed.children, (c: ChildRow) => c.individualId != individualId))
    else removed
  }

  /** The tables after a run in which every call succeeds. */
  function Completed(db: Db, treeId: string, individualId: string): Db {
    var visited := ForEvents(db, treeId, individualId, SubjectEventIds(db, treeId, individualId));
    RemoveIndividual(Unlink(visited, treeId, individualId), treeId, individualId)
  }

  // ---------------------------------------------------------------------
  // Failing calls
  // ---------------------------------------------------------------------

  /** The database calls are numbered from 0 in the order the function
      makes them; `CallFailure(k, e)` says the k-th returns the error `e`,
      which is thrown. */
  datatype CallFailure = CallFailure(call: nat, error: string)

  predicate FailsAt(failure: Option<CallFailure>, k: nat) {
    failure.Some? && failure.value.call == k
  }

  /** `after` is `before` less some event, subject and participant rows of
      the tree; the individuals, names, families and links are as before. */
  predicate Shrinks(before: Db, after: Db, treeId: string) {
    && after.individuals == before.individuals && after.names == before.names
    && after.families == before.families && after.children == before.children
    && after.eventTypes == before.eventTypes && after.roles == before.roles
    && (forall e :: e in after.events ==> e in before.events)
    && (forall s :: s in after.subjects ==> s in before.subjects)
    && (forall p :: p in after.participants ==> p in before.participants)
    && (forall e :: e in before.events && e.treeId != treeId ==> e in after.events)
    && (forall s :: s in before.subjects && s.treeId != treeId ==> s in after.subjects)
    && (forall p :: p in before.participants && p.treeId != treeId ==> p in after.participants)
  }

  /** The calls one visit makes: the count, then three deletes or one. */
  function VisitCalls(db: Db, treeId: string, eventId: string): nat {
    if |SubjectsOf(db, eventId, treeId)| == 1 then 4 else 2
  }

  /** The calls the loop makes when none fails. */
  function LoopCalls(db: Db, treeId: string, individualId: string, eventIds: seq<string>): nat
    decreases |eventIds|
  {
    if |eventIds| == 0 then 0
    else VisitCalls(db, treeId, eventIds[0])
         + LoopCalls(ForEvent(db, treeId, individualId, eventIds[0]), treeId, individualId, eventIds[1..])
  }

  /** The calls a run makes when none fails: the subjects select, the loop,
      the participants delete and the individual delete. */
  function CallCount(db: Db, treeId: string, individualId: string): nat {
    1 + LoopCalls(db, treeId, individualId, SubjectEventIds(db, treeId, individualId)) + 2
  }

  /** The loop from call `k` on. The first failing call ends it, and what
      the earlier deletes removed stays removed. The result is the tables,
      the number of the next call and the outcome. */
  function VisitEvents(db: Db, treeId: string, individualId: string, eventIds: seq<string>, k: nat, failure: Option<CallFailure>)
    : (r: (Db, nat, Result<()>))
    ensures Shrinks(db, r.0, treeId)
    ensures r.2.Success? <==> !(failure.Some? && k <= failure.value.call < k + LoopCalls(db, treeId, individualId, eventIds))
    ensures r.2.Success? ==> r.0 == ForEvents(db, treeId, individualId, eventIds) && r.1 == k + LoopCalls(db, treeId, individualId, eventIds)
    ensures r.2.Failure? ==> failure.Some? && r.2.error == failure.value.error
    decreases |eventIds|
  {
    if |eventIds| == 0 then (db, k, Success(()))
    else
      var eventId := eventIds[0];
      if FailsAt(failure, k) then (db, k, Failure(failure.value.error))
      else if |SubjectsOf(db, eventId, treeId)| == 1 then
        var noParticipants := db.(participants := Sorting.Filter(db.participants, Sorting.Not(ParticipantOfEvent(eventId, treeId))));
        var noSubjects := noParticipants.(subjects := Sorting.Filter(db.subjects, Sorting.Not(SubjectOfEvent(eventId, treeId))));
        if FailsAt(failure, k + 1) then (db, k + 1, Failure(failure.value.error))
        else if FailsAt(failure, k + 2) then (noParticipants, k + 2, Failure(failure.value.error))
        else if FailsAt(failure, k + 3) then (noSubjects, k + 3, Failure(failure.value.error))
        else VisitEvents(ForEvent(db, treeId, individualId, eventId), treeId, individualId, eventIds[1..], k + 4, failure)
      else if FailsAt(failure, k + 1) then (db, k + 1, Failure(failure.value.error))
      else VisitEvents(ForEvent(db, treeId, individualId, eventId), treeId, individualId, eventIds[1..], k + 2, failure)
  }

  /** `deleteIndividual(treeId, individualId)`, with `failure` naming the
      call, if any, whose error is thrown. A run without a failing call
      ends in `Completed`; a failing one throws that call's error and
      keeps what the calls before it removed, but never the individual row,
      its names or its family links. */
  function Delete(db: Db, treeId: string, individualId: string, failure: Option<CallFailure>): (r: (Db, Result<()>))
    ensures r.1.Success? <==> !(failure.Some? && failure.value.call < CallCount(db, treeId, individualId))
    ensures r.1.Success? ==> r.0 == Completed(db, treeId, individualId)
    ensures r.1.Failure? ==> failure.Some? && r.1.error == failure.value.error && Shrinks(db, r.0, treeId)
    ensures FailsAt(failure, 0) ==> r == (db, Failure(failure.value.error))
  {
    if FailsAt(failure, 0) then (db, Failure(failure.value.error))
    else
      var ids := SubjectEventIds(db, treeId, individualId);
      var visit := VisitEvents(db, treeId, individualId, ids, 1, failure);
      if visit.2.Failure? then (visit.0, visit.2)
      else if FailsAt(failure, visit.1) then (visit.0, Failure(failure.value.error))
      else if FailsAt(failure, visit.1 + 1) then (Unlink(visit.0, treeId, individualId), Failure(failure.value.error))
      else (RemoveIndividual(Unlink(visit.0, treeId, individualId), treeId, individualId), Success(()))
  }

  // ---------------------------------------------------------------------
  // The loop's effect
  // ---------------------------------------------------------------------

  predicate Distinct(ids: seq<string>) {
    forall i, j :: 0 <= i < j < |ids| ==> ids[i] != ids[j]
  }

  /** Visiting one event leaves every other event's subject rows alone. */
  lemma ForEventKeepsOtherSubjects(db: Db, treeId: string, individualId: string, visited: string, other: string)
    requires visited != other
    ensures SubjectsOf(ForEvent(db, treeId, individualId, visited), other, treeId) == SubjectsOf(db, other, treeId)
  {
    if |SubjectsOf(db, visited, treeId)| == 1 {
      Sorting.FilterOutUnselected(db.subjects, Sorting.Not(SubjectOfEvent(visited, treeId)), SubjectOfEvent(other, treeId));
    } else {
      Sorting.FilterOutUnselected(db.subjects, Sorting.Not(SubjectRowAt(visited, individualId, treeId)), SubjectOfEvent(other, treeId));
    }
  }

  /** An event visited while it has exactly one subject row. */
  predicate Removed(db: Db, treeId: string, eventIds: seq<string>, eventId: string) {
    eventId in eventIds && |SubjectsOf(db, eventId, treeId)| == 1
  }

  /** Over distinct events, the loop removes each event that has a single
      subject row at the start, with its participants and subjects, and
      otherwise the individual's subject rows of the visited events. */
  lemma {:induction false} ForEventsEffect(db: Db, treeId: string, individualId: string, eventIds: seq<string>)
    requires Distinct(eventIds)
    ensures var r := ForEvents(db, treeId, individualId, eventIds);
      (forall e :: e in r.events <==> e in db.events && !(e.treeId == treeId && Removed(db, treeId, eventIds, e.id)))
      && (forall p :: p in r.participants <==>
            p in db.participants && !(p.treeId == treeId && Removed(db, treeId, eventIds, p.eventId)))
      && (forall s :: s in r.subjects <==>
            s in db.subjects && !(s.treeId == treeId && (Removed(db, treeId, eventIds, s.eventId)
                                                        || (s.eventId in eventIds && s.individualId == individualId))))
      && (forall e :: e !in eventIds ==> SubjectsOf(r, e, treeId) == SubjectsOf(db, e, treeId))
    decreases |eventIds|
  {
    if |eventIds| > 0 {
      var first, rest := eventIds[0], eventIds[1..];
      var d1 := ForEvent(db, treeId, individualId, first);
      assert Distinct(rest);
      ForEventsEffect(d1, treeId, individualId, rest);
      forall e | e in rest
        ensures SubjectsOf(d1, e, treeId) == SubjectsOf(db, e, treeId)
      {
        var k :| 0 <= k < |rest| && rest[k] == e;
        assert eventIds[k + 1] == e;
        ForEventKeepsOtherSubjects(db, treeId, individualId, first, e);
      }
      forall e | e !in eventIds
        ensures SubjectsOf(d1, e, treeId) == SubjectsOf(db, e, treeId)
      {
        ForEventKeepsOtherSubjects(db, treeId, individualId, first, e);
      }
      assert first !in rest;
      forall e: string
        ensures Removed(db, treeId, eventIds, e) <==> (e == first && |SubjectsOf(db, first, treeId)| == 1) || Removed(d1, treeId, rest, e)
      {
        assert e in eventIds <==> e == first || e in rest;
      }
    }
  }

  // ---------------------------------------------------------------------
  // The whole deletion
  // ---------------------------------------------------------------------

  /** The individual is the one and only subject of the event. */
  predicate SoleSubject(db: Db, treeId: string, individualId: string, eventId: string) {
    SubjectsOf(db, eventId, treeId) == [SubjectRow(eventId, individualId, treeId)]
  }

  /** The individual has at most one subject row per event. */
  ghost predicate NoDuplicateSubjects(db: Db, treeId: string, individualId: string) {
    Sorting.DistinctBy(Sorting.Filter(db.subjects, SubjectRowOf(individualId, treeId)), EventIdOf())
  }

  lemma SubjectEventIdsDistinct(db: Db, treeId: string, individualId: string)
    requires NoDuplicateSubjects(db, treeId, individualId)
    ensures Distinct(SubjectEventIds(db, treeId, individualId))
  {
  }

  /** A visited event has a single subject row exactly when the individual
      is its sole subject. */
  lemma RemovedIffSole(db: Db, treeId: string, individualId: string, eventId: string)
    ensures Removed(db, treeId, SubjectEventIds(db, treeId, individualId), eventId)
            <==> SoleSubject(db, treeId, individualId, eventId)
  {
    var own := SubjectRow(eventId, individualId, treeId);
    var rows := SubjectsOf(db, eventId, treeId);
    if Removed(db, treeId, SubjectEventIds(db, treeId, individualId), eventId) {
      assert own in rows;
      assert rows == [rows[0]];
    }
    if SoleSubject(db, treeId, individualId, eventId) {
      assert own in rows;
    }
  }

  /** Another subject of a visited event rules out its removal. */
  lemma OtherSubjectKeepsEvent(db: Db, treeId: string, individualId: string, s: SubjectRow)
    requires s in db.subjects && s.treeId == treeId && s.individualId != individualId
    ensures !SoleSubject(db, treeId, individualId, s.eventId)
  {
    assert s in SubjectsOf(db, s.eventId, treeId);
  }

  /** Partner of `Delete`, when the individual has at most one subject row
      per event: the individual row and all its subject and participant
      rows go; an event goes, with its participants, exactly when the
      individual was its sole subject; every other row stays, including
      every row of other trees. Names and family links follow the
      individual row. */
  lemma DeleteEffect(db: Db, treeId: string, individualId: string)
    requires NoDuplicateSubjects(db, treeId, individualId)
    ensures var r := Delete(db, treeId, individualId, None).0;
      (forall i :: i in r.individuals <==> i in db.individuals && !(i.id == individualId && i.treeId == treeId))
      && (forall e :: e in r.events <==> e in db.events && !(e.treeId == treeId && SoleSubject(db, treeId, individualId, e.id)))
      && (forall s :: s in r.subjects <==> s in db.subjects && !(s.individualId == individualId && s.treeId == treeId))
      && (forall p :: p in r.participants <==>
            p in db.participants && !(p.individualId == individualId && p.treeId == treeId)
            && !(p.treeId == treeId && SoleSubject(db, treeId, individualId, p.eventId)))
  {
    var ids := SubjectEventIds(db, treeId, individualId);
    SubjectEventIdsDistinct(db, treeId, individualId);
    ForEventsEffect(db, treeId, individualId, ids);
    var visited := ForEvents(db, treeId, individualId, ids);
    var r := Delete(db, treeId, individualId, None).0;
    forall e | e in db.events && e.treeId == treeId
      ensures Removed(db, treeId, ids, e.id) <==> SoleSubject(db, treeId, individualId, e.id)
    {
      RemovedIffSole(db, treeId, individualId, e.id);
    }
    forall p | p in db.participants && p.treeId == treeId
      ensures Removed(db, treeId, ids, p.eventId) <==> SoleSubject(db, treeId, individualId, p.eventId)
    {
      RemovedIffSole(db, treeId, individualId, p.eventId);
    }
    forall s | s in db.subjects
      ensures s in r.subjects <==> !(s.individualId == individualId && s.treeId == treeId)
    {
      assert r.subjects == visited.subjects;
      if s.treeId == treeId && s.individualId != individualId && s.eventId in ids {
        RemovedIffSole(db, treeId, individualId, s.eventId);
        OtherSubjectKeepsEvent(db, treeId, individualId, s);
      }
    }
  }

  /** Whatever the subject rows, nothing of the individual is left in the
      tree, and the rows of other trees are untouched. */
  lemma DeleteLeavesNoTrace(db: Db, treeId: string, individualId: string)
    ensures var r := Delete(db, treeId, individualId, None).0;
      (forall i :: i in r.individuals ==> !(i.id == individualId && i.treeId == treeId))
      && (forall s :: s in r.subjects ==> !(s.individualId == individualId && s.treeId == treeId))
      && (forall p :: p in r.participants ==> !(p.individualId == individualId && p.treeId == treeId))
    ensures var r := Delete(db, treeId, individualId, None).0;
      (forall i :: i in db.individuals && i.treeId != treeId ==> i in r.individuals)
      && (forall e :: e in db.events && e.treeId != treeId ==> e in r.events)
      && (forall s :: s in db.subjects && s.treeId != treeId ==> s in r.subjects)
      && (forall p :: p in db.participants && p.treeId != treeId ==> p in r.participants)
  {
    var ids := SubjectEventIds(db, treeId, individualId);
    var r := Delete(db, treeId, individualId, None).0;
    forall s | s in r.subjects
      ensures !(s.individualId == individualId && s.treeId == treeId)
    {
      ForEventsBounds(db, treeId, individualId, ids);
    }
    ForEventsBounds(db, treeId, individualId, ids);
  }

  /** The loop only removes rows: the individual's subject rows of every
      visited event, and rows of the tree it works in. */
  lemma {:induction false} ForEventsBounds(db: Db, treeId: string, individualId: string, eventIds: seq<string>)
    ensures var r := ForEvents(db, treeId, individualId, eventIds);
      (forall s :: s in r.subjects ==> s in db.subjects)
      && (forall s :: s in r.subjects && s.individualId == individualId && s.treeId == treeId ==> s.eventId !in eventIds)
      && (forall e :: e in db.events && e.treeId != treeId ==> e in r.events)
      && (forall s :: s in db.subjects && s.treeId != treeId ==> s in r.subjects)
      && (forall p :: p in db.participants && p.treeId != treeId ==> p in r.participants)
    decreases |eventIds|
  {
    if |eventIds| > 0 {
      var d1 := ForEvent(db, treeId, individualId, eventIds[0]);
      ForEventsBounds(d1, treeId, individualId, eventIds[1..]);
      assert eventIds == [eventIds[0]] + eventIds[1..];
    }
  }

  // ---------------------------------------------------------------------
  // Duplicate subject rows
  // ---------------------------------------------------------------------

  const Alone := Db(
    [IndividualRow("i", "t", "male")], [],
    [EventRow("e", "t", "birth", None, None, None)],
    [SubjectRow("e", "i", "t"), SubjectRow("e", "i", "t")],
    [], [], [], [], [], [])

  /** When the individual's only subject row of an event is stored twice,
      the first visit sees two rows and removes just the individual's, the
      second sees none: the event survives with no subject at all. */
  lemma DuplicateRowKeepsEvent()
    ensures Delete(Alone, "t", "i", None).0.events == Alone.events
    ensures Delete(Alone, "t", "i", None).0.subjects == []
  {
    var ids := SubjectEventIds(Alone, "t", "i");
    assert ids == ["e", "e"];
    var d1 := ForEvent(Alone, "t", "i", "e");
    assert |SubjectsOf(Alone, "e", "t")| == 2;
    assert d1.subjects == [];
    assert SubjectsOf(d1, "e", "t") == [];
  }
}
