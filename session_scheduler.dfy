/**
 * The expiry sweep: sessions left in progress for more than a day are
 * marked EXPIRED. The daily trigger is outside the model; the sweep takes
 * the current time as a parameter.
 */
module SessionScheduler {
  import opened Domain
  import opened Repositories

  const EXPIRY_WINDOW_SECONDS: int := 24 * 60 * 60

  /** The sweep's cutoff: 24 hours before now. */
  function Cutoff(now: Timestamp): (c: Timestamp)
    ensures c < now && now - c == 86400
  {
    now - EXPIRY_WINDOW_SECONDS
  }

  /** In progress and started strictly before the cutoff (`findByStatusAndStartTimeBefore`). */
  predicate Abandoned(s: Session, cutoff: Timestamp)
    ensures Abandoned(s, cutoff) ==> s.status == Started
  {
    s.status == Started && s.startTime < cutoff
  }

  /** A session abandoned at some cutoff is abandoned at every later one; none is abandoned at its own start. */
  lemma AbandonedMonotone(s: Session, earlier: Timestamp, later: Timestamp)
    requires earlier <= later
    ensures Abandoned(s, earlier) ==> Abandoned(s, later)
    ensures !Abandoned(s, s.startTime)
  {
  }

  function AbandonedIds(sessions: map<SessionId, Session>, cutoff: Timestamp): (ids: set<SessionId>)
    ensures forall id :: id in ids <==> id in sessions && Abandoned(sessions[id], cutoff)
  {
    set id | id in sessions && Abandoned(sessions[id], cutoff)
  }

  /** The session table after the sweep: abandoned sessions EXPIRED, every other session as it was. */
  function Swept(sessions: map<SessionId, Session>, cutoff: Timestamp): (after: map<SessionId, Session>)
    ensures after.Keys == sessions.Keys
    ensures forall id :: id in sessions ==>
      after[id] == if Abandoned(sessions[id], cutoff) then sessions[id].(status := Expired) else sessions[id]
  {
    map id | id in sessions :: if Abandoned(sessions[id], cutoff) then sessions[id].(status := Expired) else sessions[id]
  }

  /** Only the status of a session can change, and only from STARTED to EXPIRED. */
  lemma SweepChangesOnlyStatus(sessions: map<SessionId, Session>, cutoff: Timestamp)
    ensures SessionsEvolve(sessions, Swept(sessions, cutoff))
    ensures forall id :: id in sessions ==>
      var before, after := sessions[id], Swept(sessions, cutoff)[id];
      after.submitTime == before.submitTime
      && (after.status != before.status <==> Abandoned(before, cutoff))
  {
  }

  /** A second sweep with the same cutoff finds nothing and changes nothing. */
  lemma SweepIdempotent(sessions: map<SessionId, Session>, cutoff: Timestamp)
    ensures AbandonedIds(Swept(sessions, cutoff), cutoff) == {}
    ensures Swept(Swept(sessions, cutoff), cutoff) == Swept(sessions, cutoff)
  {
    var once := Swept(sessions, cutoff);
    assert forall id :: id in once ==> !Abandoned(once[id], cutoff);
  }

  /** With no abandoned session the sweep changes nothing. */
  lemma NothingToSweep(sessions: map<SessionId, Session>, cutoff: Timestamp)
    requires AbandonedIds(sessions, cutoff) == {}
    ensures Swept(sessions, cutoff) == sessions
  {
    assert forall id :: id in sessions ==> !Abandoned(sessions[id], cutoff);
  }

  /** A session started 25 hours ago is expired; one started an hour ago is not. */
  lemma SweepExample(now: Timestamp)
    ensures var sessions := map[1 := Session(0, 0, Started, now - 25 * 3600, None),
                                2 := Session(0, 1, Started, now - 3600, None)];
      var after := Swept(sessions, Cutoff(now));
      after[1].status == Expired && after[2] == sessions[2]
  {
  }

  /** The sweep keeps the store's invariant. */
  lemma SweepKeepsInvariant(sessions: map<SessionId, Session>, students: map<StudentId, Student>,
                            exams: map<ExamId, Exam>, nextSessionId: SessionId,
                            responses: map<ResponseKey, Response>, questions: seq<Question>, cutoff: Timestamp)
    requires SessionsConsistent(sessions, students, exams, nextSessionId)
    requires AtMostOneStartedPerStudent(sessions)
    requires ResponsesConsistent(responses, sessions, questions)
    ensures SessionsConsistent(Swept(sessions, cutoff), students, exams, nextSessionId)
    ensures AtMostOneStartedPerStudent(Swept(sessions, cutoff))
    ensures ResponsesConsistent(responses, Swept(sessions, cutoff), questions)
  {
    var after := Swept(sessions, cutoff);
    forall k | k in responses ensures k.0 in after && after[k.0].examId == sessions[k.0].examId {
    }
  }

  /**
   * `expireAbandonedSessions`: every session in progress that started before
   * now minus 24 hours becomes EXPIRED and nothing else changes; the
   * returned count is the number of sessions expired.
   */
  method ExpireAbandonedSessions(db: Database, now: Timestamp) returns (expired: nat)
    requires db.Valid()
    modifies db
    ensures db.Valid()
    ensures db.sessions == Swept(old(db.sessions), Cutoff(now))
    ensures expired == |AbandonedIds(old(db.sessions), Cutoff(now))|
    ensures db.students == old(db.students) && db.exams == old(db.exams) && db.questions == old(db.questions)
    ensures db.responses == old(db.responses) && db.nextSessionId == old(db.nextSessionId)
  {
    var cutoff := Cutoff(now);
    var abandoned := AbandonedIds(db.sessions, cutoff);
    if abandoned == {} {
      NothingToSweep(db.sessions, cutoff);
      return 0;
    }
    ghost var before := db.sessions;
    SweepKeepsInvariant(before, db.students, db.exams, db.nextSessionId, db.responses, db.questions, cutoff);
    var pending := abandoned;
    while pending != {}
      invariant pending <= abandoned
      invariant db.sessions.Keys == before.Keys
      invariant forall id :: id in before ==>
        db.sessions[id] == if id in abandoned - pending then before[id].(status := Expired) else before[id]
      invariant db.students == old(db.students) && db.exams == old(db.exams) && db.questions == old(db.questions)
      invariant db.responses == old(db.responses) && db.nextSessionId == old(db.nextSessionId)
      decreases |pending|
    {
      var id :| id in pending;
      db.sessions := db.sessions[id := db.sessions[id].(status := Expired)];
      pending := pending - {id};
    }
    assert db.sessions == Swept(before, cutoff);
    expired := |abandoned|;
  }
}
