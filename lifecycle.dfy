/**
 * Properties of the session lifecycle that span several services: the
 * status order, the report guard across state changes, and what the
 * dashboard and the directory show after finishing and after the sweep.
 */
module Lifecycle {
  import opened Domain
  import opened Repositories
  import ExamService
  import SessionScheduler
  import StudentManagementService

  /** Position of a status along the lifecycle; the two terminal states share the last place. */
  function Rank(s: Status): nat {
    match s
    case Started => 0
    case Submitted => 1
    case Completed => 2
    case Expired => 2
  }

  /** Every allowed transition moves strictly forward, and nothing leaves COMPLETED or EXPIRED. */
  lemma TransitionsMoveForward(from: Status, to: Status)
    ensures Transition(from, to) ==> Rank(from) < Rank(to)
    ensures (from == Completed || from == Expired) ==> !Transition(from, to)
    ensures StepOrStay(from, to) ==> Rank(from) <= Rank(to)
  {
  }

  /** Two evolutions in a row reach only statuses at least as far along the lifecycle. */
  lemma {:induction false} EvolveTwice(a: map<SessionId, Session>, b: map<SessionId, Session>,
                                       c: map<SessionId, Session>)
    requires SessionsEvolve(a, b) && SessionsEvolve(b, c)
    ensures forall id :: id in a ==>
      && id in c
      && c[id].examId == a[id].examId && c[id].studentId == a[id].studentId
      && Rank(a[id].status) <= Rank(c[id].status)
  {
    forall id | id in a
      ensures id in c && c[id].examId == a[id].examId && c[id].studentId == a[id].studentId
      ensures Rank(a[id].status) <= Rank(c[id].status)
    {
      TransitionsMoveForward(a[id].status, b[id].status);
      TransitionsMoveForward(b[id].status, c[id].status);
    }
  }

  /** Once a report is available it stays available, for the same student, whatever the services do next. */
  lemma ReportStaysAvailable(before: map<SessionId, Session>, after: map<SessionId, Session>, sessionId: SessionId)
    requires SessionsEvolve(before, after)
    requires ExamService.ReportRequest(before, sessionId).Ok?
    ensures ExamService.ReportRequest(after, sessionId) == ExamService.ReportRequest(before, sessionId)
  {
    TransitionsMoveForward(before[sessionId].status, after[sessionId].status);
  }

  /** Finishing a SUBMITTED session adds exactly one to the dashboard's completed count. */
  lemma FinishAddsOneCompleted(students: map<StudentId, Student>, sessions: map<SessionId, Session>,
                               sessionId: SessionId, startOfDay: Timestamp)
    requires sessionId in sessions && sessions[sessionId].status == Submitted
    ensures StudentManagementService.GetDashboardStats(students, Finished(sessions, sessionId), startOfDay).examsCompleted
         == StudentManagementService.GetDashboardStats(students, sessions, startOfDay).examsCompleted + 1
  {
    var before := StudentManagementService.CompletedIds(sessions);
    var after := StudentManagementService.CompletedIds(Finished(sessions, sessionId));
    assert after == before + {sessionId};
    assert sessionId !in before;
  }

  /** The expiry sweep never changes the dashboard's completed count. */
  lemma SweepKeepsCompletedCount(students: map<StudentId, Student>, sessions: map<SessionId, Session>,
                                 cutoff: Timestamp, startOfDay: Timestamp)
    ensures StudentManagementService.GetDashboardStats(students, SessionScheduler.Swept(sessions, cutoff), startOfDay)
         == StudentManagementService.GetDashboardStats(students, sessions, startOfDay)
  {
    assert StudentManagementService.CompletedIds(SessionScheduler.Swept(sessions, cutoff))
        == StudentManagementService.CompletedIds(sessions);
  }

  /** After a finish the student is listed as COMPLETED in the directory. */
  lemma LabelAfterFinish(sessions: map<SessionId, Session>, sessionId: SessionId)
    requires sessionId in sessions
    ensures var studentId := sessions[sessionId].studentId;
      StudentManagementService.ExamStatusOf(Finished(sessions, sessionId), studentId)
        == StudentManagementService.CompletedLabel
  {
  }

  /** A student with a session in progress is never listed as NOT_TAKEN. */
  lemma StartedIsNotNotTaken(sessions: map<SessionId, Session>, sessionId: SessionId)
    requires sessionId in sessions && sessions[sessionId].status == Started
    ensures StudentManagementService.ExamStatusOf(sessions, sessions[sessionId].studentId)
         != StudentManagementService.NotTaken
  {
    assert HasSessionWith(sessions, sessions[sessionId].studentId, Started);
  }

  /**
   * A student whose one session in progress is expired by the sweep, and who
   * has no completed session, drops from IN_PROGRESS back to NOT_TAKEN.
   */
  lemma SweepResetsLabel(sessions: map<SessionId, Session>, sessionId: SessionId, cutoff: Timestamp)
    requires AtMostOneStartedPerStudent(sessions)
    requires sessionId in sessions && SessionScheduler.Abandoned(sessions[sessionId], cutoff)
    requires !HasSessionWith(sessions, sessions[sessionId].studentId, Completed)
    ensures var studentId := sessions[sessionId].studentId;
      && StudentManagementService.ExamStatusOf(sessions, studentId) == StudentManagementService.InProgress
      && StudentManagementService.ExamStatusOf(SessionScheduler.Swept(sessions, cutoff), studentId)
           == StudentManagementService.NotTaken
  {
    var studentId := sessions[sessionId].studentId;
    var after := SessionScheduler.Swept(sessions, cutoff);
    assert HasSessionWith(sessions, studentId, Started);
    forall j | j in after && after[j].studentId == studentId
      ensures after[j].status != Started && after[j].status != Completed
    {
      assert j != sessionId ==> sessions[j].status != Started;
    }
  }
}
