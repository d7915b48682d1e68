/**
 * The persistent state the services work on: the student, exam, question,
 * session and response repositories, held as maps and a table in one object
 * that every state-changing operation updates in place.
 */
module Repositories {
  import opened Domain

  /** At most one session per student is in progress. */
  predicate AtMostOneStartedPerStudent(sessions: map<SessionId, Session>) {
    forall a, b ::
      (a in sessions && b in sessions
       && sessions[a].status == Started && sessions[b].status == Started
       && sessions[a].studentId == sessions[b].studentId) ==> a == b
  }

  /** The sessions `findByStudentIdAndStatus(studentId, status)` returns. */
  function SessionsWith(sessions: map<SessionId, Session>, studentId: StudentId, status: Status): (ids: set<SessionId>)
    ensures ids <= sessions.Keys
    ensures forall id :: id in ids <==>
      id in sessions && sessions[id].studentId == studentId && sessions[id].status == status
  {
    set id | id in sessions && sessions[id].studentId == studentId && sessions[id].status == status
  }

  /**
   * `findByStudentIdAndStatus(studentId, status)` is non-empty: the student
   * has a session in that status. With at most one session in progress per
   * student, the query for STARTED returns at most one session.
   */
  predicate HasSessionWith(sessions: map<SessionId, Session>, studentId: StudentId, status: Status)
    ensures HasSessionWith(sessions, studentId, status) <==> SessionsWith(sessions, studentId, status) != {}
    ensures AtMostOneStartedPerStudent(sessions) ==> |SessionsWith(sessions, studentId, Started)| <= 1
  {
    OneStartedSession(sessions, studentId);
    exists id :: id in sessions && sessions[id].studentId == studentId && sessions[id].status == status
  }

  /** Under the one-in-progress rule the STARTED query has at most one element. */
  lemma OneStartedSession(sessions: map<SessionId, Session>, studentId: StudentId)
    ensures AtMostOneStartedPerStudent(sessions) ==> |SessionsWith(sessions, studentId, Started)| <= 1
  {
    var ids := SessionsWith(sessions, studentId, Started);
    if AtMostOneStartedPerStudent(sessions) && ids != {} {
      var a :| a in ids;
      assert ids == {a};
    }
  }

  /** A submit time is recorded exactly for the sessions that went through submission. */
  predicate SubmitTimeRecorded(s: Session) {
    s.submitTime.Some? <==> (s.status == Submitted || s.status == Completed)
  }

  predicate SessionsConsistent(sessions: map<SessionId, Session>, students: map<StudentId, Student>,
                               exams: map<ExamId, Exam>, nextSessionId: SessionId) {
    forall id :: id in sessions ==>
      && id < nextSessionId
      && sessions[id].examId in exams
      && sessions[id].studentId in students
      && SubmitTimeRecorded(sessions[id])
  }

  /**
   * Every response belongs to a stored session and to a question of that
   * session's exam, carries a chosen index from 0 to 3, and its stored
   * correctness flag agrees with the question's correct index.
   */
  predicate ResponsesConsistent(responses: map<ResponseKey, Response>, sessions: map<SessionId, Session>,
                                questions: seq<Question>) {
    forall k :: k in responses ==>
      && k.0 in sessions
      && var q := FindQuestion(questions, k.1);
      && q.Some?
      && q.value.examId == sessions[k.0].examId
      && responses[k].chosenIndex.Some?
      && 0 <= responses[k].chosenIndex.value <= 3
      && responses[k].isCorrect == AnsweredCorrectly(responses[k].chosenIndex, q.value.correctIndex)
  }

  /** The question table as the authoring side leaves it. */
  predicate CatalogConsistent(questions: seq<Question>) {
    QuestionIdsUnique(questions) && forall q :: q in questions ==> WellFormedQuestion(q)
  }

  /**
   * How the session table may evolve: no session disappears, a session keeps
   * its exam, student and start time, and its status stays or takes one
   * allowed transition.
   */
  predicate SessionsEvolve(before: map<SessionId, Session>, after: map<SessionId, Session>)
    ensures SessionsEvolve(before, after) ==> before.Keys <= after.Keys
    ensures SessionsEvolve(before, after) ==> forall id :: id in before ==>
      (before[id].status == Completed || before[id].status == Expired) ==> after[id].status == before[id].status
    ensures SessionsEvolve(before, after) ==> forall id :: id in before ==>
      after[id].status == Started ==> before[id].status == Started
  {
    forall id :: id in before ==>
      && id in after
      && after[id].examId == before[id].examId
      && after[id].studentId == before[id].studentId
      && after[id].startTime == before[id].startTime
      && StepOrStay(before[id].status, after[id].status)
  }

  /** The session table after a session is finished: that session COMPLETED, everything else as it was. */
  function Finished(sessions: map<SessionId, Session>, sessionId: SessionId): (after: map<SessionId, Session>)
    requires sessionId in sessions
    ensures after.Keys == sessions.Keys
    ensures after[sessionId] == sessions[sessionId].(status := Completed)
    ensures forall id :: id in sessions && id != sessionId ==> after[id] == sessions[id]
  {
    sessions[sessionId := sessions[sessionId].(status := Completed)]
  }

  class Database {
    var students: map<StudentId, Student>
    var exams: map<ExamId, Exam>
    var questions: seq<Question>
    var sessions: map<SessionId, Session>
    var responses: map<ResponseKey, Response>
    /** The identifier the next created session receives. */
    var nextSessionId: SessionId

    /**
     * The store's invariant: a well-formed catalog, sessions that name stored
     * students and exams under ids below `nextSessionId` with a submit time
     * exactly after submission, at most one session in progress per student,
     * and responses consistent with their session and question.
     */
    ghost predicate Valid()
      reads this
      ensures Valid() ==> AtMostOneStartedPerStudent(sessions)
      ensures Valid() ==> forall k :: k in responses ==> k.0 in sessions && responses[k].chosenIndex.Some?
    {
      && CatalogConsistent(questions)
      && SessionsConsistent(sessions, students, exams, nextSessionId)
      && AtMostOneStartedPerStudent(sessions)
      && ResponsesConsistent(responses, sessions, questions)
    }

    /** A store holding the given catalog and registered students, with no session yet. */
    constructor (students: map<StudentId, Student>, exams: map<ExamId, Exam>, questions: seq<Question>)
      requires CatalogConsistent(questions)
      ensures Valid()
      ensures this.students == students && this.exams == exams && this.questions == questions
      ensures sessions == map[] && responses == map[]
    {
      this.students := students;
      this.exams := exams;
      this.questions := questions;
      sessions := map[];
      responses := map[];
      nextSessionId := 0;
    }
  }
}
