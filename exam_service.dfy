/**
 * The student-facing exam operations: starting a session, paging through
 * its questions, saving answers, submitting, finishing and reading the
 * result. Each state-changing operation is one atomic step on the store.
 */
module ExamService {
  import opened Domain
  import opened Scoring
  import opened Repositories
  import AssessmentService

  /** What a started session hands back to the client. */
  datatype SessionHandle = SessionHandle(sessionId: SessionId, durationSeconds: int, startTime: Timestamp)

  /** One question as the student sees it: the correct index is not part of it. */
  datatype QuestionView = QuestionView(
    id: QuestionId, content: string, options: seq<string>, selectedOption: Option<int>)

  datatype SubmitSummary = SubmitSummary(answeredCount: nat, totalCount: int, unansweredCount: int)

  const MAX_PAGE_SIZE: int := 20
  const REPORT_PREFIX: string := "/api/v1/reports/"
  const REPORT_SUFFIX: string := "/download"

  /** `toResponse`: the session's id, its exam's time limit and its start time. */
  function ToResponse(id: SessionId, session: Session, exams: map<ExamId, Exam>): (h: SessionHandle)
    requires session.examId in exams
    ensures h.sessionId == id && h.startTime == session.startTime
    ensures h.durationSeconds == exams[session.examId].timeLimitSeconds
  {
    SessionHandle(id, exams[session.examId].timeLimitSeconds, session.startTime)
  }

  // ---------------------------------------------------------------- start

  /**
   * `startExamSession`: an unknown student is NotFound and a missing exam id
   * BadRequest, in that order. A student with a session in progress gets that
   * session back and nothing changes, whatever exam was asked for. Otherwise
   * the exam must exist, and exactly one new session is added for it.
   */
  method StartExamSession(db: Database, studentId: StudentId, examId: Option<ExamId>, now: Timestamp)
    returns (r: Result<SessionHandle>)
    requires db.Valid()
    modifies db
    ensures db.Valid()
    ensures SessionsEvolve(old(db.sessions), db.sessions)
    ensures studentId !in old(db.students) ==> r == Err(NotFound) && unchanged(db)
    ensures studentId in old(db.students) && examId.None? ==> r == Err(BadRequest) && unchanged(db)
    ensures studentId in old(db.students) && examId.Some? && HasSessionWith(old(db.sessions), studentId, Started) ==>
      && unchanged(db)
      && r.Ok?
      && r.value.sessionId in db.sessions
      && db.sessions[r.value.sessionId].studentId == studentId
      && db.sessions[r.value.sessionId].status == Started
      && r.value == ToResponse(r.value.sessionId, db.sessions[r.value.sessionId], db.exams)
    ensures (&& studentId in old(db.students) && examId.Some?
             && !HasSessionWith(old(db.sessions), studentId, Started) && examId.value !in old(db.exams)) ==>
      r == Err(NotFound) && unchanged(db)
    ensures (&& studentId in old(db.students) && examId.Some?
             && !HasSessionWith(old(db.sessions), studentId, Started) && examId.value in old(db.exams)) ==>
      && r.Ok?
      && r.value.sessionId !in old(db.sessions)
      && db.sessions == old(db.sessions)[r.value.sessionId := Session(examId.value, studentId, Started, now, None)]
      && r.value == SessionHandle(r.value.sessionId, old(db.exams)[examId.value].timeLimitSeconds, now)
      && db.students == old(db.students) && db.exams == old(db.exams)
      && db.questions == old(db.questions) && db.responses == old(db.responses)
      && r.value.sessionId == old(db.nextSessionId) && db.nextSessionId == old(db.nextSessionId) + 1
  {
    if studentId !in db.students {
      return Err(NotFound);
    }
    if examId.None? {
      return Err(BadRequest);
    }
    if HasSessionWith(db.sessions, studentId, Started) {
      var existing :| existing in db.sessions
        && db.sessions[existing].studentId == studentId && db.sessions[existing].status == Started;
      return Ok(ToResponse(existing, db.sessions[existing], db.exams));
    }
    if examId.value !in db.exams {
      return Err(NotFound);
    }
    var id := db.nextSessionId;
    var session := Session(examId.value, studentId, Started, now, None);
    db.sessions := db.sessions[id := session];
    db.nextSessionId := db.nextSessionId + 1;
    r := Ok(ToResponse(id, session, db.exams));
  }

  // ---------------------------------------------------------------- questions page

  /** `Math.min(size, 20)`. */
  function PageSize(size: int): (n: int)
    ensures n <= MAX_PAGE_SIZE && n <= size
    ensures n == size || n == MAX_PAGE_SIZE
  {
    if size < MAX_PAGE_SIZE then size else MAX_PAGE_SIZE
  }

  /** The index stored for the question in this session, or none. */
  function SelectedOption(responses: map<ResponseKey, Response>, sessionId: SessionId, questionId: QuestionId)
    : (o: Option<int>)
    ensures (sessionId, questionId) !in responses ==> o == None
    ensures (sessionId, questionId) in responses ==> o == responses[(sessionId, questionId)].chosenIndex
  {
    if (sessionId, questionId) in responses then responses[(sessionId, questionId)].chosenIndex else None
  }

  /** The question as shown: id, text and options, and this session's stored choice; never the correct index. */
  function ToView(q: Question, responses: map<ResponseKey, Response>, sessionId: SessionId): (v: QuestionView)
    ensures v.id == q.id && v.content == q.content && v.options == q.options
    ensures v.selectedOption == SelectedOption(responses, sessionId, q.id)
  {
    QuestionView(q.id, q.content, q.options, SelectedOption(responses, sessionId, q.id))
  }

  /**
   * `getExamQuestionsPage`: NotFound for an unknown session, Conflict unless
   * it is in progress; a negative page or a clamped size below one is
   * rejected by the page request. Otherwise the page-th slice (of at most 20)
   * of the exam's questions, each merged with the student's stored choice.
   */
  function QuestionsPage(sessions: map<SessionId, Session>, questions: seq<Question>,
                         responses: map<ResponseKey, Response>, sessionId: SessionId,
                         page: int, size: int): (r: Result<seq<QuestionView>>)
    ensures sessionId !in sessions ==> r == Err(NotFound)
    ensures sessionId in sessions && sessions[sessionId].status != Started ==> r == Err(Conflict)
    ensures sessionId in sessions && sessions[sessionId].status == Started && (page < 0 || size < 1) ==>
      r == Err(InvalidArgument)
    ensures r.Ok? <==> sessionId in sessions && sessions[sessionId].status == Started && page >= 0 && size >= 1
    ensures r.Ok? ==>
      var all := QuestionsOfExam(questions, sessions[sessionId].examId);
      var first := page * PageSize(size);
      && |r.value| <= MAX_PAGE_SIZE && |r.value| <= size
      && |r.value| == (if first >= |all| then 0 else if |all| - first < PageSize(size) then |all| - first else PageSize(size))
      && forall i :: 0 <= i < |r.value| ==>
           first + i < |all|
           && r.value[i].id == all[first + i].id
           && r.value[i].content == all[first + i].content
           && r.value[i].options == all[first + i].options
           && r.value[i].selectedOption == SelectedOption(responses, sessionId, all[first + i].id)
  {
    if sessionId !in sessions then Err(NotFound)
    else if sessions[sessionId].status != Started then Err(Conflict)
    else
      var n := PageSize(size);
      if page < 0 || n < 1 then Err(InvalidArgument)
      else
        var all := QuestionsOfExam(questions, sessions[sessionId].examId);
        var first := page * n;
        var last := if first + n < |all| then first + n else |all|;
        var slice := if first < |all| then all[first..last] else [];
        Ok(seq(|slice|, i requires 0 <= i < |slice| => ToView(slice[i], responses, sessionId)))
  }

  // ---------------------------------------------------------------- answers

  /** The question exists and belongs to the session's exam. */
  predicate AnswerInExam(questions: seq<Question>, examId: ExamId, a: Answer)
    ensures AnswerInExam(questions, examId, a) ==>
      exists q :: q in questions && q.id == a.questionId && q.examId == examId
    ensures (forall q :: q in questions ==> q.id != a.questionId) ==> !AnswerInExam(questions, examId, a)
  {
    var q := FindQuestion(questions, a.questionId);
    q.Some? && q.value.examId == examId
  }

  /** With unique question ids, an answer is accepted exactly when a stored question of the exam has its id. */
  lemma AnswerInExamExactly(questions: seq<Question>, examId: ExamId, a: Answer)
    requires QuestionIdsUnique(questions)
    ensures AnswerInExam(questions, examId, a) <==>
      exists i :: 0 <= i < |questions| && questions[i].id == a.questionId && questions[i].examId == examId
  {
    if i :| 0 <= i < |questions| && questions[i].id == a.questionId && questions[i].examId == examId {
      FindQuestionUnique(questions, i);
    }
  }

  /** The row an answer leaves: its index, the correctness graded against the question, the time. */
  function Upserted(q: Question, a: Answer, now: Timestamp): (r: Response)
    ensures r.chosenIndex == Some(a.selectedOptionIndex) && r.submittedAt == now
    ensures r.isCorrect <==> q.correctIndex == Some(a.selectedOptionIndex)
  {
    Response(Some(a.selectedOptionIndex), AnsweredCorrectly(Some(a.selectedOptionIndex), q.correctIndex), now)
  }

  predicate AllKnown(questions: seq<Question>, answers: seq<Answer>) {
    forall i :: 0 <= i < |answers| ==> FindQuestion(questions, answers[i].questionId).Some?
  }

  /** The responses after upserting the answers one after the other. */
  function ApplyAnswers(responses: map<ResponseKey, Response>, sessionId: SessionId, answers: seq<Answer>,
                        questions: seq<Question>, now: Timestamp): (r: map<ResponseKey, Response>)
    requires AllKnown(questions, answers)
    ensures responses.Keys <= r.Keys
    decreases |answers|
  {
    if answers == [] then responses
    else
      var a := answers[|answers| - 1];
      ApplyAnswers(responses, sessionId, answers[..|answers| - 1], questions, now)
        [(sessionId, a.questionId) := Upserted(FindQuestion(questions, a.questionId).value, a, now)]
  }

  /** The last answer given for a question decides its single stored response. */
  lemma {:induction false} LastAnswerWins(responses: map<ResponseKey, Response>, sessionId: SessionId,
                                          answers: seq<Answer>, questions: seq<Question>, now: Timestamp, i: nat)
    requires AllKnown(questions, answers)
    requires i < |answers|
    requires forall j :: i < j < |answers| ==> answers[j].questionId != answers[i].questionId
    ensures var after := ApplyAnswers(responses, sessionId, answers, questions, now);
      var key := (sessionId, answers[i].questionId);
      key in after && after[key] == Upserted(FindQuestion(questions, answers[i].questionId).value, answers[i], now)
      && SelectedOption(after, sessionId, answers[i].questionId) == Some(answers[i].selectedOptionIndex)
  {
    if i < |answers| - 1 {
      var prefix := answers[..|answers| - 1];
      assert AllKnown(questions, prefix);
      LastAnswerWins(responses, sessionId, prefix, questions, now, i);
    }
  }

  /** Responses of other sessions, or of questions not answered in the call, are untouched. */
  lemma {:induction false} OtherResponsesUntouched(responses: map<ResponseKey, Response>, sessionId: SessionId,
                                                   answers: seq<Answer>, questions: seq<Question>,
                                                   now: Timestamp, k: ResponseKey)
    requires AllKnown(questions, answers)
    requires forall j :: 0 <= j < |answers| ==> (sessionId, answers[j].questionId) != k
    ensures var after := ApplyAnswers(responses, sessionId, answers, questions, now);
      (k in after <==> k in responses) && (k in responses ==> after[k] == responses[k])
  {
    if answers != [] {
      var prefix := answers[..|answers| - 1];
      assert AllKnown(questions, prefix);
      OtherResponsesUntouched(responses, sessionId, prefix, questions, now, k);
    }
  }

  /** Upserting keeps every row it did not write and adds exactly one row per answered question. */
  lemma {:induction false} ApplyAnswersKeys(responses: map<ResponseKey, Response>, sessionId: SessionId,
                                            answers: seq<Answer>, questions: seq<Question>, now: Timestamp)
    requires AllKnown(questions, answers)
    ensures ApplyAnswers(responses, sessionId, answers, questions, now).Keys
      == responses.Keys + set j | 0 <= j < |answers| :: (sessionId, answers[j].questionId)
  {
    if answers != [] {
      var prefix := answers[..|answers| - 1];
      assert AllKnown(questions, prefix);
      ApplyAnswersKeys(responses, sessionId, prefix, questions, now);
      var n := |answers| - 1;
      assert (set j | 0 <= j < |answers| :: (sessionId, answers[j].questionId))
          == (set j | 0 <= j < |prefix| :: (sessionId, prefix[j].questionId)) + {(sessionId, answers[n].questionId)};
    }
  }

  /** Upserting valid answers of a session in progress keeps the response table consistent. */
  lemma {:induction false} ApplyAnswersConsistent(responses: map<ResponseKey, Response>,
                                                  sessions: map<SessionId, Session>, sessionId: SessionId,
                                                  answers: seq<Answer>, questions: seq<Question>, now: Timestamp)
    requires ResponsesConsistent(responses, sessions, questions)
    requires sessionId in sessions
    requires forall j :: 0 <= j < |answers| ==>
      ValidAnswer(answers[j]) && AnswerInExam(questions, sessions[sessionId].examId, answers[j])
    ensures AllKnown(questions, answers)
    ensures ResponsesConsistent(ApplyAnswers(responses, sessionId, answers, questions, now), sessions, questions)
  {
    if answers != [] {
      var prefix := answers[..|answers| - 1];
      ApplyAnswersConsistent(responses, sessions, sessionId, prefix, questions, now);
    }
  }

  /**
   * `saveAnswers`: NotFound for an unknown session, Conflict unless it is in
   * progress, BadRequest when an answer names an unknown question or one of
   * another exam; any failure leaves every response as it was. Otherwise each
   * answer is upserted in order.
   */
  method SaveAnswers(db: Database, sessionId: SessionId, answers: seq<Answer>, now: Timestamp)
    returns (r: Result<()>)
    requires db.Valid()
    requires forall j :: 0 <= j < |answers| ==> ValidAnswer(answers[j])
    modifies db
    ensures db.Valid()
    ensures sessionId !in old(db.sessions) ==> r == Err(NotFound) && unchanged(db)
    ensures sessionId in old(db.sessions) && old(db.sessions)[sessionId].status != Started ==>
      r == Err(Conflict) && unchanged(db)
    ensures (&& sessionId in old(db.sessions) && old(db.sessions)[sessionId].status == Started
             && !forall j :: 0 <= j < |answers| ==>
                   AnswerInExam(old(db.questions), old(db.sessions)[sessionId].examId, answers[j])) ==>
      r == Err(BadRequest) && unchanged(db)
    ensures r.Ok? ==>
      && AllKnown(db.questions, answers)
      && db.responses == ApplyAnswers(old(db.responses), sessionId, answers, db.questions, now)
      && db.students == old(db.students) && db.exams == old(db.exams) && db.questions == old(db.questions)
      && db.sessions == old(db.sessions) && db.nextSessionId == old(db.nextSessionId)
    ensures (&& sessionId in old(db.sessions) && old(db.sessions)[sessionId].status == Started
             && forall j :: 0 <= j < |answers| ==>
                  AnswerInExam(old(db.questions), old(db.sessions)[sessionId].examId, answers[j])) ==> r.Ok?
  {
    if sessionId !in db.sessions {
      return Err(NotFound);
    }
    if db.sessions[sessionId].status != Started {
      return Err(Conflict);
    }
    var examId := db.sessions[sessionId].examId;
    var staged := db.responses;
    var i := 0;
    while i < |answers|
      invariant 0 <= i <= |answers|
      invariant forall j :: 0 <= j < i ==> AnswerInExam(db.questions, examId, answers[j])
      invariant AllKnown(db.questions, answers[..i])
      invariant staged == ApplyAnswers(db.responses, sessionId, answers[..i], db.questions, now)
    {
      var question := FindQuestion(db.questions, answers[i].questionId);
      if question.None? {
        return Err(BadRequest);
      }
      if question.value.examId != examId {
        return Err(BadRequest);
      }
      var chosen := answers[i].selectedOptionIndex;
      var isCorrect := question.value.correctIndex.Some? && question.value.correctIndex.value == chosen;
      staged := staged[(sessionId, answers[i].questionId) := Response(Some(chosen), isCorrect, now)];
      assert answers[..i + 1][..i] == answers[..i];
      i := i + 1;
    }
    assert answers[..|answers|] == answers;
    ApplyAnswersConsistent(db.responses, db.sessions, sessionId, answers, db.questions, now);
    db.responses := staged;
    r := Ok(());
  }

  // ---------------------------------------------------------------- submit

  /** The session's responses with a chosen index (`countAnsweredBySessionId`). */
  function AnsweredKeys(responses: map<ResponseKey, Response>, sessionId: SessionId): (ks: set<ResponseKey>)
    ensures forall k :: k in ks <==> k in responses && k.0 == sessionId && responses[k].chosenIndex.Some?
  {
    set k | k in responses && k.0 == sessionId && responses[k].chosenIndex.Some?
  }

  /**
   * Every saved response carries a chosen index, so in a consistent store the
   * answered count is the number of the session's stored responses.
   */
  lemma AllSavedAreAnswered(responses: map<ResponseKey, Response>, sessions: map<SessionId, Session>,
                            questions: seq<Question>, sessionId: SessionId)
    requires ResponsesConsistent(responses, sessions, questions)
    ensures AnsweredKeys(responses, sessionId) == AssessmentService.SessionKeys(responses, sessionId)
  {
  }

  /**
   * `submitExam`: NotFound for an unknown session, Conflict unless it is in
   * progress; otherwise the session becomes SUBMITTED at `now`, and the
   * summary reports the answered responses, the exam's question count and
   * their difference.
   */
  method SubmitExam(db: Database, sessionId: SessionId, now: Timestamp) returns (r: Result<SubmitSummary>)
    requires db.Valid()
    modifies db
    ensures db.Valid()
    ensures SessionsEvolve(old(db.sessions), db.sessions)
    ensures sessionId !in old(db.sessions) ==> r == Err(NotFound) && unchanged(db)
    ensures sessionId in old(db.sessions) && old(db.sessions)[sessionId].status != Started ==>
      r == Err(Conflict) && unchanged(db)
    ensures sessionId in old(db.sessions) && old(db.sessions)[sessionId].status == Started ==>
      var s := old(db.sessions)[sessionId];
      var answered := |AnsweredKeys(db.responses, sessionId)|;
      var total := |QuestionsOfExam(db.questions, s.examId)|;
      && db.sessions == old(db.sessions)[sessionId := s.(status := Submitted, submitTime := Some(now))]
      && r == Ok(SubmitSummary(answered, total, total - answered))
      && r.value.unansweredCount >= 0
      && db.students == old(db.students) && db.exams == old(db.exams) && db.questions == old(db.questions)
      && db.responses == old(db.responses) && db.nextSessionId == old(db.nextSessionId)
  {
    if sessionId !in db.sessions {
      return Err(NotFound);
    }
    var s := db.sessions[sessionId];
    if s.status != Started {
      return Err(Conflict);
    }
    db.sessions := db.sessions[sessionId := s.(status := Submitted, submitTime := Some(now))];
    var answered := |AnsweredKeys(db.responses, sessionId)|;
    var total := |QuestionsOfExam(db.questions, s.examId)|;
    AnsweredWithinTotal(db.responses, db.sessions, db.questions, sessionId);
    r := Ok(SubmitSummary(answered, total, total - answered));
  }

  /** The question ids of a table slice. */
  function IdsOf(qs: seq<Question>): set<QuestionId> {
    set q | q in qs :: q.id
  }

  lemma {:induction false} IdsAtMostLength(qs: seq<Question>)
    ensures |IdsOf(qs)| <= |qs|
  {
    if qs != [] {
      IdsAtMostLength(qs[1..]);
      assert IdsOf(qs) == IdsOf(qs[1..]) + {qs[0].id} by {
        forall q | q in qs ensures q == qs[0] || q in qs[1..] {
          var i :| 0 <= i < |qs| && qs[i] == q;
          if i > 0 { assert qs[1..][i - 1] == q; }
        }
      }
    }
  }

  /** Keys of one session are determined by their question id. */
  lemma {:induction false} QuestionIdsOfSessionKeys(keys: set<ResponseKey>, sessionId: SessionId)
    requires forall k :: k in keys ==> k.0 == sessionId
    ensures |set k | k in keys :: k.1| == |keys|
    decreases |keys|
  {
    if keys != {} {
      var k :| k in keys;
      var rest := keys - {k};
      QuestionIdsOfSessionKeys(rest, sessionId);
      assert (set x | x in keys :: x.1) == (set x | x in rest :: x.1) + {k.1};
      assert k.1 !in (set x | x in rest :: x.1);
    }
  }

  /** The answered responses of a session name questions of the session's exam. */
  lemma AnsweredIdsInExam(responses: map<ResponseKey, Response>, sessions: map<SessionId, Session>,
                          questions: seq<Question>, sessionId: SessionId)
    requires ResponsesConsistent(responses, sessions, questions)
    requires sessionId in sessions
    ensures (set k | k in AnsweredKeys(responses, sessionId) :: k.1)
         <= IdsOf(QuestionsOfExam(questions, sessions[sessionId].examId))
  {
    var examQuestions := QuestionsOfExam(questions, sessions[sessionId].examId);
    forall k | k in AnsweredKeys(responses, sessionId) ensures k.1 in IdsOf(examQuestions) {
      assert k in responses;
      var q := FindQuestion(questions, k.1).value;
      assert q in questions && q.id == k.1 && q.examId == sessions[sessionId].examId;
      assert q in examQuestions;
    }
  }

  /**
   * Under the store's invariant a session never has more answered responses
   * than its exam has questions, so the reported unanswered count is never
   * negative.
   */
  lemma AnsweredWithinTotal(responses: map<ResponseKey, Response>, sessions: map<SessionId, Session>,
                            questions: seq<Question>, sessionId: SessionId)
    requires ResponsesConsistent(responses, sessions, questions)
    requires sessionId in sessions
    ensures |AnsweredKeys(responses, sessionId)| <= |QuestionsOfExam(questions, sessions[sessionId].examId)|
  {
    var answered := AnsweredKeys(responses, sessionId);
    var examQuestions := QuestionsOfExam(questions, sessions[sessionId].examId);
    QuestionIdsOfSessionKeys(answered, sessionId);
    AnsweredIdsInExam(responses, sessions, questions, sessionId);
    SubsetAtMost(set k | k in answered :: k.1, IdsOf(examQuestions));
    IdsAtMostLength(examQuestions);
  }

  // ---------------------------------------------------------------- finish

  function Digit(d: nat): (c: char)
    requires d < 10
    ensures '0' <= c <= '9'
  {
    ('0' as int + d) as char
  }

  /** The decimal spelling of a session id. */
  function DecimalDigits(n: nat): (s: string)
    ensures 1 <= |s| && forall i :: 0 <= i < |s| ==> '0' <= s[i] <= '9'
    ensures n >= 10 ==> |s| >= 2
  {
    if n < 10 then [Digit(n)] else DecimalDigits(n / 10) + [Digit(n % 10)]
  }

  lemma {:induction false} DecimalDigitsInjective(a: nat, b: nat)
    requires DecimalDigits(a) == DecimalDigits(b)
    ensures a == b
  {
    var sa, sb := DecimalDigits(a), DecimalDigits(b);
    if a >= 10 && b >= 10 {
      assert sa[..|sa| - 1] == DecimalDigits(a / 10);
      assert sb[..|sb| - 1] == DecimalDigits(b / 10);
      DecimalDigitsInjective(a / 10, b / 10);
      assert Digit(a % 10) == sa[|sa| - 1] == sb[|sb| - 1] == Digit(b % 10);
    }
  }

  /** The report locator returned by `finishExam`. */
  function ReportUrl(sessionId: SessionId): (u: string)
    ensures |u| == |REPORT_PREFIX| + |DecimalDigits(sessionId)| + |REPORT_SUFFIX|
    ensures u[..|REPORT_PREFIX|] == REPORT_PREFIX && u[|u| - |REPORT_SUFFIX|..] == REPORT_SUFFIX
    ensures u[|REPORT_PREFIX|..|u| - |REPORT_SUFFIX|] == DecimalDigits(sessionId)
  {
    REPORT_PREFIX + DecimalDigits(sessionId) + REPORT_SUFFIX
  }

  /** Distinct sessions get distinct report locators. */
  lemma ReportUrlInjective(a: SessionId, b: SessionId)
    requires ReportUrl(a) == ReportUrl(b)
    ensures a == b
  {
    DecimalDigitsInjective(a, b);
  }

  /**
   * The report guard: NotFound for an unknown session, Conflict unless the
   * session is COMPLETED; otherwise the student whose report is rendered.
   */
  function ReportRequest(sessions: map<SessionId, Session>, sessionId: SessionId): (r: Result<StudentId>)
    ensures r.Ok? <==> sessionId in sessions && sessions[sessionId].status == Completed
    ensures r.Ok? ==> r.value == sessions[sessionId].studentId
    ensures sessionId !in sessions ==> r == Err(NotFound)
    ensures sessionId in sessions && sessions[sessionId].status != Completed ==> r == Err(Conflict)
  {
    if sessionId !in sessions then Err(NotFound)
    else if sessions[sessionId].status != Completed then Err(Conflict)
    else Ok(sessions[sessionId].studentId)
  }

  /**
   * `finishExam`: NotFound for an unknown session, Conflict unless it is
   * SUBMITTED; otherwise it becomes COMPLETED, its report becomes available,
   * and the report locator is returned.
   */
  method FinishExam(db: Database, sessionId: SessionId) returns (r: Result<string>)
    requires db.Valid()
    modifies db
    ensures db.Valid()
    ensures SessionsEvolve(old(db.sessions), db.sessions)
    ensures sessionId !in old(db.sessions) ==> r == Err(NotFound) && unchanged(db)
    ensures sessionId in old(db.sessions) && old(db.sessions)[sessionId].status != Submitted ==>
      r == Err(Conflict) && unchanged(db)
    ensures sessionId in old(db.sessions) && old(db.sessions)[sessionId].status == Submitted ==>
      && db.sessions == Finished(old(db.sessions), sessionId)
      && r == Ok(ReportUrl(sessionId))
      && ReportRequest(db.sessions, sessionId) == Ok(old(db.sessions)[sessionId].studentId)
      && db.students == old(db.students) && db.exams == old(db.exams) && db.questions == old(db.questions)
      && db.responses == old(db.responses) && db.nextSessionId == old(db.nextSessionId)
  {
    if sessionId !in db.sessions {
      return Err(NotFound);
    }
    var s := db.sessions[sessionId];
    if s.status != Submitted {
      return Err(Conflict);
    }
    db.sessions := Finished(db.sessions, sessionId);
    r := Ok(ReportUrl(sessionId));
  }

  /** A second finish of the same session fails with Conflict. */
  method FinishTwice(db: Database, sessionId: SessionId) returns (first: Result<string>, second: Result<string>)
    requires db.Valid()
    requires sessionId in db.sessions && db.sessions[sessionId].status == Submitted
    modifies db
    ensures first == Ok(ReportUrl(sessionId)) && second == Err(Conflict)
  {
    first := FinishExam(db, sessionId);
    second := FinishExam(db, sessionId);
  }

  /** A second submit of the same session fails with Conflict. */
  method SubmitTwice(db: Database, sessionId: SessionId, now: Timestamp, later: Timestamp)
    returns (first: Result<SubmitSummary>, second: Result<SubmitSummary>)
    requires db.Valid()
    requires sessionId in db.sessions && db.sessions[sessionId].status == Started
    modifies db
    ensures first.Ok? && second == Err(Conflict)
  {
    first := SubmitExam(db, sessionId, now);
    second := SubmitExam(db, sessionId, later);
  }

  // ---------------------------------------------------------------- result

  /**
   * `getExamResult`: NotFound for an unknown session, otherwise the score
   * computed from the session's stored responses, in any status.
   */
  method GetExamResult(db: Database, sessionId: SessionId, now: Timestamp) returns (r: Result<ExamResult>)
    ensures sessionId !in db.sessions ==> r == Err(NotFound)
    ensures sessionId in db.sessions ==>
      var mc, mt := AssessmentService.SubjectCorrect(db.responses, db.questions, sessionId, Math),
                    AssessmentService.SubjectTotal(db.responses, db.questions, sessionId, Math);
      var ec, et := AssessmentService.SubjectCorrect(db.responses, db.questions, sessionId, English),
                    AssessmentService.SubjectTotal(db.responses, db.questions, sessionId, English);
      r == Ok(NewExamResult(mc, mt, Percentage(mc, mt), ec, et, Percentage(ec, et), now))
  {
    if sessionId !in db.sessions {
      return Err(NotFound);
    }
    var result := AssessmentService.CalculateResult(db.responses, db.questions, sessionId, now);
    r := Ok(result);
  }
}
