/**
 * Entities of the exam back end: students, exams, questions, exam sessions
 * and the responses a student records within a session, together with the
 * error taxonomy the services report.
 */
module Domain {

  // Identifiers are abstract: the repository mixes Long and UUID keys.
  type StudentId = nat
  type ExamId = nat
  type QuestionId = nat
  type SessionId = nat

  /** Seconds on the server clock; the clock itself is a parameter of every operation. */
  type Timestamp = int

  datatype Option<+T> = None | Some(value: T)

  datatype Error = NotFound | Conflict | BadRequest | InvalidArgument

  datatype Result<+T> = Ok(value: T) | Err(error: Error)

  /** The subject tag of a question; `OtherSubject` stands for an untagged question. */
  datatype Subject = Math | English | OtherSubject

  datatype Status = Started | Submitted | Completed | Expired

  datatype Student = Student(
    firstname: string,
    lastname: string,
    mobileNumber: string,
    createdAt: Timestamp)

  datatype Exam = Exam(title: string, timeLimitSeconds: int)

  datatype Question = Question(
    id: QuestionId,
    examId: ExamId,
    subject: Subject,
    content: string,
    options: seq<string>,
    correctIndex: Option<int>)

  datatype Session = Session(
    examId: ExamId,
    studentId: StudentId,
    status: Status,
    startTime: Timestamp,
    submitTime: Option<Timestamp>)

  /** A response row; the pair (session, question) is its key in the store. */
  datatype Response = Response(chosenIndex: Option<int>, isCorrect: bool, submittedAt: Timestamp)

  type ResponseKey = (SessionId, QuestionId)

  /** One entry of the answers list sent by the client. */
  datatype Answer = Answer(questionId: QuestionId, selectedOptionIndex: int)

  /** Bean validation on an answer: an option index from 0 to 3. */
  predicate ValidAnswer(a: Answer) {
    0 <= a.selectedOptionIndex <= 3
  }

  /** Bean validation on an authored question: 2 to 6 options and a correct index from 0 to 5. */
  predicate WellFormedQuestion(q: Question) {
    2 <= |q.options| <= 6 && q.correctIndex.Some? && 0 <= q.correctIndex.value <= 5
  }

  /**
   * A response is correct when an option was chosen and it equals the
   * question's correct index (a missing correct index never matches).
   */
  predicate AnsweredCorrectly(chosen: Option<int>, correct: Option<int>)
    ensures AnsweredCorrectly(chosen, correct) <==> chosen.Some? && chosen == correct
  {
    chosen.Some? && correct.Some? && chosen.value == correct.value
  }

  /**
   * The only status changes a session may undergo: submit, expire, finish.
   * No transition returns to STARTED, stays put, or leaves COMPLETED or EXPIRED.
   */
  predicate Transition(from: Status, to: Status)
    ensures Transition(from, to) ==> from != to && to != Started
    ensures Transition(from, to) ==> from != Completed && from != Expired
    ensures Transition(from, to) && to == Completed ==> from == Submitted
  {
    || (from == Started && to == Submitted)
    || (from == Started && to == Expired)
    || (from == Submitted && to == Completed)
  }

  /** A status either stays the same or takes one allowed transition. */
  predicate StepOrStay(from: Status, to: Status) {
    from == to || Transition(from, to)
  }

  /** The first question of the table with the given id (`findById`). */
  function FindQuestion(questions: seq<Question>, id: QuestionId): (r: Option<Question>)
    ensures r.Some? <==> exists i :: 0 <= i < |questions| && questions[i].id == id
    ensures r.Some? ==> r.value in questions && r.value.id == id
  {
    if questions == [] then None
    else if questions[0].id == id then Some(questions[0])
    else FindQuestion(questions[1..], id)
  }

  /** The table positions of one exam's questions, in increasing order. */
  function ExamIndices(questions: seq<Question>, examId: ExamId): (idx: seq<nat>)
    ensures forall k :: 0 <= k < |idx| ==> idx[k] < |questions| && questions[idx[k]].examId == examId
    ensures forall k, l :: 0 <= k < l < |idx| ==> idx[k] < idx[l]
    ensures forall i :: 0 <= i < |questions| && questions[i].examId == examId ==> i in idx
    decreases |questions|
  {
    if questions == [] then []
    else
      var n := |questions| - 1;
      var init := ExamIndices(questions[..n], examId);
      if questions[n].examId == examId then init + [n] else init
  }

  /**
   * The questions of one exam (`findByExamId`, `countByExamId`): the table's
   * rows at `ExamIndices`, so every question of the exam once, in table order.
   */
  function QuestionsOfExam(questions: seq<Question>, examId: ExamId): (r: seq<Question>)
    ensures |r| <= |questions|
    ensures forall q :: q in r <==> q in questions && q.examId == examId
    decreases |questions|
  {
    if questions == [] then []
    else
      var n := |questions| - 1;
      var init := QuestionsOfExam(questions[..n], examId);
      assert forall q :: q in questions <==> q in questions[..n] || q == questions[n] by {
        assert questions == questions[..n] + [questions[n]];
      }
      if questions[n].examId == examId then init + [questions[n]] else init
  }

  /** The exam's questions are the table's rows at the exam's positions, in increasing position order. */
  lemma {:induction false} QuestionsOfExamInOrder(questions: seq<Question>, examId: ExamId)
    ensures var r, idx := QuestionsOfExam(questions, examId), ExamIndices(questions, examId);
      |r| == |idx| && forall k :: 0 <= k < |r| ==> r[k] == questions[idx[k]]
    decreases |questions|
  {
    if questions != [] {
      var n := |questions| - 1;
      QuestionsOfExamInOrder(questions[..n], examId);
    }
  }

  /** Table positions holding a question of the exam. */
  function MatchingIndices(questions: seq<Question>, examId: ExamId): set<int> {
    set i | 0 <= i < |questions| && questions[i].examId == examId
  }

  /** `countByExamId`: the exam's question list has one entry per matching table row. */
  lemma {:induction false} QuestionsOfExamCount(questions: seq<Question>, examId: ExamId)
    ensures |QuestionsOfExam(questions, examId)| == |MatchingIndices(questions, examId)|
    decreases |questions|
  {
    if questions != [] {
      var n := |questions| - 1;
      var init := questions[..n];
      QuestionsOfExamCount(init, examId);
      var before := MatchingIndices(init, examId);
      var step := if questions[n].examId == examId then {n} else {};
      MatchingIndicesStep(questions, examId);
      assert n !in before;
      assert |before + step| == |before| + |step|;
    }
  }

  lemma MatchingIndicesStep(questions: seq<Question>, examId: ExamId)
    requires questions != []
    ensures var n := |questions| - 1;
      MatchingIndices(questions, examId)
        == MatchingIndices(questions[..n], examId) + (if questions[n].examId == examId then {n} else {})
  {
    var n := |questions| - 1;
    var init := questions[..n];
    forall i | 0 <= i < n ensures questions[i] == init[i] { }
  }

  predicate QuestionIdsUnique(questions: seq<Question>) {
    forall i, j :: 0 <= i < j < |questions| ==> questions[i].id != questions[j].id
  }

  /** With unique ids, looking up a stored question's id finds that question. */
  lemma {:induction false} FindQuestionUnique(questions: seq<Question>, i: nat)
    requires QuestionIdsUnique(questions) && i < |questions|
    ensures FindQuestion(questions, questions[i].id) == Some(questions[i])
    decreases i
  {
    if i > 0 {
      assert questions[0].id != questions[i].id;
      assert questions[1..][i - 1] == questions[i];
      FindQuestionUnique(questions[1..], i - 1);
    }
  }

  /** A subset is no larger than its superset (used for the count bounds). */
  lemma SubsetAtMost<T>(a: set<T>, b: set<T>)
    requires a <= b
    ensures |a| <= |b|
  {
    assert b == a + (b - a);
  }
}
