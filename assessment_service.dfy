/**
 * Scoring of one exam session: a read-only pass over the session's stored
 * responses that counts, per subject, the responses and the correct ones,
 * and derives the percentages.
 */
module AssessmentService {
  import opened Domain
  import opened Scoring

  /** The responses stored for a session (`findBySessionId`). */
  function SessionKeys(responses: map<ResponseKey, Response>, sessionId: SessionId): (ks: set<ResponseKey>)
    ensures forall k :: k in ks <==> k in responses && k.0 == sessionId
  {
    set k | k in responses && k.0 == sessionId
  }

  /** The response refers to a known question of the given subject. */
  predicate CountsFor(questions: seq<Question>, k: ResponseKey, subject: Subject) {
    var q := FindQuestion(questions, k.1);
    q.Some? && q.value.subject == subject
  }

  /** The response's chosen index equals its question's correct index; the stored flag plays no part. */
  predicate ScoredCorrect(responses: map<ResponseKey, Response>, questions: seq<Question>, k: ResponseKey) {
    var q := FindQuestion(questions, k.1);
    k in responses && q.Some? && AnsweredCorrectly(responses[k].chosenIndex, q.value.correctIndex)
  }

  /** Those of `keys` that add one to the subject's total. */
  function SubjectKeys(keys: set<ResponseKey>, questions: seq<Question>, subject: Subject): set<ResponseKey> {
    set k | k in keys && CountsFor(questions, k, subject)
  }

  /** Those of `keys` that add one to the subject's correct count. */
  function CorrectKeys(keys: set<ResponseKey>, responses: map<ResponseKey, Response>,
                       questions: seq<Question>, subject: Subject): set<ResponseKey> {
    set k | k in keys && CountsFor(questions, k, subject) && ScoredCorrect(responses, questions, k)
  }

  /** The subject's total: the session's responses whose question has that subject. */
  function SubjectTotal(responses: map<ResponseKey, Response>, questions: seq<Question>,
                        sessionId: SessionId, subject: Subject): nat {
    |SubjectKeys(SessionKeys(responses, sessionId), questions, subject)|
  }

  /** The subject's correct count: those of them whose chosen index is the correct one. */
  function SubjectCorrect(responses: map<ResponseKey, Response>, questions: seq<Question>,
                          sessionId: SessionId, subject: Subject): nat {
    |CorrectKeys(SessionKeys(responses, sessionId), responses, questions, subject)|
  }

  lemma TallyStep(done: set<ResponseKey>, k: ResponseKey, responses: map<ResponseKey, Response>,
                  questions: seq<Question>, subject: Subject)
    requires k !in done
    ensures |SubjectKeys(done + {k}, questions, subject)|
      == |SubjectKeys(done, questions, subject)| + (if CountsFor(questions, k, subject) then 1 else 0)
    ensures |CorrectKeys(done + {k}, responses, questions, subject)|
      == |CorrectKeys(done, responses, questions, subject)|
         + (if CountsFor(questions, k, subject) && ScoredCorrect(responses, questions, k) then 1 else 0)
  {
    if CountsFor(questions, k, subject) {
      assert SubjectKeys(done + {k}, questions, subject) == SubjectKeys(done, questions, subject) + {k};
    } else {
      assert SubjectKeys(done + {k}, questions, subject) == SubjectKeys(done, questions, subject);
    }
    if CountsFor(questions, k, subject) && ScoredCorrect(responses, questions, k) {
      assert CorrectKeys(done + {k}, responses, questions, subject)
          == CorrectKeys(done, responses, questions, subject) + {k};
    } else {
      assert CorrectKeys(done + {k}, responses, questions, subject)
          == CorrectKeys(done, responses, questions, subject);
    }
  }

  /**
   * `calculateResult`: visits each stored response of the session once; a
   * response whose question is unknown, or whose subject is neither math nor
   * English, is skipped. The result is determined by the stored responses and
   * questions, apart from the completion time.
   */
  method CalculateResult(responses: map<ResponseKey, Response>, questions: seq<Question>,
                         sessionId: SessionId, completedAt: Timestamp) returns (r: ExamResult)
    ensures var mc, mt := SubjectCorrect(responses, questions, sessionId, Math),
                          SubjectTotal(responses, questions, sessionId, Math);
            var ec, et := SubjectCorrect(responses, questions, sessionId, English),
                          SubjectTotal(responses, questions, sessionId, English);
      r == NewExamResult(mc, mt, Percentage(mc, mt), ec, et, Percentage(ec, et), completedAt)
  {
    var pending := SessionKeys(responses, sessionId);
    ghost var done: set<ResponseKey> := {};
    var mathTotal, mathCorrect := 0, 0;
    var englishTotal, englishCorrect := 0, 0;
    while pending != {}
      invariant pending !! done && pending + done == SessionKeys(responses, sessionId)
      invariant mathTotal == |SubjectKeys(done, questions, Math)|
      invariant mathCorrect == |CorrectKeys(done, responses, questions, Math)|
      invariant englishTotal == |SubjectKeys(done, questions, English)|
      invariant englishCorrect == |CorrectKeys(done, responses, questions, English)|
      decreases |pending|
    {
      var k :| k in pending;
      TallyStep(done, k, responses, questions, Math);
      TallyStep(done, k, responses, questions, English);
      var question := FindQuestion(questions, k.1);
      if question.Some? {
        var isCorrect := AnsweredCorrectly(responses[k].chosenIndex, question.value.correctIndex);
        if question.value.subject == Math {
          mathTotal := mathTotal + 1;
          if isCorrect {
            mathCorrect := mathCorrect + 1;
          }
        } else if question.value.subject == English {
          englishTotal := englishTotal + 1;
          if isCorrect {
            englishCorrect := englishCorrect + 1;
          }
        }
      }
      pending := pending - {k};
      done := done + {k};
    }
    r := NewExamResult(
      mathCorrect, mathTotal, Percentage(mathCorrect, mathTotal),
      englishCorrect, englishTotal, Percentage(englishCorrect, englishTotal),
      completedAt);
  }

  /** Two calculations over unchanged responses agree on every count and percentage. */
  method RecalculationAgrees(responses: map<ResponseKey, Response>, questions: seq<Question>,
                             sessionId: SessionId, firstAt: Timestamp, secondAt: Timestamp)
    returns (first: ExamResult, second: ExamResult)
    ensures first.completedAt == firstAt && second.completedAt == secondAt
    ensures first.(completedAt := secondAt) == second
  {
    first := CalculateResult(responses, questions, sessionId, firstAt);
    second := CalculateResult(responses, questions, sessionId, secondAt);
  }

  /** For each subject the correct count never exceeds the total, and the percentage lies in [0, 100]. */
  lemma CorrectWithinTotal(responses: map<ResponseKey, Response>, questions: seq<Question>,
                           sessionId: SessionId, subject: Subject)
    ensures SubjectCorrect(responses, questions, sessionId, subject)
         <= SubjectTotal(responses, questions, sessionId, subject)
    ensures 0.0 <= Percentage(SubjectCorrect(responses, questions, sessionId, subject),
                              SubjectTotal(responses, questions, sessionId, subject)) <= 100.0
  {
    var keys := SessionKeys(responses, sessionId);
    var total := SubjectKeys(keys, questions, subject);
    var correct := CorrectKeys(keys, responses, questions, subject);
    assert total == correct + (total - correct);
    PercentageBounds(|correct|, |total|);
  }

  /** Every response is counted in at most one subject, so the two totals never exceed the session's responses. */
  lemma TotalsWithinResponses(responses: map<ResponseKey, Response>, questions: seq<Question>,
                              sessionId: SessionId)
    ensures SubjectTotal(responses, questions, sessionId, Math)
          + SubjectTotal(responses, questions, sessionId, English)
         <= |SessionKeys(responses, sessionId)|
  {
    var keys := SessionKeys(responses, sessionId);
    var math := SubjectKeys(keys, questions, Math);
    var english := SubjectKeys(keys, questions, English);
    assert math !! english;
    assert keys == (math + english) + (keys - (math + english));
  }

  /** A response without a chosen index never counts as correct. */
  lemma UnansweredNeverCorrect(responses: map<ResponseKey, Response>, questions: seq<Question>,
                               k: ResponseKey, subject: Subject)
    requires k in responses && responses[k].chosenIndex.None?
    ensures k !in CorrectKeys(SessionKeys(responses, k.0), responses, questions, subject)
  {
  }

  /**
   * Totals count stored responses, not exam questions: removing the row of a
   * question the student never answered lowers that subject's total by one.
   */
  lemma TotalsCountResponseRows(responses: map<ResponseKey, Response>, questions: seq<Question>,
                                k: ResponseKey, subject: Subject)
    requires k in responses && CountsFor(questions, k, subject)
    ensures SubjectTotal(responses - {k}, questions, k.0, subject) + 1
         == SubjectTotal(responses, questions, k.0, subject)
  {
    var without := responses - {k};
    assert SubjectKeys(SessionKeys(responses, k.0), questions, subject)
        == SubjectKeys(SessionKeys(without, k.0), questions, subject) + {k};
  }

  /** Scoring ignores the stored correctness flag: rewriting it changes nothing. */
  lemma StoredFlagIgnored(responses: map<ResponseKey, Response>, k: ResponseKey, flag: bool,
                          questions: seq<Question>, sessionId: SessionId, subject: Subject)
    requires k in responses
    ensures var rewritten := responses[k := responses[k].(isCorrect := flag)];
      SubjectCorrect(rewritten, questions, sessionId, subject)
        == SubjectCorrect(responses, questions, sessionId, subject)
      && SubjectTotal(rewritten, questions, sessionId, subject)
        == SubjectTotal(responses, questions, sessionId, subject)
  {
    var rewritten := responses[k := responses[k].(isCorrect := flag)];
    assert SessionKeys(rewritten, sessionId) == SessionKeys(responses, sessionId);
    assert CorrectKeys(SessionKeys(rewritten, sessionId), rewritten, questions, subject)
        == CorrectKeys(SessionKeys(responses, sessionId), responses, questions, subject);
  }

  /** The four questions of the worked example: two math, two English. */
  function ExampleQuestions(): seq<Question> {
    [Question(1, 7, Math, "", [], Some(0)),
     Question(2, 7, Math, "", [], Some(1)),
     Question(3, 7, English, "", [], Some(2)),
     Question(4, 7, English, "", [], Some(0))]
  }

  /** Session 9 answers math {correct, wrong} and English {correct, unanswered}. */
  function ExampleResponses(): map<ResponseKey, Response> {
    map[(9, 1) := Response(Some(0), false, 0),
        (9, 2) := Response(Some(0), false, 0),
        (9, 3) := Response(Some(2), false, 0),
        (9, 4) := Response(None, false, 0)]
  }

  lemma ExampleLookups()
    ensures SessionKeys(ExampleResponses(), 9) == {(9, 1), (9, 2), (9, 3), (9, 4)}
    ensures FindQuestion(ExampleQuestions(), 1) == Some(ExampleQuestions()[0])
    ensures FindQuestion(ExampleQuestions(), 2) == Some(ExampleQuestions()[1])
    ensures FindQuestion(ExampleQuestions(), 3) == Some(ExampleQuestions()[2])
    ensures FindQuestion(ExampleQuestions(), 4) == Some(ExampleQuestions()[3])
  {
  }

  lemma ExampleMath()
    ensures SubjectTotal(ExampleResponses(), ExampleQuestions(), 9, Math) == 2
    ensures SubjectCorrect(ExampleResponses(), ExampleQuestions(), 9, Math) == 1
  {
    var questions, responses := ExampleQuestions(), ExampleResponses();
    ExampleLookups();
    var keys := SessionKeys(responses, 9);
    assert CountsFor(questions, (9, 1), Math) && CountsFor(questions, (9, 2), Math);
    assert !CountsFor(questions, (9, 3), Math) && !CountsFor(questions, (9, 4), Math);
    assert SubjectKeys(keys, questions, Math) == {(9, 1), (9, 2)};
    assert ScoredCorrect(responses, questions, (9, 1)) && !ScoredCorrect(responses, questions, (9, 2));
    assert CorrectKeys(keys, responses, questions, Math) == {(9, 1)};
  }

  lemma ExampleEnglish()
    ensures SubjectTotal(ExampleResponses(), ExampleQuestions(), 9, English) == 2
    ensures SubjectCorrect(ExampleResponses(), ExampleQuestions(), 9, English) == 1
  {
    var questions, responses := ExampleQuestions(), ExampleResponses();
    ExampleLookups();
    var keys := SessionKeys(responses, 9);
    assert CountsFor(questions, (9, 3), English) && CountsFor(questions, (9, 4), English);
    assert !CountsFor(questions, (9, 1), English) && !CountsFor(questions, (9, 2), English);
    assert SubjectKeys(keys, questions, English) == {(9, 3), (9, 4)};
    assert ScoredCorrect(responses, questions, (9, 3)) && !ScoredCorrect(responses, questions, (9, 4));
    assert CorrectKeys(keys, responses, questions, English) == {(9, 3)};
  }

  /**
   * Math answers {correct, wrong} and English answers {correct, unanswered}
   * score 1 of 2 (50%) in each subject and 2 of 4 (50%) in total.
   */
  method WorkedExample(completedAt: Timestamp) returns (r: ExamResult)
    ensures r.mathCorrect == 1 && r.mathTotal == 2 && r.mathPercentage == 50.0
    ensures r.englishCorrect == 1 && r.englishTotal == 2 && r.englishPercentage == 50.0
    ensures r.totalCorrect == 2 && r.totalQuestions == 4 && r.totalPercentage == 50.0
  {
    ExampleMath();
    ExampleEnglish();
    r := CalculateResult(ExampleResponses(), ExampleQuestions(), 9, completedAt);
  }
}
