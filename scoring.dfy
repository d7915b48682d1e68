/**
 * The exam result record: per-subject counts and percentages as passed in,
 * and pooled totals derived once at construction.
 */
module Scoring {
  import opened Domain

  /** Percentages are exact reals here; the source computes them in double precision. */
  function Percentage(correct: int, total: int): (p: real)
    ensures total == 0 ==> p == 0.0
    ensures total != 0 ==> p * total as real == 100.0 * correct as real
  {
    if total == 0 then 0.0 else (correct as real / total as real) * 100.0
  }

  lemma PercentageBounds(correct: int, total: int)
    requires 0 <= correct <= total
    ensures 0.0 <= Percentage(correct, total) <= 100.0
  {
    if total != 0 {
      var ratio := correct as real / total as real;
      assert ratio * total as real == correct as real;
      assert 0.0 <= ratio <= 1.0 by {
        if ratio > 1.0 {
          assert ratio * total as real > total as real;
        }
      }
    }
  }

  datatype ExamResult = ExamResult(
    mathCorrect: int, mathTotal: int, mathPercentage: real,
    englishCorrect: int, englishTotal: int, englishPercentage: real,
    totalCorrect: int, totalQuestions: int, totalPercentage: real,
    completedAt: Timestamp)

  /**
   * The record's constructor: subject fields and the completion time are kept
   * as given; the totals pool both subjects' counts, and the total percentage
   * is taken over the pooled counts.
   */
  function NewExamResult(
    mathCorrect: int, mathTotal: int, mathPercentage: real,
    englishCorrect: int, englishTotal: int, englishPercentage: real,
    completedAt: Timestamp): (r: ExamResult)
    ensures r.mathCorrect == mathCorrect && r.mathTotal == mathTotal && r.mathPercentage == mathPercentage
    ensures r.englishCorrect == englishCorrect && r.englishTotal == englishTotal
    ensures r.englishPercentage == englishPercentage
    ensures r.completedAt == completedAt
    ensures r.totalCorrect == mathCorrect + englishCorrect
    ensures r.totalQuestions == mathTotal + englishTotal
    ensures r.totalQuestions == 0 ==> r.totalPercentage == 0.0
    ensures r.totalQuestions != 0 ==>
      r.totalPercentage * r.totalQuestions as real == 100.0 * r.totalCorrect as real
  {
    var totalCorrect := mathCorrect + englishCorrect;
    var totalQuestions := mathTotal + englishTotal;
    ExamResult(
      mathCorrect, mathTotal, mathPercentage,
      englishCorrect, englishTotal, englishPercentage,
      totalCorrect, totalQuestions, Percentage(totalCorrect, totalQuestions),
      completedAt)
  }

  /** When every subject has no more correct answers than answers, so do the totals. */
  lemma TotalsBounded(
    mathCorrect: int, mathTotal: int, mathPercentage: real,
    englishCorrect: int, englishTotal: int, englishPercentage: real,
    completedAt: Timestamp)
    requires 0 <= mathCorrect <= mathTotal && 0 <= englishCorrect <= englishTotal
    ensures var r := NewExamResult(mathCorrect, mathTotal, mathPercentage,
                                   englishCorrect, englishTotal, englishPercentage, completedAt);
      0 <= r.totalCorrect <= r.totalQuestions && 0.0 <= r.totalPercentage <= 100.0
  {
    PercentageBounds(mathCorrect + englishCorrect, mathTotal + englishTotal);
  }

  /**
   * The pooled percentage is the mean of the subject percentages weighted by
   * each subject's number of answers, when the subject percentages are the
   * ones their counts give.
   */
  lemma PooledIsWeightedMean(mathCorrect: int, mathTotal: int, englishCorrect: int, englishTotal: int,
                             completedAt: Timestamp)
    requires 0 <= mathCorrect <= mathTotal && 0 <= englishCorrect <= englishTotal
    ensures var r := NewExamResult(mathCorrect, mathTotal, Percentage(mathCorrect, mathTotal),
                                   englishCorrect, englishTotal, Percentage(englishCorrect, englishTotal),
                                   completedAt);
      r.totalPercentage * r.totalQuestions as real
        == r.mathPercentage * mathTotal as real + r.englishPercentage * englishTotal as real
  {
    var r := NewExamResult(mathCorrect, mathTotal, Percentage(mathCorrect, mathTotal),
                           englishCorrect, englishTotal, Percentage(englishCorrect, englishTotal),
                           completedAt);
    assert r.mathPercentage * mathTotal as real == 100.0 * mathCorrect as real;
    assert r.englishPercentage * englishTotal as real == 100.0 * englishCorrect as real;
  }

  /** Pooling is not averaging: 1 of 1 in math and 0 of 3 in English is 25%, not 50%. */
  lemma PooledIsNotPlainMean(completedAt: Timestamp)
    ensures var r := NewExamResult(1, 1, Percentage(1, 1), 0, 3, Percentage(0, 3), completedAt);
      r.totalPercentage == 25.0 && (r.mathPercentage + r.englishPercentage) / 2.0 == 50.0
  {
  }

  /** Math 1 of 2 (50%) and English 1 of 2 (50%) report 2 of 4 in total at 50%. */
  lemma ReportExample(completedAt: Timestamp)
    ensures var r := NewExamResult(1, 2, 50.0, 1, 2, 50.0, completedAt);
      r.totalCorrect == 2 && r.totalQuestions == 4 && r.totalPercentage == 50.0
  {
  }
}
