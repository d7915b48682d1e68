# Exam session lifecycle and scoring

A Dafny model of the back end of an online placement exam. A registered student
starts a timed exam session and pages through its questions. The student saves
answers (one stored response per question, overwritten on each save), then
submits and finishes. The score is computed per subject (math and English) and
pooled. A report is available only once the session is COMPLETED. A daily
sweep expires sessions abandoned for more than 24 hours. An administrator's
dashboard counts students, same-day registrations and completed exams, and
labels each student NOT_TAKEN, IN_PROGRESS or COMPLETED.

## Structure

- `domain.dfy` (`Domain`): the entities as values. It also holds the
  session-status transitions, the answer and question validity rules, and
  question lookup.
- `repositories.dfy` (`Repositories`): the store. `Database` is one object
  whose fields are the student, exam, question, session and response tables.
  Its invariant `Valid()` has these clauses:
  - question ids are unique, and every question has 2 to 6 options and a
    correct index from 0 to 5;
  - every session names a stored student and a stored exam, and its id is
    below `nextSessionId`;
  - a session has a submit time exactly when it is SUBMITTED or COMPLETED;
  - at most one session per student is in progress;
  - every response belongs to a stored session and to a question of that
    session's exam;
  - every response carries a chosen index from 0 to 3, so every stored
    response of a session counts as answered;
  - the stored correctness flag agrees with the question's correct index.
- `scoring.dfy` (`Scoring`): the exam result record and its pooled totals.
- `assessment_service.dfy` (`AssessmentService`): the scoring loop.
  `CalculateResult` is proved against set-cardinality specifications.
- `exam_service.dfy` (`ExamService`): start, page, save, submit, finish,
  result, and the report guard. The state-changing operations are
  module-level methods that take the `Database` object and modify it. Each
  method's postcondition states the error taken on each failing path and the
  whole new state on success.
- `session_scheduler.dfy` (`SessionScheduler`): the expiry sweep, as an
  in-place loop proved equal to the pure `Swept`.
- `student_management_service.dfy` (`StudentManagementService`): the
  dashboard, the directory entry with its status label, and contact lookup.
- `lifecycle.dfy` (`Lifecycle`): properties that span services. Statuses only
  move forward. A report, once available, stays available. Finishing adds one
  to the dashboard's completed count, and the sweep changes none of it. The
  lemmas also fix the directory label after finishing and after the sweep.

Modelling choices:

- Identifiers are natural numbers. New sessions take the next unused number.
- Times are integers (seconds). The current time is always a parameter.
- Percentages are exact reals.
- The question table is a sequence. Pages are slices of the exam's questions
  in table order.
- Responses are keyed by (session, question), which is the table's
  uniqueness constraint.
- Each service call is one atomic step. A call that fails changes nothing,
  because each operation runs in one transaction.
- `saveAnswers` stages its writes and commits them only when every answer is
  accepted.
- `ExamService.java` sets a submission time on each stored response, but
  `StudentResponse.java` declares no such field. The model follows the
  service and keeps the time in `Response.submittedAt`.

## Model

| member | source | states |
|---|---|---|
| Domain.FindQuestion | src/main/java/com/example/backend/service/ExamService.java:131-133 | the question is found exactly when some stored question has that id, and the result is that stored question |
| Domain.AnsweredCorrectly | src/main/java/com/example/backend/service/ExamService.java:150-153 | correct exactly when an index was chosen and the question's correct index is that same index; a missing correct index never matches |
| Domain.Transition | src/main/java/com/example/backend/service/ExamService.java:164-188 | the only status changes are submit (STARTED to SUBMITTED), finish (SUBMITTED to COMPLETED) and expiry (STARTED to EXPIRED, SessionScheduler.java:37): none keeps the status, none returns to STARTED, none leaves COMPLETED or EXPIRED, and COMPLETED is reached only from SUBMITTED |
| Domain.FindQuestionUnique | src/main/java/com/example/backend/service/ExamService.java:131-133 | with unique question ids, `findById` of a stored question's id returns that question |
| Domain.ExamIndices | src/main/java/com/example/backend/repository/QuestionRepository.java:20 | the table positions of the exam's questions: each holds a question of the exam, they strictly increase, and every such position is included |
| Domain.QuestionsOfExam | src/main/java/com/example/backend/repository/QuestionRepository.java:20 | a question is in the result exactly when it is in the table and belongs to the exam; no longer than the table |
| Domain.QuestionsOfExamInOrder | src/main/java/com/example/backend/repository/QuestionRepository.java:20 | the result is the table's rows at the exam's positions, in increasing position order, so each of the exam's rows appears once and table order is kept |
| Domain.QuestionsOfExamCount | src/main/java/com/example/backend/repository/QuestionRepository.java:17 | the result's length is the number of table rows of the exam (`countByExamId`) |
| Repositories.Database.Valid | src/main/java/com/example/backend/domain/ExamSession.java:20-44 | the store invariant listed above; it implies one session in progress per student and that every response belongs to a stored session and has a chosen index |
| Repositories.SessionsWith | src/main/java/com/example/backend/repository/ExamSessionRepository.java:15 | the sessions `findByStudentIdAndStatus` returns: exactly the stored sessions of that student in that status |
| Repositories.HasSessionWith | src/main/java/com/example/backend/repository/ExamSessionRepository.java:15 | true exactly when `findByStudentIdAndStatus` returns a non-empty list, as tested at ExamService.java:55-60 and StudentManagementService.java:59-67; with one session in progress per student the STARTED query returns at most one session |
| Repositories.OneStartedSession | src/main/java/com/example/backend/service/ExamService.java:55-60 | under the one-in-progress rule the STARTED query for a student has at most one element, so the session the source returns is determined |
| Repositories.SessionsEvolve | src/main/java/com/example/backend/service/ExamService.java:164-188 | the relation every state-changing operation keeps: no session disappears, a completed or expired session keeps its status, and no session becomes STARTED again |
| Repositories.Finished | src/main/java/com/example/backend/service/ExamService.java:188 | the finished session becomes that same session with status COMPLETED; every other session is unchanged and none is added |
| Scoring.Percentage | src/main/java/com/example/backend/service/AssessmentService.java:49-50 | 0 when there are no answers; otherwise the percentage times the total is 100 times the correct count |
| Scoring.PercentageBounds | src/main/java/com/example/backend/service/AssessmentService.java:49-50 | with 0 ≤ correct ≤ total the percentage lies in [0, 100] |
| Scoring.NewExamResult | src/main/java/com/example/backend/dto/ExamResult.java:21-37 | subject fields and completion time are kept; totals are the sums; the total percentage is 0 for no answers, otherwise taken over the pooled counts |
| Scoring.TotalsBounded | src/main/java/com/example/backend/dto/ExamResult.java:32-34 | when each subject has correct ≤ total, so do the totals, and the total percentage lies in [0, 100] |
| Scoring.PooledIsWeightedMean | src/main/java/com/example/backend/dto/ExamResult.java:32-34 | the pooled percentage is the answer-count-weighted mean of the subject percentages |
| Scoring.PooledIsNotPlainMean | src/main/java/com/example/backend/dto/ExamResult.java:34 | 1/1 math and 0/3 English give 25% in total, while the plain mean of the subject percentages is 50% |
| Scoring.ReportExample | src/test/java/com/example/backend/service/ReportServiceTest.java:45-77 | math 1/2 at 50% and English 1/2 at 50% give 2/4 at 50% in total |
| AssessmentService.SessionKeys | src/main/java/com/example/backend/service/AssessmentService.java:26 | exactly the stored responses of the session |
| AssessmentService.CalculateResult | src/main/java/com/example/backend/service/AssessmentService.java:23-59 | the loop's counts are the numbers of the session's responses whose question is math (or English), and of those whose chosen index equals the question's correct index; rows without a question count nowhere; the result is built from those counts |
| AssessmentService.RecalculationAgrees | src/test/java/com/example/backend/service/AssessmentServiceTest.java:151-158 | two calculations over the same responses differ at most in completion time |
| AssessmentService.CorrectWithinTotal | src/main/java/com/example/backend/service/AssessmentService.java:35-50 | a subject's correct count never exceeds its total, and its percentage lies in [0, 100] |
| AssessmentService.TotalsWithinResponses | src/main/java/com/example/backend/service/AssessmentService.java:32-46 | math and English totals together never exceed the session's stored responses |
| AssessmentService.UnansweredNeverCorrect | src/main/java/com/example/backend/service/AssessmentService.java:35-36 | a response without a chosen index is never counted correct |
| AssessmentService.TotalsCountResponseRows | src/main/java/com/example/backend/service/AssessmentService.java:39-45 | removing one response of a subject lowers that subject's total by exactly one |
| AssessmentService.StoredFlagIgnored | src/main/java/com/example/backend/service/AssessmentService.java:35-36 | rewriting a stored correctness flag does not change any count: correctness is regraded from the chosen and correct indices |
| AssessmentService.ExampleLookups | src/test/java/com/example/backend/service/AssessmentServiceTest.java:95-116 | the fixture session has the four responses, and each looks up its question |
| AssessmentService.ExampleMath | src/test/java/com/example/backend/service/AssessmentServiceTest.java:96-104 | the fixture gives math 1 correct of 2 |
| AssessmentService.ExampleEnglish | src/test/java/com/example/backend/service/AssessmentServiceTest.java:106-114 | the fixture gives English 1 correct of 2, the unanswered one not counted |
| AssessmentService.WorkedExample | src/test/java/com/example/backend/service/AssessmentServiceTest.java:122-149 | the fixture scores 1/2 (50%) per subject and 2/4 (50%) in total |
| ExamService.ToResponse | src/main/java/com/example/backend/service/ExamService.java:205-210 | the handle carries the session id, its exam's time limit and its start time |
| ExamService.StartExamSession | src/main/java/com/example/backend/service/ExamService.java:44-81 | unknown student NotFound, then missing exam id BadRequest, both without change; a student with a session in progress gets it back, unchanged, whatever exam was asked; otherwise an unknown exam is NotFound, else exactly one new STARTED session at `now` is added under the next unused id, which then advances by one; the store invariant (one session in progress per student) holds after |
| ExamService.SelectedOption | src/main/java/com/example/backend/service/ExamService.java:96-101 | the stored choice for the session and question, or none when there is no stored row |
| ExamService.AnswerInExam | src/main/java/com/example/backend/service/ExamService.java:131-138 | an accepted answer names a stored question of the session's exam, and an answer naming no stored question is refused |
| ExamService.AnswerInExamExactly | src/main/java/com/example/backend/service/ExamService.java:131-138 | with unique question ids, an answer is accepted exactly when a stored question of the session's exam has its id |
| ExamService.ToView | src/main/java/com/example/backend/service/ExamService.java:103-108 | the entry carries the question's id, content and options and the session's stored choice; it has no correct index |
| ExamService.PageSize | src/main/java/com/example/backend/service/ExamService.java:92 | the smaller of the requested size and 20 |
| ExamService.QuestionsPage | src/main/java/com/example/backend/service/ExamService.java:83-116 | NotFound, Conflict unless STARTED, InvalidArgument for a negative page or a size below one, and success exactly otherwise; the page's length and each entry's id, content, options and stored choice are those of the exam's question at page·size + i |
| ExamService.Upserted | src/main/java/com/example/backend/service/ExamService.java:149-154 | the row holds the chosen index and the time, and is flagged correct exactly when the question's correct index equals the chosen index |
| ExamService.ApplyAnswers | src/main/java/com/example/backend/service/ExamService.java:130-156 | the in-order upsert of the answers; no existing row is removed |
| ExamService.LastAnswerWins | src/main/java/com/example/backend/service/ExamService.java:140-155 | the last answer in a call for a question decides that question's single stored response |
| ExamService.OtherResponsesUntouched | src/main/java/com/example/backend/service/ExamService.java:140-155 | responses of other sessions or unanswered questions are unchanged |
| ExamService.ApplyAnswersKeys | src/main/java/com/example/backend/service/ExamService.java:140-147 | a save adds exactly the (session, question) rows it names and removes none |
| ExamService.ApplyAnswersConsistent | src/main/java/com/example/backend/service/ExamService.java:130-155 | saving valid answers to the session's exam keeps every stored response consistent with its question |
| ExamService.SaveAnswers | src/main/java/com/example/backend/service/ExamService.java:118-157 | NotFound, Conflict unless STARTED, BadRequest when any answer names an unknown question or one of another exam, each without change; succeeds exactly otherwise, and the responses become the in-order upsert of the answers |
| ExamService.SubmitExam | src/main/java/com/example/backend/service/ExamService.java:159-177 | NotFound, Conflict unless STARTED; otherwise SUBMITTED with submit time `now`, and the summary counts answered responses, the exam's questions and their difference, which is never negative |
| ExamService.AnsweredKeys | src/main/java/com/example/backend/repository/StudentResponseRepository.java:20-21 | exactly the session's stored responses that carry a chosen index |
| ExamService.AllSavedAreAnswered | src/main/java/com/example/backend/repository/StudentResponseRepository.java:20-21 | in a consistent store the answered responses of a session are all its stored responses |
| ExamService.AnsweredWithinTotal | src/main/java/com/example/backend/service/ExamService.java:172-174 | under the store invariant the answered count never exceeds the exam's question count |
| ExamService.DecimalDigits | src/main/java/com/example/backend/service/ExamService.java:194 | the model's spelling of its natural-number session ids: decimal digits only, at least one |
| ExamService.ReportUrl | src/main/java/com/example/backend/service/ExamService.java:194 | the locator is `/api/v1/reports/`, then the id's spelling, then `/download`, and the id's spelling can be read back from between the two |
| ExamService.DecimalDigitsInjective | src/main/java/com/example/backend/service/ExamService.java:194 | distinct ids have distinct spellings |
| ExamService.ReportUrlInjective | src/main/java/com/example/backend/service/ExamService.java:194 | distinct sessions get distinct report locators |
| ExamService.ReportRequest | src/main/java/com/example/backend/controller/ReportController.java:27-35 | the report is available exactly for a COMPLETED session, for its student; NotFound and Conflict otherwise |
| ExamService.FinishExam | src/main/java/com/example/backend/service/ExamService.java:179-196 | NotFound, Conflict unless SUBMITTED; otherwise COMPLETED, the report becomes available and the locator `/api/v1/reports/<id>/download` is returned |
| ExamService.FinishTwice | src/main/java/com/example/backend/service/ExamService.java:184-186 | a second finish of the same session is a Conflict |
| ExamService.SubmitTwice | src/main/java/com/example/backend/service/ExamService.java:164-166 | a second submit of the same session is a Conflict |
| ExamService.GetExamResult | src/main/java/com/example/backend/service/ExamService.java:198-203 | NotFound for an unknown session; otherwise the score of its stored responses, in any status, without change |
| SessionScheduler.Cutoff | src/main/java/com/example/backend/config/SessionScheduler.java:28 | 24 hours before now |
| SessionScheduler.Abandoned | src/main/java/com/example/backend/repository/ExamSessionRepository.java:17 | only a STARTED session can be abandoned (STARTED and started strictly before the cutoff) |
| SessionScheduler.AbandonedMonotone | src/main/java/com/example/backend/config/SessionScheduler.java:28-30 | a session abandoned at one cutoff is abandoned at every later cutoff, and no session is abandoned at a cutoff equal to its own start time |
| SessionScheduler.AbandonedIds | src/main/java/com/example/backend/config/SessionScheduler.java:29-30 | exactly the STARTED sessions that started strictly before the cutoff |
| SessionScheduler.Swept | src/main/java/com/example/backend/config/SessionScheduler.java:37 | same sessions; the abandoned ones EXPIRED, every other one as it was |
| SessionScheduler.SweepChangesOnlyStatus | src/main/java/com/example/backend/config/SessionScheduler.java:37 | the sweep is an allowed evolution, and a session's status changes exactly when it was abandoned |
| SessionScheduler.SweepIdempotent | src/main/java/com/example/backend/config/SessionScheduler.java:27-40 | a second sweep with the same cutoff finds nothing and changes nothing |
| SessionScheduler.NothingToSweep | src/main/java/com/example/backend/config/SessionScheduler.java:32-35 | with nothing abandoned the sessions are unchanged |
| SessionScheduler.SweepExample | src/main/java/com/example/backend/config/SessionScheduler.java:28-30 | a session started 25 hours ago expires; one started an hour ago does not |
| SessionScheduler.SweepKeepsInvariant | src/main/java/com/example/backend/config/SessionScheduler.java:27-40 | the sweep keeps the store invariant |
| SessionScheduler.ExpireAbandonedSessions | src/main/java/com/example/backend/config/SessionScheduler.java:27-40 | the sessions become `Swept` of the old ones at now − 24 h, nothing else changes, and the count is the number of abandoned sessions |
| StudentManagementService.RegisteredAfter | src/main/java/com/example/backend/service/StudentManagementService.java:33-34 | exactly the students created strictly after the instant |
| StudentManagementService.CompletedIds | src/main/java/com/example/backend/service/StudentManagementService.java:36-40 | exactly the COMPLETED sessions |
| StudentManagementService.GetDashboardStats | src/main/java/com/example/backend/service/StudentManagementService.java:30-43 | all students, students created after the start of day, completed sessions; today's count ≤ total, completed ≤ sessions |
| StudentManagementService.MidnightNotCounted | src/main/java/com/example/backend/service/StudentManagementService.java:33-34 | a student created exactly at the start of day is not counted as today's |
| StudentManagementService.EarlierStartCountsMore | src/main/java/com/example/backend/service/StudentManagementService.java:33-34 | an earlier start of day never counts fewer students |
| StudentManagementService.LabelText | src/main/java/com/example/backend/service/StudentManagementService.java:62-68 | the label is spelt NOT_TAKEN, IN_PROGRESS or COMPLETED |
| StudentManagementService.LabelTextInjective | src/main/java/com/example/backend/service/StudentManagementService.java:62-68 | distinct labels have distinct spellings |
| StudentManagementService.ExamStatusOf | src/main/java/com/example/backend/service/StudentManagementService.java:57-69 | COMPLETED iff a completed session exists; IN_PROGRESS iff none completed and one started; NOT_TAKEN iff neither |
| StudentManagementService.SubmittedShowsNotTaken | src/main/java/com/example/backend/service/StudentManagementService.java:59-68 | a student whose only session is SUBMITTED is labelled NOT_TAKEN |
| StudentManagementService.LabelIgnoresOthers | src/main/java/com/example/backend/service/StudentManagementService.java:59-67 | another student's new session never changes a student's label |
| StudentManagementService.ToDto | src/main/java/com/example/backend/service/StudentManagementService.java:57-78 | the entry carries the student's id, names, registration time and status label |
| StudentManagementService.StudentDirectory | src/main/java/com/example/backend/service/StudentManagementService.java:45-48 | one entry per listed student, in the listed order, each its `toDto` |
| StudentManagementService.GetStudentContactInfo | src/main/java/com/example/backend/service/StudentManagementService.java:50-55 | NotFound exactly for an unknown student; otherwise the mobile number |
| Lifecycle.TransitionsMoveForward | src/main/java/com/example/backend/service/ExamService.java:164-188 | every allowed status change moves strictly forward, and nothing leaves COMPLETED or EXPIRED |
| Lifecycle.EvolveTwice | src/main/java/com/example/backend/service/ExamService.java:164-188 | across two steps a session keeps its exam and student and its status never moves back |
| Lifecycle.ReportStaysAvailable | src/main/java/com/example/backend/controller/ReportController.java:27-33 | once a session's report is available, every later allowed evolution keeps it available for the same student |
| Lifecycle.FinishAddsOneCompleted | src/main/java/com/example/backend/service/StudentManagementService.java:36-40 | finishing a SUBMITTED session raises the dashboard's completed count by exactly one |
| Lifecycle.SweepKeepsCompletedCount | src/main/java/com/example/backend/config/SessionScheduler.java:37 | the sweep leaves the dashboard unchanged |
| Lifecycle.LabelAfterFinish | src/main/java/com/example/backend/service/StudentManagementService.java:59-64 | after finishing, the student is labelled COMPLETED |
| Lifecycle.StartedIsNotNotTaken | src/main/java/com/example/backend/service/StudentManagementService.java:66-68 | a student with a session in progress is never labelled NOT_TAKEN |
| Lifecycle.SweepResetsLabel | src/main/java/com/example/backend/config/SessionScheduler.java:37 | a student whose one session in progress is expired by the sweep, with nothing completed, goes from IN_PROGRESS to NOT_TAKEN |

## Left out

- Controllers, request validation plumbing, authentication and the admin login are not modelled. The answer range 0–3 of `AnswerDto` is a precondition of `SaveAnswers`, because the request is rejected before the service runs.
- PDF rendering of the report (ReportService) is left out. Only the guard that decides whether a report is available is modelled.
- Exam and question authoring and the data seeder are left out. The question table's shape (unique ids, 2–6 options, a correct index in 0–5) is taken as the store's invariant.
- `getAllStudentExams` is left out. It is a plain listing of the exam table with no lifecycle behaviour.
- Concurrency is left out. Two simultaneous starts for the same student could both pass the "session in progress" check. The model runs each call as one atomic step, so it does not capture that race.
- The clock is left out. `LocalDateTime.now()` is a parameter, and so are the cutoff time and the start of day.
- The daily schedule and the log lines of the sweep are left out. The logged count is returned instead.
- Paging metadata (total pages, page number, last-page flag) is left out. Only the page's contents are modelled.
- `getStudentDirectory` takes the page of students as given. How the repository orders and slices the student table is not modelled.
- Floating point is left out. Percentages are exact reals, so rounding of doubles is not captured.
- CalculateResult: the Java `int` counters are unbounded here. Overflow needs more than 2^31 rows, so it is not modelled.
- SubmitExam: the `int` casts of the question count and the answered count are unbounded here. They truncate only beyond 2^31 rows, so the truncation is not modelled.
- DecimalDigits: session ids are UUIDs in the source and are spelt in hexadecimal with hyphens in the report locator. The model uses natural-number ids and spells them in decimal.
- ToResponse: a missing time limit would make the unboxing in `toResponse` throw. The model's exam always has a time limit.
- QuestionsPage: collecting the session's choices into a map throws when a stored choice is missing. That cannot happen under the store invariant, because every saved response has a chosen index, so the throwing path is not modelled.
- QuestionsPage: `findByExamId(examId, pageable)` has no sort, so the database decides the order of the questions. The model fixes table order and does not capture the database's order.
- FinishExam: the grading call that `finishExam` makes discards its result and changes nothing, so it is not modelled.
- `GetExamResult` calls the scoring with the session id. The scoring's own query by session is modelled as the response table restricted to that session.
- StartExamSession: when a student has several sessions in progress the source returns the first. The store invariant allows at most one, so the model returns that one.
