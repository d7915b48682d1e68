/**
 * The administrator's read-only views: dashboard counters, the per-student
 * directory entry with its exam status label, and a student's contact number.
 */
module StudentManagementService {
  import opened Domain
  import opened Repositories

  /** The dashboard counters. */
  datatype DashboardStats = DashboardStats(totalStudents: nat, studentsRegisteredToday: nat, examsCompleted: nat)

  /** Students created strictly after the given instant (`countByCreatedAtAfter`). */
  function RegisteredAfter(students: map<StudentId, Student>, instant: Timestamp): (ids: set<StudentId>)
    ensures ids <= students.Keys
    ensures forall id :: id in ids <==> id in students && students[id].createdAt > instant
  {
    set id | id in students && students[id].createdAt > instant
  }

  /** Sessions whose status is COMPLETED. */
  function CompletedIds(sessions: map<SessionId, Session>): (ids: set<SessionId>)
    ensures ids <= sessions.Keys
    ensures forall id :: id in ids <==> id in sessions && sessions[id].status == Completed
  {
    set id | id in sessions && sessions[id].status == Completed
  }

  /**
   * `getDashboardStats`: all students, the students created after the start
   * of the current day (passed in, since the clock is outside the model), and
   * the completed sessions over all students and exams.
   */
  function GetDashboardStats(students: map<StudentId, Student>, sessions: map<SessionId, Session>,
                             startOfDay: Timestamp): (r: DashboardStats)
    ensures r.totalStudents == |students|
    ensures r.studentsRegisteredToday == |RegisteredAfter(students, startOfDay)|
    ensures r.examsCompleted == |CompletedIds(sessions)|
    ensures r.studentsRegisteredToday <= r.totalStudents
    ensures r.examsCompleted <= |sessions|
  {
    SubsetAtMost(RegisteredAfter(students, startOfDay), students.Keys);
    SubsetAtMost(CompletedIds(sessions), sessions.Keys);
    DashboardStats(|students|, |RegisteredAfter(students, startOfDay)|, |CompletedIds(sessions)|)
  }

  /** A student created exactly at the start of the day is not counted as registered that day. */
  lemma MidnightNotCounted(startOfDay: Timestamp)
    ensures var students := map[1 := Student("A", "B", "0700000000", startOfDay),
                                 2 := Student("C", "D", "0700000001", startOfDay + 1)];
      GetDashboardStats(students, map[], startOfDay).studentsRegisteredToday == 1
  {
    var students := map[1 := Student("A", "B", "0700000000", startOfDay),
                         2 := Student("C", "D", "0700000001", startOfDay + 1)];
    assert RegisteredAfter(students, startOfDay) == {2};
  }

  /** Moving the start of the day earlier can only count more students. */
  lemma EarlierStartCountsMore(students: map<StudentId, Student>, sessions: map<SessionId, Session>,
                               earlier: Timestamp, later: Timestamp)
    requires earlier <= later
    ensures GetDashboardStats(students, sessions, later).studentsRegisteredToday
         <= GetDashboardStats(students, sessions, earlier).studentsRegisteredToday
  {
    SubsetAtMost(RegisteredAfter(students, later), RegisteredAfter(students, earlier));
  }

  /** The directory's exam status label. */
  datatype ExamStatusLabel = NotTaken | InProgress | CompletedLabel

  /** The label's spelling in the directory entry. */
  function LabelText(l: ExamStatusLabel): (s: string)
    ensures s == "NOT_TAKEN" || s == "IN_PROGRESS" || s == "COMPLETED"
  {
    match l
    case NotTaken => "NOT_TAKEN"
    case InProgress => "IN_PROGRESS"
    case CompletedLabel => "COMPLETED"
  }

  /** Distinct labels are spelt differently, so the spelling tells the label. */
  lemma LabelTextInjective(a: ExamStatusLabel, b: ExamStatusLabel)
    requires LabelText(a) == LabelText(b)
    ensures a == b
  {
  }

  /**
   * The label of `toDto`: COMPLETED when the student has a completed session,
   * otherwise IN_PROGRESS when one is in progress, otherwise NOT_TAKEN.
   * Submitted and expired sessions alone leave the student NOT_TAKEN.
   */
  function ExamStatusOf(sessions: map<SessionId, Session>, studentId: StudentId): (l: ExamStatusLabel)
    ensures l == CompletedLabel <==> HasSessionWith(sessions, studentId, Completed)
    ensures l == InProgress <==>
      !HasSessionWith(sessions, studentId, Completed) && HasSessionWith(sessions, studentId, Started)
    ensures l == NotTaken <==>
      !HasSessionWith(sessions, studentId, Completed) && !HasSessionWith(sessions, studentId, Started)
  {
    if HasSessionWith(sessions, studentId, Completed) then CompletedLabel
    else if HasSessionWith(sessions, studentId, Started) then InProgress
    else NotTaken
  }

  /** A student whose only session was submitted but not yet finished is shown as not having taken the exam. */
  lemma SubmittedShowsNotTaken(studentId: StudentId, startTime: Timestamp, submitTime: Timestamp)
    ensures ExamStatusOf(map[0 := Session(0, studentId, Submitted, startTime, Some(submitTime))], studentId) == NotTaken
  {
  }

  /** Sessions of other students do not affect a student's label. */
  lemma LabelIgnoresOthers(sessions: map<SessionId, Session>, studentId: StudentId, id: SessionId, s: Session)
    requires s.studentId != studentId
    requires id !in sessions
    ensures ExamStatusOf(sessions[id := s], studentId) == ExamStatusOf(sessions, studentId)
  {
    var after := sessions[id := s];
    forall st ensures HasSessionWith(after, studentId, st) <==> HasSessionWith(sessions, studentId, st) {
      if HasSessionWith(after, studentId, st) {
        var j :| j in after && after[j].studentId == studentId && after[j].status == st;
        assert j != id && j in sessions;
      }
      if HasSessionWith(sessions, studentId, st) {
        var j :| j in sessions && sessions[j].studentId == studentId && sessions[j].status == st;
        assert j in after && after[j] == sessions[j];
      }
    }
  }

  /** One directory entry. */
  datatype StudentView = StudentView(
    id: StudentId, firstName: string, lastName: string, registeredAt: Timestamp, examStatus: string)

  /** `toDto`: the student's identity and registration time with the exam status label. */
  function ToDto(sessions: map<SessionId, Session>, id: StudentId, student: Student): (v: StudentView)
    ensures v.id == id && v.firstName == student.firstname && v.lastName == student.lastname
    ensures v.registeredAt == student.createdAt
    ensures v.examStatus == LabelText(ExamStatusOf(sessions, id))
  {
    StudentView(id, student.firstname, student.lastname, student.createdAt,
                LabelText(ExamStatusOf(sessions, id)))
  }

  /**
   * `getStudentDirectory`: the entries of one page of students, in the
   * order the page lists them.
   */
  function StudentDirectory(students: map<StudentId, Student>, sessions: map<SessionId, Session>,
                            page: seq<StudentId>): (r: seq<StudentView>)
    requires forall i :: 0 <= i < |page| ==> page[i] in students
    ensures |r| == |page|
    ensures forall i :: 0 <= i < |page| ==> r[i] == ToDto(sessions, page[i], students[page[i]])
  {
    if |page| == 0 then []
    else StudentDirectory(students, sessions, page[..|page| - 1])
         + [ToDto(sessions, page[|page| - 1], students[page[|page| - 1]])]
  }

  /** `getStudentContactInfo`: the student's mobile number, or not found. */
  function GetStudentContactInfo(students: map<StudentId, Student>, id: StudentId): (r: Result<string>)
    ensures r == Err(NotFound) <==> id !in students
    ensures r.Ok? <==> id in students
    ensures r.Ok? ==> r.value == students[id].mobileNumber
  {
    if id in students then Ok(students[id].mobileNumber) else Err(NotFound)
  }
}
