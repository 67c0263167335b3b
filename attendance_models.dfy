/**
  The attendance database: sessions held for courses, one attendance record per
  (session, student), one summary per (student, course), and each course's roster.
  The model classes themselves are not shown; their fields here are the ones the
  views read and write.
 */
module AttendanceModels {
  import opened Wrappers
  import opened Dict
  import opened FaceRecognition

  type CourseId = nat
  type SessionId = nat
  type FacultyId = nat
  type Date = int

  /** Attendance record statuses P, A, L and E. */
  datatype Status = Present | Absent | Late | Excused

  /** An attendance session: which course it belongs to, when it was held, and which faculty member created it. */
  datatype Session = Session(course: CourseId, date: Date, createdBy: FacultyId)

  /** An attendance record's stored fields (the uploaded face image is not modelled). */
  datatype Record = Record(status: Status, aiVerified: bool)

  /** A student's attendance summary for one course. */
  datatype Summary = Summary(totalClasses: nat, classesAttended: nat)

  type RecordKey = (SessionId, StudentId)
  type SummaryKey = (StudentId, CourseId)

  /** The course a stored session belongs to, if the session exists. */
  function CourseOf(sessions: Dict<SessionId, Session>, id: SessionId): Option<CourseId> {
    match Get(sessions, id)
    case None => None
    case Some(s) => Some(s.course)
  }

  /** Sessions of `course`, as a filter over the sessions table. */
  function OfCourse(course: CourseId): ((SessionId, Session)) -> bool {
    (e: (SessionId, Session)) => e.1.course == course
  }

  /** Records of `student` with status P in a session of `course`. */
  function AttendedIn(sessions: Dict<SessionId, Session>, student: StudentId, course: CourseId): ((RecordKey, Record)) -> bool {
    (e: (RecordKey, Record)) => e.0.1 == student && e.1.status == Present && CourseOf(sessions, e.0.0) == Some(course)
  }

  /** `AttendanceSession.objects.filter(course=course).count()`. */
  function SessionCount(sessions: Dict<SessionId, Session>, course: CourseId): (n: nat)
    ensures n <= |sessions|
  {
    CountWhere(sessions, OfCourse(course))
  }

  /** The number of the student's Present records in sessions of the course. */
  function Attended(records: Dict<RecordKey, Record>, sessions: Dict<SessionId, Session>,
                    student: StudentId, course: CourseId): (n: nat)
    ensures n <= |records|
  {
    CountWhere(records, AttendedIn(sessions, student, course))
  }

  /** The summary `update_summary` computes from the current tables. */
  function Recount(records: Dict<RecordKey, Record>, sessions: Dict<SessionId, Session>,
                   student: StudentId, course: CourseId): Summary
  {
    Summary(SessionCount(sessions, course), Attended(records, sessions, student, course))
  }

  /**
    Whether the low-attendance warning goes out for a summary: it must be below the
    threshold and cover at least 3 classes. `below` stands for `is_below_threshold`,
    whose definition is not part of this model.
   */
  predicate LowAttendanceAlert(s: Summary, below: (nat, nat) -> bool) {
    below(s.totalClasses, s.classesAttended) && s.totalClasses >= 3
  }

  /** Writing another student's record does not change a student's attended count. */
  lemma AttendedPutOther(records: Dict<RecordKey, Record>, sessions: Dict<SessionId, Session>,
                         student: StudentId, course: CourseId, k: RecordKey, r: Record)
    requires DistinctKeys(records)
    requires k.1 != student
    ensures Attended(Put(records, k, r), sessions, student, course) == Attended(records, sessions, student, course)
  {
    CountWherePut(records, k, r, AttendedIn(sessions, student, course));
  }

  /** The enrolled students of a course, ordered by last name; none for an unknown course. */
  function RosterOf(courses: map<CourseId, seq<Student>>, course: CourseId): (roster: seq<Student>)
    ensures course !in courses ==> roster == []
  {
    if course in courses then courses[course] else []
  }

  /** `id` is a session of `course`. */
  predicate IsCourseSession(sessions: Dict<SessionId, Session>, course: CourseId, id: SessionId) {
    exists i :: 0 <= i < |sessions| && sessions[i].0 == id && sessions[i].1.course == course
  }

  lemma CourseSessionCons(sessions: Dict<SessionId, Session>, course: CourseId)
    requires sessions != []
    ensures forall id :: IsCourseSession(sessions, course, id) <==>
              (sessions[0].0 == id && sessions[0].1.course == course) || IsCourseSession(sessions[1..], course, id)
  {
    forall id ensures IsCourseSession(sessions, course, id) ==>
                        (sessions[0].0 == id && sessions[0].1.course == course) || IsCourseSession(sessions[1..], course, id)
    {
      if IsCourseSession(sessions, course, id) {
        var i :| 0 <= i < |sessions| && sessions[i].0 == id && sessions[i].1.course == course;
        if i > 0 {
          assert sessions[1..][i - 1] == sessions[i];
        }
      }
    }
    forall id | IsCourseSession(sessions[1..], course, id) ensures IsCourseSession(sessions, course, id) {
      var i :| 0 <= i < |sessions[1..]| && sessions[1..][i].0 == id && sessions[1..][i].1.course == course;
      assert sessions[i + 1] == sessions[1..][i];
    }
  }

  /** The ids of a course's sessions, in table order; as many as `SessionCount` counts. */
  function CourseSessionIds(sessions: Dict<SessionId, Session>, course: CourseId): (ids: seq<SessionId>)
    ensures |ids| == SessionCount(sessions, course)
    ensures forall id :: id in ids <==> IsCourseSession(sessions, course, id)
  {
    if sessions == [] then []
    else
      var rest := CourseSessionIds(sessions[1..], course);
      CourseSessionCons(sessions, course);
      if sessions[0].1.course == course then [sessions[0].0] + rest else rest
  }

  /** The sessions behind a student's attended count (the sessions of their Present records in the course). */
  function AttendedSessions(records: Dict<RecordKey, Record>, sessions: Dict<SessionId, Session>,
                            student: StudentId, course: CourseId): (ss: set<SessionId>)
    ensures forall x :: x in ss ==> HasKey(records, (x, student)) && IsCourseSession(sessions, course, x)
  {
    if records == [] then {}
    else
      var rest := AttendedSessions(records[1..], sessions, student, course);
      ConsGet(records);
      var e := records[0];
      if AttendedIn(sessions, student, course)(e) then
        CourseOfIsCourseSession(sessions, course, e.0.0);
        {e.0.0} + rest
      else rest
  }

  lemma CourseOfIsCourseSession(sessions: Dict<SessionId, Session>, course: CourseId, id: SessionId)
    requires CourseOf(sessions, id) == Some(course)
    ensures IsCourseSession(sessions, course, id)
  {
    var i := IndexOf(sessions, id).value;
    assert sessions[i].0 == id && sessions[i].1.course == course;
  }

  /** With unique record keys the attended count is the number of distinct sessions behind it. */
  lemma {:induction false} AttendedCountsSessions(records: Dict<RecordKey, Record>, sessions: Dict<SessionId, Session>,
                                                   student: StudentId, course: CourseId)
    requires DistinctKeys(records)
    ensures Attended(records, sessions, student, course) == |AttendedSessions(records, sessions, student, course)|
  {
    if records != [] {
      var tail := records[1..];
      assert DistinctKeys(tail);
      AttendedCountsSessions(tail, sessions, student, course);
      var e := records[0];
      if AttendedIn(sessions, student, course)(e) {
        assert !HasKey(tail, (e.0.0, student)) by {
          forall j | 0 <= j < |tail| ensures tail[j].0 != (e.0.0, student) {
            assert records[j + 1].0 != records[0].0;
          }
        }
      }
    }
  }

  /** A sequence has at least as many elements as the set of them. */
  /** The set of a sequence's elements, and it is no larger than the sequence. */
  function Elements(ids: seq<SessionId>): (r: set<SessionId>)
    ensures forall x :: x in r <==> x in ids
    ensures |r| <= |ids|
  {
    if ids == [] then {}
    else
      var rest := Elements(ids[1..]);
      if ids[0] in rest then rest else {ids[0]} + rest
  }

  /** A subset is no larger than its superset. */
  lemma {:induction false} SubsetSize(a: set<SessionId>, b: set<SessionId>)
    requires a <= b
    ensures |a| <= |b|
    decreases |a|
  {
    if a != {} {
      var x :| x in a;
      SubsetSize(a - {x}, b - {x});
    }
  }

  /**
    A recounted summary never shows more classes attended than held: a student has at
    most one record per session, so their Present records in a course point at distinct
    sessions of that course.
   */
  lemma AttendedAtMostHeld(records: Dict<RecordKey, Record>, sessions: Dict<SessionId, Session>,
                           student: StudentId, course: CourseId)
    requires DistinctKeys(records)
    ensures Attended(records, sessions, student, course) <= SessionCount(sessions, course)
  {
    AttendedCountsSessions(records, sessions, student, course);
    var held := CourseSessionIds(sessions, course);
    var attended := AttendedSessions(records, sessions, student, course);
    SubsetSize(attended, Elements(held));
  }

  /**
    The attendance database. Sessions and rosters are read by the views modelled here;
    records and summaries are written.
   */
  class AttendanceDb {
    var sessions: Dict<SessionId, Session>
    var courses: map<CourseId, seq<Student>>
    var records: Dict<RecordKey, Record>
    var summaries: Dict<SummaryKey, Summary>

    /** Unique keys in every table, and no student twice on a roster. */
    ghost predicate Valid()
      reads this
    {
      && DistinctKeys(sessions)
      && DistinctKeys(records)
      && DistinctKeys(summaries)
      && (forall c :: c in courses ==> DistinctIds(courses[c]))
    }

    constructor(sessions: Dict<SessionId, Session>, courses: map<CourseId, seq<Student>>)
      requires DistinctKeys(sessions)
      requires forall c :: c in courses ==> DistinctIds(courses[c])
      ensures Valid()
      ensures this.sessions == sessions && this.courses == courses
      ensures records == [] && summaries == []
    {
      this.sessions := sessions;
      this.courses := courses;
      records := [];
      summaries := [];
    }
  }
}
