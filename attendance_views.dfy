/**
  The attendance views: summary recounting, manual and photo-based marking, the session
  and course reports, the absentee query and the role dispatch. Templates, redirects,
  messages and e-mail are not modelled; what a view decides is returned as an outcome,
  and the notifications it sends are returned as the lists of students they go to.
 */
module AttendanceViews {
  import opened Wrappers
  import opened Dict
  import opened FaceRecognition
  import opened AttendanceModels

  /** `update_summary`: recount, store the summary under (student, course), and say whether the low-attendance warning fires. */
  method UpdateSummary(db: AttendanceDb, student: StudentId, course: CourseId, below: (nat, nat) -> bool)
    returns (summary: Summary, lowAlert: bool)
    requires db.Valid()
    modifies db`summaries
    ensures db.Valid()
    ensures summary == Recount(db.records, db.sessions, student, course)
    ensures db.summaries == Put(old(db.summaries), (student, course), summary)
    ensures lowAlert <==> LowAttendanceAlert(summary, below)
    ensures summary.classesAttended <= summary.totalClasses
  {
    AttendedAtMostHeld(db.records, db.sessions, student, course);
    var total := SessionCount(db.sessions, course);
    var attended := Attended(db.records, db.sessions, student, course);
    summary := Summary(total, attended);
    db.summaries := Put(db.summaries, (student, course), summary);
    lowAlert := below(summary.totalClasses, summary.classesAttended) && total >= 3;
  }

  /** The status of a student's record in a session, if there is one. */
  function StatusIn(records: Dict<RecordKey, Record>, session: SessionId, student: StudentId): Option<Status> {
    match Get(records, (session, student))
    case None => None
    case Some(r) => Some(r.status)
  }

  /** The roster's students whose record in the session has status `st`, in roster order. */
  function WithStatus(records: Dict<RecordKey, Record>, session: SessionId, roster: seq<Student>, st: Status): seq<StudentId> {
    if roster == [] then []
    else
      var rest := WithStatus(records, session, roster[..|roster| - 1], st);
      var s := roster[|roster| - 1];
      if StatusIn(records, session, s.id) == Some(st) then rest + [s.id] else rest
  }

  /** The roster's students for whom the recounted summary raises the low-attendance warning, in roster order. */
  function LowAlertIds(records: Dict<RecordKey, Record>, sessions: Dict<SessionId, Session>,
                       roster: seq<Student>, course: CourseId, below: (nat, nat) -> bool): seq<StudentId>
  {
    if roster == [] then []
    else
      var rest := LowAlertIds(records, sessions, roster[..|roster| - 1], course, below);
      var s := roster[|roster| - 1];
      if LowAttendanceAlert(Recount(records, sessions, s.id, course), below) then rest + [s.id] else rest
  }

  /** Membership in `WithStatus`: exactly the roster's students whose record has that status. */
  lemma {:induction false} WithStatusMembers(records: Dict<RecordKey, Record>, session: SessionId, roster: seq<Student>, st: Status)
    ensures forall id :: id in WithStatus(records, session, roster, st) <==>
              id in RosterIds(roster) && StatusIn(records, session, id) == Some(st)
  {
    if roster != [] {
      var init := roster[..|roster| - 1];
      WithStatusMembers(records, session, init, st);
      RosterIdsSnoc(roster);
    }
  }

  lemma {:induction false} RosterIdsSnoc(roster: seq<Student>)
    requires roster != []
    ensures RosterIds(roster) == RosterIds(roster[..|roster| - 1]) + [roster[|roster| - 1].id]
  {
    var ids := RosterIds(roster);
    var init := RosterIds(roster[..|roster| - 1]);
    assert |ids| == |init| + 1;
    forall i | 0 <= i < |ids| ensures ids[i] == (init + [roster[|roster| - 1].id])[i] {
      if i < |init| {
        assert roster[..|roster| - 1][i] == roster[i];
      }
    }
  }

  /** `WithStatus` only looks at the roster's records in that session. */
  lemma {:induction false} WithStatusFrame(r1: Dict<RecordKey, Record>, r2: Dict<RecordKey, Record>,
                                            session: SessionId, roster: seq<Student>, st: Status)
    requires forall j :: 0 <= j < |roster| ==> Get(r1, (session, roster[j].id)) == Get(r2, (session, roster[j].id))
    ensures WithStatus(r1, session, roster, st) == WithStatus(r2, session, roster, st)
  {
    if roster != [] {
      var init := roster[..|roster| - 1];
      assert forall j :: 0 <= j < |init| ==> init[j] == roster[j];
      WithStatusFrame(r1, r2, session, init, st);
    }
  }

  /** `LowAlertIds` only changes when some roster student's recount does. */
  lemma {:induction false} LowAlertIdsFrame(r1: Dict<RecordKey, Record>, r2: Dict<RecordKey, Record>, sessions: Dict<SessionId, Session>,
                                             roster: seq<Student>, course: CourseId, below: (nat, nat) -> bool)
    requires forall j :: 0 <= j < |roster| ==> Recount(r1, sessions, roster[j].id, course) == Recount(r2, sessions, roster[j].id, course)
    ensures LowAlertIds(r1, sessions, roster, course, below) == LowAlertIds(r2, sessions, roster, course, below)
  {
    if roster != [] {
      var init := roster[..|roster| - 1];
      assert forall j :: 0 <= j < |init| ==> init[j] == roster[j];
      LowAlertIdsFrame(r1, r2, sessions, init, course, below);
    }
  }

  /**
    The loop both marking views share: for every enrolled student in roster order,
    upsert the (session, student) record with the value `mark` chooses from the old
    one, collect the students saved as Absent, and recount the student's summary.
    Afterwards the roster's records are the marked ones and nothing else changed, every
    roster summary equals a recount over the final records (a later student's record
    never changes an earlier student's count), and the absentee and warning lists are
    those of the final tables.
   */
  method SaveRoster(db: AttendanceDb, session: SessionId, course: CourseId, roster: seq<Student>,
                    mark: (StudentId, Option<Record>) -> Record, below: (nat, nat) -> bool)
    returns (absentees: seq<StudentId>, lowAlerts: seq<StudentId>)
    requires db.Valid()
    requires DistinctIds(roster)
    modifies db`records, db`summaries
    ensures db.Valid()
    ensures forall j :: 0 <= j < |roster| ==>
              Get(db.records, (session, roster[j].id)) == Some(mark(roster[j].id, Get(old(db.records), (session, roster[j].id))))
    ensures forall k: RecordKey :: k.0 != session || k.1 !in RosterIds(roster) ==> Get(db.records, k) == Get(old(db.records), k)
    ensures forall j :: 0 <= j < |roster| ==>
              Get(db.summaries, (roster[j].id, course)) == Some(Recount(db.records, db.sessions, roster[j].id, course))
    ensures forall k: SummaryKey :: k.1 != course || k.0 !in RosterIds(roster) ==> Get(db.summaries, k) == Get(old(db.summaries), k)
    ensures absentees == WithStatus(db.records, session, roster, Absent)
    ensures lowAlerts == LowAlertIds(db.records, db.sessions, roster, course, below)
  {
    ghost var records0 := db.records;
    ghost var summaries0 := db.summaries;
    absentees := [];
    lowAlerts := [];
    for i := 0 to |roster|
      invariant db.Valid()
      invariant RosterSaved(records0, summaries0, db.records, db.summaries, db.sessions, session, course, roster,
                            mark, below, i, absentees, lowAlerts)
    {
      var student := roster[i];
      ghost var recordsBefore, summariesBefore := db.records, db.summaries;
      var record, alert := SaveStudent(db, session, course, student.id, mark, below);
      SaveStep(records0, summaries0, recordsBefore, summariesBefore, db.sessions, session, course, roster,
               mark, below, i, absentees, lowAlerts, db.records, db.summaries,
               if record.status == Absent then absentees + [student.id] else absentees,
               if alert then lowAlerts + [student.id] else lowAlerts);
      if record.status == Absent {
        absentees := absentees + [student.id];
      }
      if alert {
        lowAlerts := lowAlerts + [student.id];
      }
    }
    RosterSavedAll(records0, summaries0, db.records, db.summaries, db.sessions, session, course, roster,
                   mark, below, absentees, lowAlerts);
  }

  /** The loop body of both marking views for one student: upsert the (session, student) record with the value `mark` chooses from the old one, then `update_summary`. */
  method SaveStudent(db: AttendanceDb, session: SessionId, course: CourseId, id: StudentId,
                     mark: (StudentId, Option<Record>) -> Record, below: (nat, nat) -> bool)
    returns (record: Record, lowAlert: bool)
    requires db.Valid()
    modifies db`records, db`summaries
    ensures db.Valid()
    ensures record == mark(id, Get(old(db.records), (session, id)))
    ensures db.records == Put(old(db.records), (session, id), record)
    ensures db.summaries == Put(old(db.summaries), (id, course), Recount(db.records, db.sessions, id, course))
    ensures lowAlert <==> LowAttendanceAlert(Recount(db.records, db.sessions, id, course), below)
  {
    var key := (session, id);
    record := mark(id, Get(db.records, key));
    db.records := Put(db.records, key, record);
    var summary;
    summary, lowAlert := UpdateSummary(db, id, course, below);
  }

  /** The state of `SaveRoster` after the last student, stated over the whole roster. */
  lemma RosterSavedAll(records0: Dict<RecordKey, Record>, summaries0: Dict<SummaryKey, Summary>,
                       records: Dict<RecordKey, Record>, summaries: Dict<SummaryKey, Summary>,
                       sessions: Dict<SessionId, Session>, session: SessionId, course: CourseId, roster: seq<Student>,
                       mark: (StudentId, Option<Record>) -> Record, below: (nat, nat) -> bool,
                       absentees: seq<StudentId>, lowAlerts: seq<StudentId>)
    requires RosterSaved(records0, summaries0, records, summaries, sessions, session, course, roster,
                         mark, below, |roster|, absentees, lowAlerts)
    ensures forall j :: 0 <= j < |roster| ==>
              Get(records, (session, roster[j].id)) == Some(mark(roster[j].id, Get(records0, (session, roster[j].id))))
    ensures forall k: RecordKey :: k.0 != session || k.1 !in RosterIds(roster) ==> Get(records, k) == Get(records0, k)
    ensures forall j :: 0 <= j < |roster| ==>
              Get(summaries, (roster[j].id, course)) == Some(Recount(records, sessions, roster[j].id, course))
    ensures forall k: SummaryKey :: k.1 != course || k.0 !in RosterIds(roster) ==> Get(summaries, k) == Get(summaries0, k)
    ensures absentees == WithStatus(records, session, roster, Absent)
    ensures lowAlerts == LowAlertIds(records, sessions, roster, course, below)
  {
    assert roster[..|roster|] == roster;
    assert RosterIds(roster)[..|roster|] == RosterIds(roster);
  }

  /** The state of `SaveRoster` after the first `i` students. */
  ghost predicate RosterSaved(records0: Dict<RecordKey, Record>, summaries0: Dict<SummaryKey, Summary>,
                              records: Dict<RecordKey, Record>, summaries: Dict<SummaryKey, Summary>,
                              sessions: Dict<SessionId, Session>, session: SessionId, course: CourseId, roster: seq<Student>,
                              mark: (StudentId, Option<Record>) -> Record, below: (nat, nat) -> bool,
                              i: nat, absentees: seq<StudentId>, lowAlerts: seq<StudentId>)
  {
    && i <= |roster|
    && (forall j :: 0 <= j < i ==>
          Get(records, (session, roster[j].id)) == Some(mark(roster[j].id, Get(records0, (session, roster[j].id)))))
    && (forall k: RecordKey :: k.0 != session || k.1 !in RosterIds(roster)[..i] ==> Get(records, k) == Get(records0, k))
    && (forall j :: 0 <= j < i ==>
          Get(summaries, (roster[j].id, course)) == Some(Recount(records, sessions, roster[j].id, course)))
    && (forall k: SummaryKey :: k.1 != course || k.0 !in RosterIds(roster)[..i] ==> Get(summaries, k) == Get(summaries0, k))
    && absentees == WithStatus(records, session, roster[..i], Absent)
    && lowAlerts == LowAlertIds(records, sessions, roster[..i], course, below)
  }

  /** One iteration of `SaveRoster` keeps `RosterSaved`. */
  lemma SaveStep(records0: Dict<RecordKey, Record>, summaries0: Dict<SummaryKey, Summary>,
                 records: Dict<RecordKey, Record>, summaries: Dict<SummaryKey, Summary>,
                 sessions: Dict<SessionId, Session>, session: SessionId, course: CourseId, roster: seq<Student>,
                 mark: (StudentId, Option<Record>) -> Record, below: (nat, nat) -> bool,
                 i: nat, absentees: seq<StudentId>, lowAlerts: seq<StudentId>,
                 records': Dict<RecordKey, Record>, summaries': Dict<SummaryKey, Summary>,
                 absentees': seq<StudentId>, lowAlerts': seq<StudentId>)
    requires DistinctKeys(records) && DistinctKeys(summaries) && DistinctIds(roster)
    requires i < |roster|
    requires RosterSaved(records0, summaries0, records, summaries, sessions, session, course, roster, mark, below, i, absentees, lowAlerts)
    requires records' == Put(records, (session, roster[i].id), mark(roster[i].id, Get(records, (session, roster[i].id))))
    requires summaries' == Put(summaries, (roster[i].id, course), Recount(records', sessions, roster[i].id, course))
    requires absentees' == if mark(roster[i].id, Get(records, (session, roster[i].id))).status == Absent
                           then absentees + [roster[i].id] else absentees
    requires lowAlerts' == if LowAttendanceAlert(Recount(records', sessions, roster[i].id, course), below)
                           then lowAlerts + [roster[i].id] else lowAlerts
    ensures RosterSaved(records0, summaries0, records', summaries', sessions, session, course, roster,
                        mark, below, i + 1, absentees', lowAlerts')
  {
    var id := roster[i].id;
    var key := (session, id);
    var record := mark(id, Get(records, key));
    NotEarlier(roster, i);
    StepRecords(records0, records, session, roster, mark, i);
    StepSummaries(summaries0, summaries, records, records', sessions, session, course, roster, i, key, record);
    RecordStep(records, records', sessions, session, roster, i, key, record, course, below);
    if record.status != Absent { assert absentees + [] == absentees; }
    if !LowAttendanceAlert(Recount(records', sessions, id, course), below) { assert lowAlerts + [] == lowAlerts; }
  }

  lemma StepRecords(records0: Dict<RecordKey, Record>, records: Dict<RecordKey, Record>, session: SessionId,
                    roster: seq<Student>, mark: (StudentId, Option<Record>) -> Record, i: nat)
    requires DistinctKeys(records) && DistinctIds(roster)
    requires i < |roster|
    requires forall j :: 0 <= j < i ==>
               Get(records, (session, roster[j].id)) == Some(mark(roster[j].id, Get(records0, (session, roster[j].id))))
    requires forall k: RecordKey :: k.0 != session || k.1 !in RosterIds(roster)[..i] ==> Get(records, k) == Get(records0, k)
    ensures var id := roster[i].id;
            var records' := Put(records, (session, id), mark(id, Get(records, (session, id))));
            && (forall j :: 0 <= j < i + 1 ==>
                  Get(records', (session, roster[j].id)) == Some(mark(roster[j].id, Get(records0, (session, roster[j].id)))))
            && (forall k: RecordKey :: k.0 != session || k.1 !in RosterIds(roster)[..i + 1] ==> Get(records', k) == Get(records0, k))
  {
    NotEarlier(roster, i);
    var id := roster[i].id;
    var record := mark(id, Get(records, (session, id)));
    MarkedPrefix(records0, records, session, roster, mark, i, record);
    UntouchedKeys(records0, records, session, roster, i, record);
  }

  /** A student's id does not occur earlier on a roster without duplicates. */
  lemma NotEarlier(roster: seq<Student>, i: nat)
    requires DistinctIds(roster) && i < |roster|
    ensures roster[i].id !in RosterIds(roster)[..i]
    ensures forall j :: 0 <= j < i ==> roster[j].id != roster[i].id
  {
    var ids := RosterIds(roster);
    forall j | 0 <= j < i ensures ids[..i][j] != roster[i].id {
      assert roster[j].id != roster[i].id;
    }
  }

  lemma MarkedPrefix(records0: Dict<RecordKey, Record>, records: Dict<RecordKey, Record>, session: SessionId,
                     roster: seq<Student>, mark: (StudentId, Option<Record>) -> Record, i: nat, record: Record)
    requires DistinctKeys(records)
    requires i < |roster|
    requires forall j :: 0 <= j < i ==> roster[j].id != roster[i].id
    requires forall j :: 0 <= j < i ==>
               Get(records, (session, roster[j].id)) == Some(mark(roster[j].id, Get(records0, (session, roster[j].id))))
    requires record == mark(roster[i].id, Get(records0, (session, roster[i].id)))
    ensures forall j :: 0 <= j < i + 1 ==>
              Get(Put(records, (session, roster[i].id), record), (session, roster[j].id))
              == Some(mark(roster[j].id, Get(records0, (session, roster[j].id))))
  {
    var records' := Put(records, (session, roster[i].id), record);
    forall j | 0 <= j < i + 1
      ensures Get(records', (session, roster[j].id)) == Some(mark(roster[j].id, Get(records0, (session, roster[j].id))))
    {
      if j < i {
        assert (session, roster[j].id) != (session, roster[i].id);
        assert Get(records', (session, roster[j].id)) == Get(records, (session, roster[j].id));
      }
    }
  }

  lemma UntouchedKeys(records0: Dict<RecordKey, Record>, records: Dict<RecordKey, Record>, session: SessionId,
                      roster: seq<Student>, i: nat, record: Record)
    requires DistinctKeys(records) && i < |roster|
    requires forall k: RecordKey :: k.0 != session || k.1 !in RosterIds(roster)[..i] ==> Get(records, k) == Get(records0, k)
    ensures forall k: RecordKey :: k.0 != session || k.1 !in RosterIds(roster)[..i + 1] ==>
              Get(Put(records, (session, roster[i].id), record), k) == Get(records0, k)
  {
    var ids := RosterIds(roster);
    assert ids[..i + 1] == ids[..i] + [roster[i].id];
    forall k: RecordKey | k.0 != session || k.1 !in ids[..i + 1]
      ensures Get(Put(records, (session, roster[i].id), record), k) == Get(records0, k)
    {
      assert k != (session, roster[i].id);
      assert k.0 != session || k.1 !in ids[..i];
    }
  }

  lemma StepSummaries(summaries0: Dict<SummaryKey, Summary>, summaries: Dict<SummaryKey, Summary>,
                      records: Dict<RecordKey, Record>, records': Dict<RecordKey, Record>, sessions: Dict<SessionId, Session>,
                      session: SessionId, course: CourseId, roster: seq<Student>, i: nat, key: RecordKey, record: Record)
    requires DistinctKeys(records) && DistinctKeys(summaries)
    requires i < |roster| && key == (session, roster[i].id) && records' == Put(records, key, record)
    requires forall j :: 0 <= j < i ==> roster[j].id != roster[i].id
    requires forall j :: 0 <= j < i ==>
               Get(summaries, (roster[j].id, course)) == Some(Recount(records, sessions, roster[j].id, course))
    requires forall k: SummaryKey :: k.1 != course || k.0 !in RosterIds(roster)[..i] ==> Get(summaries, k) == Get(summaries0, k)
    ensures var id := roster[i].id;
            var summaries' := Put(summaries, (id, course), Recount(records', sessions, id, course));
            && (forall j :: 0 <= j < i + 1 ==>
                  Get(summaries', (roster[j].id, course)) == Some(Recount(records', sessions, roster[j].id, course)))
            && (forall k: SummaryKey :: k.1 != course || k.0 !in RosterIds(roster)[..i + 1] ==> Get(summaries', k) == Get(summaries0, k))
  {
    var id := roster[i].id;
    var summary := Recount(records', sessions, id, course);
    forall j | 0 <= j < i
      ensures Recount(records', sessions, roster[j].id, course) == Recount(records, sessions, roster[j].id, course)
    {
      AttendedPutOther(records, sessions, roster[j].id, course, key, record);
    }
    SummariesPrefix(summaries, records', sessions, course, roster, i, summary);
    UntouchedSummaries(summaries0, summaries, course, roster, i, summary);
  }

  lemma SummariesPrefix(summaries: Dict<SummaryKey, Summary>, records: Dict<RecordKey, Record>, sessions: Dict<SessionId, Session>,
                        course: CourseId, roster: seq<Student>, i: nat, summary: Summary)
    requires DistinctKeys(summaries)
    requires i < |roster|
    requires forall j :: 0 <= j < i ==> roster[j].id != roster[i].id
    requires forall j :: 0 <= j < i ==>
               Get(summaries, (roster[j].id, course)) == Some(Recount(records, sessions, roster[j].id, course))
    requires summary == Recount(records, sessions, roster[i].id, course)
    ensures forall j :: 0 <= j < i + 1 ==>
              Get(Put(summaries, (roster[i].id, course), summary), (roster[j].id, course))
              == Some(Recount(records, sessions, roster[j].id, course))
  {
    var summaries' := Put(summaries, (roster[i].id, course), summary);
    forall j | 0 <= j < i + 1
      ensures Get(summaries', (roster[j].id, course)) == Some(Recount(records, sessions, roster[j].id, course))
    {
      if j < i {
        assert (roster[j].id, course) != (roster[i].id, course);
        assert Get(summaries', (roster[j].id, course)) == Get(summaries, (roster[j].id, course));
      }
    }
  }

  lemma UntouchedSummaries(summaries0: Dict<SummaryKey, Summary>, summaries: Dict<SummaryKey, Summary>,
                           course: CourseId, roster: seq<Student>, i: nat, summary: Summary)
    requires DistinctKeys(summaries) && i < |roster|
    requires forall k: SummaryKey :: k.1 != course || k.0 !in RosterIds(roster)[..i] ==> Get(summaries, k) == Get(summaries0, k)
    ensures forall k: SummaryKey :: k.1 != course || k.0 !in RosterIds(roster)[..i + 1] ==>
              Get(Put(summaries, (roster[i].id, course), summary), k) == Get(summaries0, k)
  {
    var ids := RosterIds(roster);
    assert ids[..i + 1] == ids[..i] + [roster[i].id];
    forall k: SummaryKey | k.1 != course || k.0 !in ids[..i + 1]
      ensures Get(Put(summaries, (roster[i].id, course), summary), k) == Get(summaries0, k)
    {
      assert k != (roster[i].id, course);
      assert k.1 != course || k.0 !in ids[..i];
    }
  }

  /** What upserting roster student `i`'s record leaves unchanged for the other roster students. */
  lemma RecordStep(before: Dict<RecordKey, Record>, after: Dict<RecordKey, Record>, sessions: Dict<SessionId, Session>,
                   session: SessionId, roster: seq<Student>, i: nat, key: RecordKey, record: Record,
                   course: CourseId, below: (nat, nat) -> bool)
    requires DistinctKeys(before) && DistinctIds(roster)
    requires i < |roster| && key == (session, roster[i].id)
    requires after == Put(before, key, record)
    ensures WithStatus(after, session, roster[..i + 1], Absent)
         == WithStatus(before, session, roster[..i], Absent) + (if record.status == Absent then [roster[i].id] else [])
    ensures LowAlertIds(after, sessions, roster[..i + 1], course, below)
         == LowAlertIds(before, sessions, roster[..i], course, below)
            + (if LowAttendanceAlert(Recount(after, sessions, roster[i].id, course), below) then [roster[i].id] else [])
  {
    assert roster[..i + 1][..i] == roster[..i];
    NotEarlier(roster, i);
    AbsentStep(before, after, session, roster, i, key, record);
    AlertStep(before, after, sessions, session, roster, i, key, record, course, below);
  }

  lemma AbsentStep(before: Dict<RecordKey, Record>, after: Dict<RecordKey, Record>,
                   session: SessionId, roster: seq<Student>, i: nat, key: RecordKey, record: Record)
    requires DistinctKeys(before)
    requires i < |roster| && key == (session, roster[i].id)
    requires forall j :: 0 <= j < i ==> roster[j].id != roster[i].id
    requires after == Put(before, key, record)
    requires roster[..i + 1][..i] == roster[..i]
    ensures WithStatus(after, session, roster[..i + 1], Absent)
         == WithStatus(before, session, roster[..i], Absent) + (if record.status == Absent then [roster[i].id] else [])
  {
    var init := roster[..i];
    forall j | 0 <= j < |init| ensures Get(after, (session, init[j].id)) == Get(before, (session, init[j].id)) {
      assert init[j] == roster[j];
      assert (session, init[j].id) != key;
    }
    WithStatusFrame(after, before, session, init, Absent);
    assert StatusIn(after, session, roster[i].id) == Some(record.status);
  }

  lemma AlertStep(before: Dict<RecordKey, Record>, after: Dict<RecordKey, Record>, sessions: Dict<SessionId, Session>,
                  session: SessionId, roster: seq<Student>, i: nat, key: RecordKey, record: Record,
                  course: CourseId, below: (nat, nat) -> bool)
    requires DistinctKeys(before)
    requires i < |roster| && key == (session, roster[i].id)
    requires forall j :: 0 <= j < i ==> roster[j].id != roster[i].id
    requires after == Put(before, key, record)
    requires roster[..i + 1][..i] == roster[..i]
    ensures LowAlertIds(after, sessions, roster[..i + 1], course, below)
         == LowAlertIds(before, sessions, roster[..i], course, below)
            + (if LowAttendanceAlert(Recount(after, sessions, roster[i].id, course), below) then [roster[i].id] else [])
  {
    var init := roster[..i];
    forall j | 0 <= j < |init|
      ensures Recount(after, sessions, init[j].id, course) == Recount(before, sessions, init[j].id, course)
    {
      assert init[j] == roster[j];
      AttendedPutOther(before, sessions, init[j].id, course, key, record);
    }
    LowAlertIdsFrame(after, before, sessions, init, course, below);
  }

  /** The status the bulk form carries for a student: the submitted choice, Absent when the field is missing. */
  function FormStatus(form: map<StudentId, Status>, id: StudentId): Status {
    if id in form then form[id] else Absent
  }

  /** Manual marking writes only the status; a new record starts out not AI-verified. */
  function ManualMark(form: map<StudentId, Status>): (StudentId, Option<Record>) -> Record {
    (id: StudentId, prev: Option<Record>) =>
      match prev
      case Some(r) => r.(status := FormStatus(form, id))
      case None => Record(FormStatus(form, id), false)
  }

  /** AI marking writes Present and AI-verified for a recognized student, Absent and not verified otherwise. */
  function AiMark(recognized: set<StudentId>): (StudentId, Option<Record>) -> Record {
    (id: StudentId, prev: Option<Record>) =>
      Record(if id in recognized then Present else Absent, id in recognized)
  }

  /** The AI flag an upsert that only sets the status leaves in place. */
  function KeptAiFlag(prev: Option<Record>): bool {
    match prev
    case Some(r) => r.aiVerified
    case None => false
  }

  /** Whether any record of the session exists (`already_marked`). */
  predicate HasRecordsFor(records: Dict<RecordKey, Record>, session: SessionId) {
    exists i :: 0 <= i < |records| && records[i].0.0 == session
  }

  /** Whether the requester is the faculty member who created the session. */
  predicate CreatedBy(s: Session, faculty: Option<FacultyId>) {
    faculty == Some(s.createdBy)
  }

  datatype MarkOutcome =
    | SessionNotFound
    | NotAuthorized
    | FormShown(alreadyMarked: bool, studentCount: nat)
    | Saved(absentees: seq<StudentId>, lowAlerts: seq<StudentId>)

  /**
    `mark_attendance`: only the session's creator may mark it; a valid POST saves one
    record per enrolled student, with the submitted status (Absent when the field is
    missing) and the old AI flag, and returns the students noticed as absent, one
    notification each, and those whose low-attendance warning fired; anything else
    changes nothing.
   */
  method MarkAttendance(db: AttendanceDb, session: SessionId, faculty: Option<FacultyId>,
                        isPost: bool, formValid: bool, form: map<StudentId, Status>, below: (nat, nat) -> bool)
    returns (out: MarkOutcome)
    requires db.Valid()
    modifies db`records, db`summaries
    ensures db.Valid()
    ensures out.SessionNotFound? <==> Get(db.sessions, session).None?
    ensures out.NotAuthorized? <==> Get(db.sessions, session).Some? && !CreatedBy(Get(db.sessions, session).value, faculty)
    ensures out.Saved? <==> Get(db.sessions, session).Some? && CreatedBy(Get(db.sessions, session).value, faculty) && isPost && formValid
    ensures !out.Saved? ==> db.records == old(db.records) && db.summaries == old(db.summaries)
    ensures out.FormShown? ==>
              && out.alreadyMarked == HasRecordsFor(db.records, session)
              && out.studentCount == |RosterOf(db.courses, Get(db.sessions, session).value.course)|
    ensures out.Saved? ==>
              ManualMarksSaved(old(db.records), old(db.summaries), db.records, db.summaries, db.sessions,
                               session, RosterOf(db.courses, Get(db.sessions, session).value.course),
                               Get(db.sessions, session).value.course, form, below, out.absentees, out.lowAlerts)
  {
    var found := Get(db.sessions, session);
    if found.None? {
      return SessionNotFound;
    }
    var s := found.value;
    if faculty != Some(s.createdBy) {
      return NotAuthorized;
    }
    var roster := RosterOf(db.courses, s.course);
    var alreadyMarked := exists i | 0 <= i < |db.records| :: db.records[i].0.0 == session;
    if !(isPost && formValid) {
      return FormShown(alreadyMarked, |roster|);
    }
    var absentees, lowAlerts := SaveManualMarks(db, session, s.course, roster, form, below);
    assert Get(db.sessions, session) == found && roster == RosterOf(db.courses, s.course);
    return Saved(absentees, lowAlerts);
  }

  /** The saving half of `mark_attendance`: the roster loop with the manual upsert. */
  method SaveManualMarks(db: AttendanceDb, session: SessionId, course: CourseId, roster: seq<Student>,
                         form: map<StudentId, Status>, below: (nat, nat) -> bool)
    returns (absentees: seq<StudentId>, lowAlerts: seq<StudentId>)
    requires db.Valid() && DistinctIds(roster)
    modifies db`records, db`summaries
    ensures db.Valid()
    ensures ManualMarksSaved(old(db.records), old(db.summaries), db.records, db.summaries, db.sessions,
                             session, roster, course, form, below, absentees, lowAlerts)
  {
    ghost var records0 := db.records;
    absentees, lowAlerts := SaveRoster(db, session, course, roster, ManualMark(form), below);
    ManualMarkKeepsFlag(form, db.records, records0, session, roster);
    AbsenteesByStatus(db.records, session, roster, (id: StudentId) => FormStatus(form, id));
  }

  /**
    The tables after a submitted manual marking of `session` with the roster of `course`:
    every enrolled student's record carries the submitted status and the old AI flag,
    other records are as before; every enrolled student's summary is the recount over
    the new records, other summaries are as before; the absentees are exactly the
    enrolled students submitted as (or defaulted to) Absent, in roster order, and the
    warnings those the recount raises.
   */
  ghost predicate ManualMarksSaved(records0: Dict<RecordKey, Record>, summaries0: Dict<SummaryKey, Summary>,
                                   records: Dict<RecordKey, Record>, summaries: Dict<SummaryKey, Summary>,
                                   sessions: Dict<SessionId, Session>, session: SessionId, roster: seq<Student>,
                                   course: CourseId, form: map<StudentId, Status>, below: (nat, nat) -> bool,
                                   absentees: seq<StudentId>, lowAlerts: seq<StudentId>)
  {
    && (forall j :: 0 <= j < |roster| ==>
          Get(records, (session, roster[j].id))
          == Some(Record(FormStatus(form, roster[j].id), KeptAiFlag(Get(records0, (session, roster[j].id))))))
    && (forall k: RecordKey :: k.0 != session || k.1 !in RosterIds(roster) ==> Get(records, k) == Get(records0, k))
    && RosterSummaries(summaries0, records, summaries, sessions, roster, course)
    && absentees == WithStatus(records, session, roster, Absent)
    && (forall id :: id in absentees <==> id in RosterIds(roster) && FormStatus(form, id) == Absent)
    && lowAlerts == LowAlertIds(records, sessions, roster, course, below)
  }

  /** Every enrolled student's summary is the recount over `records`; other summaries are as in `summaries0`. */
  ghost predicate RosterSummaries(summaries0: Dict<SummaryKey, Summary>, records: Dict<RecordKey, Record>,
                                  summaries: Dict<SummaryKey, Summary>, sessions: Dict<SessionId, Session>,
                                  roster: seq<Student>, course: CourseId)
  {
    && (forall j :: 0 <= j < |roster| ==>
          Get(summaries, (roster[j].id, course)) == Some(Recount(records, sessions, roster[j].id, course)))
    && (forall k: SummaryKey :: k.1 != course || k.0 !in RosterIds(roster) ==> Get(summaries, k) == Get(summaries0, k))
  }

  lemma ManualMarkKeepsFlag(form: map<StudentId, Status>, records: Dict<RecordKey, Record>, records0: Dict<RecordKey, Record>,
                            session: SessionId, roster: seq<Student>)
    requires forall j :: 0 <= j < |roster| ==>
               Get(records, (session, roster[j].id)) == Some(ManualMark(form)(roster[j].id, Get(records0, (session, roster[j].id))))
    ensures forall j :: 0 <= j < |roster| ==>
              Get(records, (session, roster[j].id))
              == Some(Record(FormStatus(form, roster[j].id), KeptAiFlag(Get(records0, (session, roster[j].id)))))
    ensures forall j :: 0 <= j < |roster| ==> StatusIn(records, session, roster[j].id) == Some(FormStatus(form, roster[j].id))
  {
    forall j | 0 <= j < |roster|
      ensures Get(records, (session, roster[j].id))
              == Some(Record(FormStatus(form, roster[j].id), KeptAiFlag(Get(records0, (session, roster[j].id)))))
    {
      var prev := Get(records0, (session, roster[j].id));
      assert ManualMark(form)(roster[j].id, prev) == Record(FormStatus(form, roster[j].id), KeptAiFlag(prev));
    }
  }

  /** When every roster student's record has the status `statusOf` gives, the Absent list is the students it calls absent. */
  lemma AbsenteesByStatus(records: Dict<RecordKey, Record>, session: SessionId, roster: seq<Student>, statusOf: StudentId -> Status)
    requires forall j :: 0 <= j < |roster| ==> StatusIn(records, session, roster[j].id) == Some(statusOf(roster[j].id))
    ensures forall id :: id in WithStatus(records, session, roster, Absent) <==> id in RosterIds(roster) && statusOf(id) == Absent
  {
    WithStatusMembers(records, session, roster, Absent);
    forall id | id in RosterIds(roster) ensures StatusIn(records, session, id) == Some(statusOf(id)) {
      var j :| 0 <= j < |roster| && RosterIds(roster)[j] == id;
    }
  }

  datatype AiMarkOutcome =
    | AiSessionNotFound
    | AiNotAuthorized
    | UploadFormShown
    | NoStudentsEnrolled
    | NoProfilePhotos
    | NoFacesFound
    | AiSaved(totalFaces: nat, recognized: set<StudentId>, unrecognized: nat,
              presentCount: int, absentees: seq<StudentId>, lowAlerts: seq<StudentId>)

  /**
    `ai_mark_attendance`. Only the session's creator may use it, and only a valid upload
    does anything; it stops, writing nothing, when nobody is enrolled, when no enrolled
    student has a usable photo (manual marking takes over), and when the service reports
    no faces (none found, or the library failed). Otherwise every enrolled student is
    saved as Present and AI-verified exactly when the service recognized them, and as
    Absent and not verified otherwise; each absentee is notified during the loop and the
    faculty member gets one summary afterwards, the `AiSaved` outcome. The number present
    is the roster size less the absentees, which is the number of Present records.
   */
  method AiMarkAttendance(db: AttendanceDb, session: SessionId, faculty: Option<FacultyId>,
                          isPost: bool, formValid: bool,
                          pathExists: string -> bool, load: string -> LibraryResult, detection: LibraryResult,
                          distance: (Encoding, Encoding) -> real, isMatch: (Encoding, Encoding) -> bool,
                          below: (nat, nat) -> bool)
    returns (out: AiMarkOutcome)
    requires db.Valid()
    modifies db`records, db`summaries
    ensures db.Valid()
    ensures out.AiSessionNotFound? <==> Get(db.sessions, session).None?
    ensures out.AiNotAuthorized? <==> Get(db.sessions, session).Some? && !CreatedBy(Get(db.sessions, session).value, faculty)
    ensures out.UploadFormShown? <==>
              Get(db.sessions, session).Some? && CreatedBy(Get(db.sessions, session).value, faculty) && !(isPost && formValid)
    ensures !out.AiSaved? ==> db.records == old(db.records) && db.summaries == old(db.summaries)
    ensures Get(db.sessions, session).Some? && CreatedBy(Get(db.sessions, session).value, faculty) && isPost && formValid ==>
              var course := Get(db.sessions, session).value.course;
              var roster := RosterOf(db.courses, course);
              var known := Registry(roster, pathExists, load);
              && (out.NoStudentsEnrolled? <==> roster == [])
              && (out.NoProfilePhotos? <==> roster != [] && known == [])
              && (out.NoFacesFound? <==> roster != [] && known != [] && (detection.LibraryError? || detection.faces == []))
              && (out.AiSaved? ==>
                    && detection.Encodings?
                    && out.totalFaces == |detection.faces| > 0
                    && out.recognized == (set id | id in Assignments(detection.faces, known, distance, isMatch))
                    && out.unrecognized == |detection.faces| - |Assignments(detection.faces, known, distance, isMatch)|
                    && (forall id :: id in out.recognized ==> id in RosterIds(roster))
                    && AiMarksSaved(old(db.records), old(db.summaries), db.records, db.summaries, db.sessions,
                                    session, roster, course, out.recognized, below, out.absentees, out.lowAlerts)
                    && out.presentCount == |WithStatus(db.records, session, roster, Present)|)
  {
    var found := Get(db.sessions, session);
    if found.None? {
      return AiSessionNotFound;
    }
    var s := found.value;
    if faculty != Some(s.createdBy) {
      return AiNotAuthorized;
    }
    if !(isPost && formValid) {
      return UploadFormShown;
    }
    var roster := RosterOf(db.courses, s.course);
    if roster == [] {
      return NoStudentsEnrolled;
    }
    var known := GetKnownEncodings(roster, pathExists, load);
    if known == [] {
      return NoProfilePhotos;
    }
    var result := RecognizeFacesInImage(detection, known, distance, isMatch);
    if result.totalFaces == 0 {
      return NoFacesFound;
    }
    assert detection.Encodings? && detection.faces != [];
    var recognized := result.recognizedIds;
    forall id | id in recognized ensures id in RosterIds(roster) {
      assert HasKey(known, id);
    }
    var absentees, lowAlerts := SaveAiMarks(db, session, s.course, roster, recognized, below);
    var presentCount := |roster| - |absentees|;
    return AiSaved(result.totalFaces, recognized, result.unrecognized, presentCount, absentees, lowAlerts);
  }

  /** The saving half of `ai_mark_attendance`: the roster loop with the recognition-driven upsert. */
  method SaveAiMarks(db: AttendanceDb, session: SessionId, course: CourseId, roster: seq<Student>,
                     recognized: set<StudentId>, below: (nat, nat) -> bool)
    returns (absentees: seq<StudentId>, lowAlerts: seq<StudentId>)
    requires db.Valid() && DistinctIds(roster)
    modifies db`records, db`summaries
    ensures db.Valid()
    ensures AiMarksSaved(old(db.records), old(db.summaries), db.records, db.summaries, db.sessions,
                         session, roster, course, recognized, below, absentees, lowAlerts)
    ensures |roster| - |absentees| == |WithStatus(db.records, session, roster, Present)|
  {
    absentees, lowAlerts := SaveRoster(db, session, course, roster, AiMark(recognized), below);
    var statusOf := (id: StudentId) => if id in recognized then Present else Absent;
    forall j | 0 <= j < |roster|
      ensures Get(db.records, (session, roster[j].id))
              == Some(Record(if roster[j].id in recognized then Present else Absent, roster[j].id in recognized))
      ensures StatusIn(db.records, session, roster[j].id) == Some(statusOf(roster[j].id))
    {
    }
    AbsenteesByStatus(db.records, session, roster, statusOf);
    PresentOrAbsent(db.records, session, roster);
  }

  /**
    The tables after AI marking of `session` with the roster of `course`: every
    enrolled student's record is Present and AI-verified when recognized, Absent and not
    verified otherwise, other records are as before; the enrolled students' summaries
    are recounted, the absentees are exactly the enrolled students not recognized, in
    roster order, and the warnings those the recount raises.
   */
  ghost predicate AiMarksSaved(records0: Dict<RecordKey, Record>, summaries0: Dict<SummaryKey, Summary>,
                               records: Dict<RecordKey, Record>, summaries: Dict<SummaryKey, Summary>,
                               sessions: Dict<SessionId, Session>, session: SessionId, roster: seq<Student>,
                               course: CourseId, recognized: set<StudentId>, below: (nat, nat) -> bool,
                               absentees: seq<StudentId>, lowAlerts: seq<StudentId>)
  {
    && (forall j :: 0 <= j < |roster| ==>
          Get(records, (session, roster[j].id))
          == Some(Record(if roster[j].id in recognized then Present else Absent, roster[j].id in recognized)))
    && (forall k: RecordKey :: k.0 != session || k.1 !in RosterIds(roster) ==> Get(records, k) == Get(records0, k))
    && RosterSummaries(summaries0, records, summaries, sessions, roster, course)
    && absentees == WithStatus(records, session, roster, Absent)
    && (forall id :: id in absentees <==> id in RosterIds(roster) && id !in recognized)
    && lowAlerts == LowAlertIds(records, sessions, roster, course, below)
  }

  /** When every enrolled student's record is Present or Absent, the two lists split the roster. */
  lemma {:induction false} PresentOrAbsent(records: Dict<RecordKey, Record>, session: SessionId, roster: seq<Student>)
    requires forall j :: 0 <= j < |roster| ==> StatusIn(records, session, roster[j].id) in {Some(Present), Some(Absent)}
    ensures |WithStatus(records, session, roster, Present)| + |WithStatus(records, session, roster, Absent)| == |roster|
  {
    if roster != [] {
      var init := roster[..|roster| - 1];
      assert forall j :: 0 <= j < |init| ==> init[j] == roster[j];
      PresentOrAbsent(records, session, init);
    }
  }

  /** Records of `session` with status `st`. */
  function InSessionWith(session: SessionId, st: Status): ((RecordKey, Record)) -> bool {
    (e: (RecordKey, Record)) => e.0.0 == session && e.1.status == st
  }

  /** Records of `session`. */
  function InSession(session: SessionId): ((RecordKey, Record)) -> bool {
    (e: (RecordKey, Record)) => e.0.0 == session
  }

  datatype SessionCounts = SessionCounts(present: nat, absent: nat, late: nat, excused: nat, total: nat)

  /**
    `session_detail`'s counts: the session's records by status and in all; the four
    status counts add up to the total. An unknown session is a 404.
   */
  function SessionDetail(sessions: Dict<SessionId, Session>, records: Dict<RecordKey, Record>, session: SessionId)
    : (r: Option<SessionCounts>)
    ensures r.None? <==> !HasKey(sessions, session)
    ensures r.Some? ==> r.value.present + r.value.absent + r.value.late + r.value.excused == r.value.total
    ensures r.Some? ==> r.value.total <= |records|
  {
    if !HasKey(sessions, session) then None
    else
      StatusCountsPartition(records, session);
      Some(SessionCounts(
        CountWhere(records, InSessionWith(session, Present)),
        CountWhere(records, InSessionWith(session, Absent)),
        CountWhere(records, InSessionWith(session, Late)),
        CountWhere(records, InSessionWith(session, Excused)),
        CountWhere(records, InSession(session))))
  }

  lemma {:induction false} StatusCountsPartition(records: Dict<RecordKey, Record>, session: SessionId)
    ensures CountWhere(records, InSessionWith(session, Present)) + CountWhere(records, InSessionWith(session, Absent))
          + CountWhere(records, InSessionWith(session, Late)) + CountWhere(records, InSessionWith(session, Excused))
         == CountWhere(records, InSession(session))
  {
    if records != [] {
      StatusCountsPartition(records[1..], session);
    }
  }

  /**
    `detect_absentees`: the enrolled students without a Present record in the session;
    Late, Excused and unmarked students are all absentees here. An unknown session is a 404.
   */
  function DetectAbsentees(sessions: Dict<SessionId, Session>, courses: map<CourseId, seq<Student>>,
                           records: Dict<RecordKey, Record>, session: SessionId): (r: Option<set<StudentId>>)
    ensures r.None? <==> Get(sessions, session).None?
    ensures r.Some? ==>
              var roster := RosterOf(courses, Get(sessions, session).value.course);
              && (forall id :: id in r.value <==>
                    id in RosterIds(roster)
                    && !(exists i :: 0 <= i < |records| && records[i].0 == (session, id) && records[i].1.status == Present))
              && (DistinctKeys(records) ==>
                    forall id :: id in r.value <==> id in RosterIds(roster) && StatusIn(records, session, id) != Some(Present))
  {
    match Get(sessions, session)
    case None => None
    case Some(s) =>
      var roster := RosterOf(courses, s.course);
      var enrolled := set i | 0 <= i < |roster| :: roster[i].id;
      var marked := set i | 0 <= i < |records| && records[i].0.0 == session && records[i].1.status == Present :: records[i].0.1;
      assert forall id :: id in enrolled <==> id in RosterIds(roster) by {
        forall id | id in RosterIds(roster) ensures id in enrolled {
          var j :| 0 <= j < |roster| && RosterIds(roster)[j] == id;
        }
      }
      PresentRecordIff(records, session);
      Some(enrolled - marked)
  }

  /** With unique record keys, a Present row for (session, id) exists exactly when the stored status is Present. */
  lemma PresentRecordIff(records: Dict<RecordKey, Record>, session: SessionId)
    ensures DistinctKeys(records) ==>
              forall id: StudentId :: (exists i :: 0 <= i < |records| && records[i].0 == (session, id) && records[i].1.status == Present)
                           <==> StatusIn(records, session, id) == Some(Present)
  {
    if DistinctKeys(records) {
      forall id: StudentId ensures (exists i :: 0 <= i < |records| && records[i].0 == (session, id) && records[i].1.status == Present)
                        <==> StatusIn(records, session, id) == Some(Present)
      {
        var g := IndexOf(records, (session, id));
        if g.Some? {
          assert Get(records, (session, id)) == Some(records[g.value].1);
        }
      }
    }
  }

  /**
    Once every enrolled student has a Present or an Absent record, as after AI marking,
    `detect_absentees` reports exactly the students recorded Absent.
   */
  lemma {:induction false} AbsenteesAgreeWhenFullyMarked(sessions: Dict<SessionId, Session>, courses: map<CourseId, seq<Student>>,
                                                         records: Dict<RecordKey, Record>, session: SessionId, absentees: seq<StudentId>)
    requires DistinctKeys(records)
    requires Get(sessions, session).Some?
    requires var roster := RosterOf(courses, Get(sessions, session).value.course);
             && (forall j :: 0 <= j < |roster| ==> StatusIn(records, session, roster[j].id) in {Some(Present), Some(Absent)})
             && (forall id :: id in absentees <==> id in RosterIds(roster) && StatusIn(records, session, id) == Some(Absent))
    ensures DetectAbsentees(sessions, courses, records, session) == Some(set id | id in absentees)
  {
    var roster := RosterOf(courses, Get(sessions, session).value.course);
    var r := DetectAbsentees(sessions, courses, records, session).value;
    forall id ensures id in r <==> id in absentees {
      if id in RosterIds(roster) {
        var j :| 0 <= j < |roster| && RosterIds(roster)[j] == id;
        assert StatusIn(records, session, roster[j].id) in {Some(Present), Some(Absent)};
      }
    }
    assert r == set id | id in absentees;
  }

  /** A course-report cell: the record's status, or the dash for no record. */
  datatype Cell = Marked(status: Status) | NoRecord

  /** One row of the course report: the student, one cell per session, and the student's summary if any. */
  datatype ReportRow = ReportRow(student: StudentId, cells: seq<Cell>, summary: Option<Summary>)

  /** The cell for a student in a session: the stored status, or the dash exactly when there is no record. */
  function CellFor(records: Dict<RecordKey, Record>, session: SessionId, student: StudentId): (c: Cell)
    ensures c.NoRecord? <==> !HasKey(records, (session, student))
    ensures c.Marked? ==> StatusIn(records, session, student) == Some(c.status)
  {
    match Get(records, (session, student))
    case None => NoRecord
    case Some(r) => Marked(r.status)
  }

  /**
    `course_attendance_report`: one row per enrolled student in roster order, each with
    exactly one cell per session of the course in table order, the dash where there is
    no record, and the student's summary if one exists. An unknown course is a 404.
   */
  method CourseReport(db: AttendanceDb, course: CourseId) returns (report: Option<seq<ReportRow>>)
    ensures report.None? <==> course !in db.courses
    ensures report.Some? ==>
              var roster := db.courses[course];
              var sessionIds := CourseSessionIds(db.sessions, course);
              && |report.value| == |roster|
              && forall i :: 0 <= i < |roster| ==>
                   && report.value[i].student == roster[i].id
                   && report.value[i].summary == Get(db.summaries, (roster[i].id, course))
                   && |report.value[i].cells| == |sessionIds|
                   && forall j :: 0 <= j < |sessionIds| ==> report.value[i].cells[j] == CellFor(db.records, sessionIds[j], roster[i].id)
  {
    if course !in db.courses {
      return None;
    }
    var roster := db.courses[course];
    var sessionIds := CourseSessionIds(db.sessions, course);
    var matrix: seq<ReportRow> := [];
    for i := 0 to |roster|
      invariant |matrix| == i
      invariant forall r :: 0 <= r < i ==>
                  && matrix[r].student == roster[r].id
                  && matrix[r].summary == Get(db.summaries, (roster[r].id, course))
                  && |matrix[r].cells| == |sessionIds|
                  && forall j :: 0 <= j < |sessionIds| ==> matrix[r].cells[j] == CellFor(db.records, sessionIds[j], roster[r].id)
    {
      var student := roster[i];
      var cells: seq<Cell> := [];
      for j := 0 to |sessionIds|
        invariant |cells| == j
        invariant forall c :: 0 <= c < j ==> cells[c] == CellFor(db.records, sessionIds[c], student.id)
      {
        var found := Get(db.records, (sessionIds[j], student.id));
        if found.Some? {
          cells := cells + [Marked(found.value.status)];
        } else {
          cells := cells + [NoRecord];
        }
      }
      var summary := Get(db.summaries, (student.id, course));
      matrix := matrix + [ReportRow(student.id, cells, summary)];
    }
    return Some(matrix);
  }

  /** Where `dashboard` sends a user. */
  datatype Route = AdminDashboard | FacultyDashboard | StudentDashboard | NoRole

  /** `dashboard`: staff first, then a faculty profile, then a student profile, else the no-role page. */
  function Dashboard(isStaff: bool, faculty: Option<FacultyId>, student: Option<StudentId>): (r: Route)
    ensures r == AdminDashboard <==> isStaff
    ensures r == FacultyDashboard <==> !isStaff && faculty.Some?
    ensures r == StudentDashboard <==> !isStaff && faculty.None? && student.Some?
    ensures r == NoRole <==> !isStaff && faculty.None? && student.None?
  {
    if isStaff then AdminDashboard
    else if faculty.Some? then FacultyDashboard
    else if student.Some? then StudentDashboard
    else NoRole
  }
}
