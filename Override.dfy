/**
 * `updateManualStatus` of App.tsx: an operator sets one student's status for
 * one date. The first session of that date in list order is amended (the
 * student's records are rewritten, or one confidence-100 record is appended);
 * when the date has no session, a new one-record session is put at the front.
 */
module Override {
  import opened Seqs
  import opened Types
  import opened Consolidation

  /** `records.some(r => r.studentId === studentId)`. */
  predicate HasStudent(records: seq<AttendanceRecord>, studentId: string)
  {
    exists k | 0 <= k < |records| :: records[k].studentId == studentId
  }

  /** The record a manual entry creates: no note, confidence 100. */
  function ManualRecord(recordId: string, studentId: string, status: Status, date: string, now: int): AttendanceRecord
  {
    AttendanceRecord(recordId, date, studentId, status, None, 100, now)
  }

  /**
   * The new record list of the amended session (App.tsx:116-126): every record
   * of the student takes the new status and timestamp, or, when the student
   * has none, one manual record is appended.
   */
  function AmendRecords(records: seq<AttendanceRecord>, studentId: string, date: string, status: Status, now: int, recordId: string)
    : (r: seq<AttendanceRecord>)
    ensures HasStudent(r, studentId)
    ensures |records| <= |r| <= |records| + 1
  {
    if HasStudent(records, studentId) then
      var r := seq(|records|, k requires 0 <= k < |records| =>
        if records[k].studentId == studentId then records[k].(status := status, timestamp := now) else records[k]);
      assert HasStudent(r, studentId) by {
        var k :| 0 <= k < |records| && records[k].studentId == studentId;
        assert r[k].studentId == studentId;
      }
      r
    else
      var r := records + [ManualRecord(recordId, studentId, status, date, now)];
      assert r[|records|].studentId == studentId;
      r
  }

  /**
   * `updateManualStatus(studentId, date, newStatus)` (App.tsx:108-148) as a
   * function of the previous session list. `now`, `sessionId` and `recordId`
   * stand for `Date.now()` and the two `crypto.randomUUID()` calls.
   */
  function UpdateManualStatus(sessions: seq<Session>, studentId: string, date: string, status: Status,
                              now: int, sessionId: string, recordId: string): (r: seq<Session>)
    ensures |SameDay(sessions, date)| > 0 ==>
              |r| == |sessions| && forall k :: 0 <= k < |sessions| ==> r[k].(records := sessions[k].records) == sessions[k]
    ensures |SameDay(sessions, date)| == 0 ==>
              |r| == |sessions| + 1 && r[1..] == sessions && r[0].id == sessionId && r[0].date == date
  {
    var daySessions := SameDay(sessions, date);
    if |daySessions| > 0 then
      var firstId := daySessions[0].id;
      seq(|sessions|, k requires 0 <= k < |sessions| =>
        if sessions[k].id == firstId
        then sessions[k].(records := AmendRecords(sessions[k].records, studentId, date, status, now, recordId))
        else sessions[k])
    else
      [Session(sessionId, date, [ManualRecord(recordId, studentId, status, date, now)], "")] + sessions
  }

  /** No two sessions share an id (ids come from `crypto.randomUUID()`). */
  predicate UniqueSessionIds(sessions: seq<Session>)
  {
    forall i, j :: 0 <= i < j < |sessions| ==> sessions[i].id != sessions[j].id
  }

  /** Index of the first session held on `date`. */
  predicate FirstOnDate(sessions: seq<Session>, date: string, i: nat)
  {
    i < |sessions| && sessions[i].date == date && forall j :: 0 <= j < i ==> sessions[j].date != date
  }

  /** The first session of the date is the first element of the date filter. */
  lemma FirstOfSameDay(sessions: seq<Session>, date: string, i: nat)
    requires FirstOnDate(sessions, date, i)
    ensures |SameDay(sessions, date)| > 0 && SameDay(sessions, date)[0] == sessions[i]
  {
    FilterFirst(sessions, (s: Session) => s.date == date, i);
  }

  /**
   * When a session exists for the date: the list keeps its length, the first
   * session of the date is the only one amended (session ids being unique), and
   * every other session is unchanged.
   */
  lemma AmendsOnlyFirstSessionOfDate(sessions: seq<Session>, studentId: string, date: string, status: Status,
                                     now: int, sessionId: string, recordId: string, i: nat)
    requires FirstOnDate(sessions, date, i)
    requires UniqueSessionIds(sessions)
    ensures var after := UpdateManualStatus(sessions, studentId, date, status, now, sessionId, recordId);
            && |after| == |sessions|
            && after[i] == sessions[i].(records := AmendRecords(sessions[i].records, studentId, date, status, now, recordId))
            && forall j :: 0 <= j < |sessions| && j != i ==> after[j] == sessions[j]
  {
    FirstOfSameDay(sessions, date, i);
  }

  lemma NoSessionOnDate(sessions: seq<Session>, date: string)
    requires forall j :: 0 <= j < |sessions| ==> sessions[j].date != date
    ensures SameDay(sessions, date) == []
  {
    FilterNone(sessions, (s: Session) => s.date == date);
  }

  /** When no session exists for the date, one manual session is put in front. */
  lemma CreatesSessionWhenDateIsNew(sessions: seq<Session>, studentId: string, date: string, status: Status,
                                    now: int, sessionId: string, recordId: string)
    requires forall j :: 0 <= j < |sessions| ==> sessions[j].date != date
    ensures var after := UpdateManualStatus(sessions, studentId, date, status, now, sessionId, recordId);
            && |after| == |sessions| + 1
            && after[1..] == sessions
            && after[0].id == sessionId && after[0].date == date && after[0].classroomPhoto == ""
            && |after[0].records| == 1
            && after[0].records[0].studentId == studentId && after[0].records[0].status == status
            && after[0].records[0].confidence == 100 && after[0].records[0].date == date
  {
    NoSessionOnDate(sessions, date);
  }

  /**
   * Inside the amended session, when the student already has records: the
   * list keeps its length; each of the student's records takes the new status
   * and timestamp and keeps its id, date, note and confidence; every other
   * record is unchanged.
   */
  lemma AmendReplacesStudentRecords(records: seq<AttendanceRecord>, studentId: string, date: string, status: Status, now: int, recordId: string)
    requires HasStudent(records, studentId)
    ensures var r := AmendRecords(records, studentId, date, status, now, recordId);
            && |r| == |records|
            && (forall k :: 0 <= k < |records| && records[k].studentId == studentId ==>
                  && r[k].status == status && r[k].timestamp == now && r[k].studentId == studentId
                  && r[k].id == records[k].id && r[k].date == records[k].date
                  && r[k].note == records[k].note && r[k].confidence == records[k].confidence)
            && (forall k :: 0 <= k < |records| && records[k].studentId != studentId ==> r[k] == records[k])
  {
  }

  /**
   * Inside the amended session, when the student has no record yet: exactly
   * one record is appended, for that student, with the new status, the date
   * and confidence 100.
   */
  lemma AmendAppendsOneRecord(records: seq<AttendanceRecord>, studentId: string, date: string, status: Status, now: int, recordId: string)
    requires !HasStudent(records, studentId)
    ensures var r := AmendRecords(records, studentId, date, status, now, recordId);
            && |r| == |records| + 1 && r[..|records|] == records
            && r[|records|].studentId == studentId && r[|records|].status == status
            && r[|records|].date == date && r[|records|].confidence == 100
  {
    assert (records + [ManualRecord(recordId, studentId, status, date, now)])[..|records|] == records;
  }

  /** Number of records of `studentId`. */
  function CountFor(records: seq<AttendanceRecord>, studentId: string): nat
  {
    if records == [] then 0
    else CountFor(records[..|records| - 1], studentId) + (if records[|records| - 1].studentId == studentId then 1 else 0)
  }

  lemma {:induction false} CountForZero(records: seq<AttendanceRecord>, studentId: string)
    ensures CountFor(records, studentId) == 0 <==> !HasStudent(records, studentId)
  {
    if records != [] {
      var init := records[..|records| - 1];
      CountForZero(init, studentId);
      if HasStudent(records, studentId) && records[|records| - 1].studentId != studentId {
        var k :| 0 <= k < |records| && records[k].studentId == studentId;
        assert init[k] == records[k];
      }
      if HasStudent(init, studentId) {
        var k :| 0 <= k < |init| && init[k].studentId == studentId;
        assert records[k] == init[k];
      }
    }
  }

  lemma {:induction false} CountForReplace(records: seq<AttendanceRecord>, r: seq<AttendanceRecord>, studentId: string)
    requires |r| == |records|
    requires forall k :: 0 <= k < |records| ==> (r[k].studentId == studentId <==> records[k].studentId == studentId)
    ensures CountFor(r, studentId) == CountFor(records, studentId)
  {
    if records != [] {
      CountForReplace(records[..|records| - 1], r[..|r| - 1], studentId);
    }
  }

  /**
   * The amended session holds as many records of the student as before, or
   * exactly one when it held none: an override never duplicates a student.
   */
  lemma AmendStudentRecordCount(records: seq<AttendanceRecord>, studentId: string, date: string, status: Status, now: int, recordId: string)
    ensures var r := AmendRecords(records, studentId, date, status, now, recordId);
            CountFor(r, studentId) == if CountFor(records, studentId) == 0 then 1 else CountFor(records, studentId)
  {
    var r := AmendRecords(records, studentId, date, status, now, recordId);
    CountForZero(records, studentId);
    if HasStudent(records, studentId) {
      CountForReplace(records, r, studentId);
    } else {
      assert r[..|r| - 1] == records;
    }
  }

  /**
   * A second amendment of the same student supersedes the first: the result is
   * the original list amended once with the second status and time, where a
   * record the first amendment appended keeps the id the first call drew.
   */
  lemma AmendSupersedes(records: seq<AttendanceRecord>, studentId: string, date: string,
                        status1: Status, now1: int, recordId1: string,
                        status2: Status, now2: int, recordId2: string)
    ensures AmendRecords(AmendRecords(records, studentId, date, status1, now1, recordId1), studentId, date, status2, now2, recordId2)
            == AmendRecords(records, studentId, date, status2, now2, recordId1)
  {
    var once := AmendRecords(records, studentId, date, status1, now1, recordId1);
    if HasStudent(records, studentId) {
      var k :| 0 <= k < |records| && records[k].studentId == studentId;
      assert once[k].studentId == studentId;
    } else {
      assert once[|records|].studentId == studentId;
    }
    assert HasStudent(once, studentId);
  }

  /**
   * Two overrides of one student on one date, each with its own clock reading
   * and fresh ids: the later one supersedes the earlier. The result is the
   * later override applied alone, except that a session or record the earlier
   * call created keeps the id that call drew (its fresh session id not being
   * in use already).
   */
  lemma LaterOverrideSupersedes(sessions: seq<Session>, studentId: string, date: string,
                                status1: Status, now1: int, sessionId1: string, recordId1: string,
                                status2: Status, now2: int, sessionId2: string, recordId2: string)
    requires forall j :: 0 <= j < |sessions| ==> sessions[j].id != sessionId1
    ensures UpdateManualStatus(UpdateManualStatus(sessions, studentId, date, status1, now1, sessionId1, recordId1),
                               studentId, date, status2, now2, sessionId2, recordId2)
            == UpdateManualStatus(sessions, studentId, date, status2, now2, sessionId1, recordId1)
  {
    if |SameDay(sessions, date)| > 0 {
      SupersedesWhenDateExists(sessions, studentId, date, status1, now1, sessionId1, recordId1, status2, now2, sessionId2, recordId2);
    } else {
      SupersedesWhenDateIsNew(sessions, studentId, date, status1, now1, sessionId1, recordId1, status2, now2, sessionId2, recordId2);
    }
  }

  /**
   * With one clock reading and one pair of fresh ids, applying the same
   * override twice gives the same session list as applying it once.
   */
  lemma UpdateManualStatusIdempotent(sessions: seq<Session>, studentId: string, date: string, status: Status,
                                     now: int, sessionId: string, recordId: string)
    requires forall j :: 0 <= j < |sessions| ==> sessions[j].id != sessionId
    ensures var once := UpdateManualStatus(sessions, studentId, date, status, now, sessionId, recordId);
            UpdateManualStatus(once, studentId, date, status, now, sessionId, recordId) == once
  {
    LaterOverrideSupersedes(sessions, studentId, date, status, now, sessionId, recordId, status, now, sessionId, recordId);
  }

  /** The amended list, element by element, when the date already has a session. */
  lemma UpdateAt(sessions: seq<Session>, studentId: string, date: string, status: Status,
                 now: int, sessionId: string, recordId: string, i: nat, k: nat)
    requires FirstOnDate(sessions, date, i)
    requires k < |sessions|
    ensures var after := UpdateManualStatus(sessions, studentId, date, status, now, sessionId, recordId);
            |after| == |sessions| &&
            after[k] == if sessions[k].id == sessions[i].id
                        then sessions[k].(records := AmendRecords(sessions[k].records, studentId, date, status, now, recordId))
                        else sessions[k]
  {
    FirstOfSameDay(sessions, date, i);
  }

  lemma SupersedesWhenDateExists(sessions: seq<Session>, studentId: string, date: string,
                                 status1: Status, now1: int, sessionId1: string, recordId1: string,
                                 status2: Status, now2: int, sessionId2: string, recordId2: string)
    requires |SameDay(sessions, date)| > 0
    ensures UpdateManualStatus(UpdateManualStatus(sessions, studentId, date, status1, now1, sessionId1, recordId1),
                               studentId, date, status2, now2, sessionId2, recordId2)
            == UpdateManualStatus(sessions, studentId, date, status2, now2, sessionId1, recordId1)
  {
    var once := UpdateManualStatus(sessions, studentId, date, status1, now1, sessionId1, recordId1);
    var twice := UpdateManualStatus(once, studentId, date, status2, now2, sessionId2, recordId2);
    var alone := UpdateManualStatus(sessions, studentId, date, status2, now2, sessionId1, recordId1);
    var i := FirstIndexOnDate(sessions, date);
    UpdateAt(sessions, studentId, date, status1, now1, sessionId1, recordId1, i, i);
    UpdateAt(sessions, studentId, date, status2, now2, sessionId1, recordId1, i, i);
    forall k | 0 <= k < |once|
      ensures once[k].id == sessions[k].id && once[k].date == sessions[k].date
    {
      UpdateAt(sessions, studentId, date, status1, now1, sessionId1, recordId1, i, k);
    }
    assert FirstOnDate(once, date, i);
    UpdateAt(once, studentId, date, status2, now2, sessionId2, recordId2, i, i);
    forall k | 0 <= k < |once|
      ensures twice[k] == alone[k]
    {
      UpdateAt(sessions, studentId, date, status1, now1, sessionId1, recordId1, i, k);
      UpdateAt(once, studentId, date, status2, now2, sessionId2, recordId2, i, k);
      UpdateAt(sessions, studentId, date, status2, now2, sessionId1, recordId1, i, k);
      AmendSupersedes(sessions[k].records, studentId, date, status1, now1, recordId1, status2, now2, recordId2);
    }
    assert |twice| == |alone|;
  }

  /**
   * After an override created the session of a new date, a second override of
   * the same date amends that fresh session (its id being new) and leaves the
   * rest alone.
   */
  lemma SecondOverrideAmendsFreshSession(sessions: seq<Session>, studentId: string, date: string,
                                         status1: Status, now1: int, sessionId1: string, recordId1: string,
                                         status2: Status, now2: int, sessionId2: string, recordId2: string)
    requires |SameDay(sessions, date)| == 0
    requires forall j :: 0 <= j < |sessions| ==> sessions[j].id != sessionId1
    ensures var once := UpdateManualStatus(sessions, studentId, date, status1, now1, sessionId1, recordId1);
            var twice := UpdateManualStatus(once, studentId, date, status2, now2, sessionId2, recordId2);
            && |twice| == |once| == |sessions| + 1
            && twice[0] == once[0].(records := AmendRecords(once[0].records, studentId, date, status2, now2, recordId2))
            && twice[1..] == sessions
  {
    var once := UpdateManualStatus(sessions, studentId, date, status1, now1, sessionId1, recordId1);
    var twice := UpdateManualStatus(once, studentId, date, status2, now2, sessionId2, recordId2);
    assert FirstOnDate(once, date, 0);
    FirstOfSameDay(once, date, 0);
    assert SameDay(once, date)[0].id == sessionId1;
    forall k | 1 <= k < |once|
      ensures twice[k] == sessions[k - 1]
    {
      assert once[k] == sessions[k - 1];
    }
  }

  lemma SupersedesWhenDateIsNew(sessions: seq<Session>, studentId: string, date: string,
                                status1: Status, now1: int, sessionId1: string, recordId1: string,
                                status2: Status, now2: int, sessionId2: string, recordId2: string)
    requires |SameDay(sessions, date)| == 0
    requires forall j :: 0 <= j < |sessions| ==> sessions[j].id != sessionId1
    ensures UpdateManualStatus(UpdateManualStatus(sessions, studentId, date, status1, now1, sessionId1, recordId1),
                               studentId, date, status2, now2, sessionId2, recordId2)
            == UpdateManualStatus(sessions, studentId, date, status2, now2, sessionId1, recordId1)
  {
    var once := UpdateManualStatus(sessions, studentId, date, status1, now1, sessionId1, recordId1);
    var twice := UpdateManualStatus(once, studentId, date, status2, now2, sessionId2, recordId2);
    var alone := UpdateManualStatus(sessions, studentId, date, status2, now2, sessionId1, recordId1);
    SecondOverrideAmendsFreshSession(sessions, studentId, date, status1, now1, sessionId1, recordId1,
                                     status2, now2, sessionId2, recordId2);
    AmendSupersedes([], studentId, date, status1, now1, recordId1, status2, now2, recordId2);
    assert twice[0] == alone[0];
    assert twice == [twice[0]] + twice[1..];
  }

  /** Some session of the date exists, so there is a first one. */
  lemma FirstIndexExists(sessions: seq<Session>, date: string)
    requires |SameDay(sessions, date)| > 0
    ensures exists i: nat :: FirstOnDate(sessions, date, i)
  {
    assert SameDay(sessions, date)[0] in sessions;
    var j :| 0 <= j < |sessions| && sessions[j].date == date;
    var i: nat := 0;
    while sessions[i].date != date
      invariant i <= j
      invariant forall m :: 0 <= m < i ==> sessions[m].date != date
      decreases j - i
    {
      i := i + 1;
    }
    assert FirstOnDate(sessions, date, i);
  }

  ghost function FirstIndexOnDate(sessions: seq<Session>, date: string): (i: nat)
    requires |SameDay(sessions, date)| > 0
    ensures FirstOnDate(sessions, date, i)
  {
    FirstIndexExists(sessions, date);
    var i: nat :| FirstOnDate(sessions, date, i); i
  }

  /**
   * Two overrides of one student on one date, each with its own clock reading
   * and fresh ids, leave exactly one record of the student in the first
   * session of the date: the session that was first stays first when the date
   * had one (provided it held at most one record of the student), and the
   * session the first call created is first when it had none.
   */
  lemma TwiceLeavesOneRecord(sessions: seq<Session>, studentId: string, date: string,
                             status1: Status, now1: int, sessionId1: string, recordId1: string,
                             status2: Status, now2: int, sessionId2: string, recordId2: string)
    requires forall i: nat :: FirstOnDate(sessions, date, i) ==> CountFor(sessions[i].records, studentId) <= 1
    ensures var twice := UpdateManualStatus(UpdateManualStatus(sessions, studentId, date, status1, now1, sessionId1, recordId1),
                                            studentId, date, status2, now2, sessionId2, recordId2);
            && (forall i: nat :: FirstOnDate(sessions, date, i) ==>
                  |twice| == |sessions| && FirstOnDate(twice, date, i) && CountFor(twice[i].records, studentId) == 1)
            && ((forall j :: 0 <= j < |sessions| ==> sessions[j].date != date) ==>
                  |twice| == |sessions| + 1 && FirstOnDate(twice, date, 0) && CountFor(twice[0].records, studentId) == 1)
  {
    var once := UpdateManualStatus(sessions, studentId, date, status1, now1, sessionId1, recordId1);
    var twice := UpdateManualStatus(once, studentId, date, status2, now2, sessionId2, recordId2);
    forall i: nat | FirstOnDate(sessions, date, i)
      ensures |twice| == |sessions| && FirstOnDate(twice, date, i) && CountFor(twice[i].records, studentId) == 1
    {
      AmendKeepsFirst(sessions, studentId, date, status1, now1, sessionId1, recordId1, i);
      AmendKeepsFirst(once, studentId, date, status2, now2, sessionId2, recordId2, i);
      AmendStudentRecordCount(sessions[i].records, studentId, date, status1, now1, recordId1);
      AmendStudentRecordCount(once[i].records, studentId, date, status2, now2, recordId2);
    }
    if forall j :: 0 <= j < |sessions| ==> sessions[j].date != date {
      CreatesSessionWhenDateIsNew(sessions, studentId, date, status1, now1, sessionId1, recordId1);
      assert FirstOnDate(once, date, 0);
      assert once[0].records[..0] == [];
      assert CountFor(once[0].records, studentId) == 1;
      AmendKeepsFirst(once, studentId, date, status2, now2, sessionId2, recordId2, 0);
      AmendStudentRecordCount(once[0].records, studentId, date, status2, now2, recordId2);
    }
  }

  /** The first session of the date stays the first one, and is the amended one. */
  lemma AmendKeepsFirst(sessions: seq<Session>, studentId: string, date: string, status: Status,
                        now: int, sessionId: string, recordId: string, i: nat)
    requires FirstOnDate(sessions, date, i)
    ensures var after := UpdateManualStatus(sessions, studentId, date, status, now, sessionId, recordId);
            |after| == |sessions| && FirstOnDate(after, date, i) &&
            after[i].records == AmendRecords(sessions[i].records, studentId, date, status, now, recordId)
  {
    var after := UpdateManualStatus(sessions, studentId, date, status, now, sessionId, recordId);
    UpdateAt(sessions, studentId, date, status, now, sessionId, recordId, i, i);
    forall k | 0 <= k < i
      ensures after[k].date == sessions[k].date
    {
      UpdateAt(sessions, studentId, date, status, now, sessionId, recordId, i, k);
    }
  }

  /** The amended record list holds a record of the student with the new status. */
  lemma AmendedHoldsStatus(records: seq<AttendanceRecord>, studentId: string, date: string, status: Status, now: int, recordId: string)
    ensures exists r :: r in AmendRecords(records, studentId, date, status, now, recordId) && r.studentId == studentId && r.status == status
  {
    var amended := AmendRecords(records, studentId, date, status, now, recordId);
    AmendedStudentRecordsHaveStatus(records, studentId, date, status, now, recordId);
    var k :| 0 <= k < |amended| && amended[k].studentId == studentId;
    assert amended[k] in amended;
  }

  /** The amended or created session holds a record of the student with the new status. */
  lemma OverrideRecordOnDate(sessions: seq<Session>, studentId: string, date: string, status: Status,
                             now: int, sessionId: string, recordId: string)
    ensures var after := UpdateManualStatus(sessions, studentId, date, status, now, sessionId, recordId);
            exists s, r :: s in after && s.date == date && r in s.records && r.studentId == studentId && r.status == status
  {
    var after := UpdateManualStatus(sessions, studentId, date, status, now, sessionId, recordId);
    if |SameDay(sessions, date)| > 0 {
      var i := FirstIndexOnDate(sessions, date);
      AmendKeepsFirst(sessions, studentId, date, status, now, sessionId, recordId, i);
      AmendedHoldsStatus(sessions[i].records, studentId, date, status, now, recordId);
      var r :| r in after[i].records && r.studentId == studentId && r.status == status;
      assert after[i] in after;
    } else {
      assert after[0].records[0] in after[0].records;
    }
  }

  /** A present record of the student in any session of the date makes the day present. */
  lemma PresentRecordShowsPresent(sessions: seq<Session>, date: string, studentId: string, s: Session, r: AttendanceRecord)
    requires s in sessions && s.date == date && r in s.records
    requires r.studentId == studentId && r.status == Present
    ensures DailyStatus(DayRecords(sessions, date), studentId) == Present
  {
    var day := SameDay(sessions, date);
    assert s in day;
    AllRecordsMember(day, r);
    var recs := AllRecords(day);
    var k :| 0 <= k < |recs| && recs[k] == r;
    assert Marked(recs, studentId, Present);
  }

  /** After a manual override to present, the dashboard shows the student present. */
  lemma OverrideToPresentShowsPresent(sessions: seq<Session>, studentId: string, date: string,
                                      now: int, sessionId: string, recordId: string)
    ensures var after := UpdateManualStatus(sessions, studentId, date, Present, now, sessionId, recordId);
            DailyStatus(DayRecords(after, date), studentId) == Present
  {
    var after := UpdateManualStatus(sessions, studentId, date, Present, now, sessionId, recordId);
    OverrideRecordOnDate(sessions, studentId, date, Present, now, sessionId, recordId);
    var s, r :| s in after && s.date == date && r in s.records && r.studentId == studentId && r.status == Present;
    PresentRecordShowsPresent(after, date, studentId, s, r);
  }

  /** After amending, every record of the student carries the new status. */
  lemma AmendedStudentRecordsHaveStatus(records: seq<AttendanceRecord>, studentId: string, date: string, status: Status, now: int, recordId: string)
    ensures forall r :: r in AmendRecords(records, studentId, date, status, now, recordId) && r.studentId == studentId ==> r.status == status
  {
    var amended := AmendRecords(records, studentId, date, status, now, recordId);
    forall r | r in amended && r.studentId == studentId
      ensures r.status == status
    {
      var k :| 0 <= k < |amended| && amended[k] == r;
      if !HasStudent(records, studentId) && k < |records| {
        assert records[k] == r;
      }
    }
  }

  /** At most one session is held on `date`. */
  predicate AtMostOneSessionOn(sessions: seq<Session>, date: string)
  {
    forall a, b :: 0 <= a < b < |sessions| && sessions[a].date == date ==> sessions[b].date != date
  }

  /** With at most one session on the date, every record of the student that day carries the new status. */
  lemma SoleSessionRecordHasStatus(sessions: seq<Session>, studentId: string, date: string, status: Status,
                                   now: int, sessionId: string, recordId: string, r: AttendanceRecord)
    requires AtMostOneSessionOn(sessions, date)
    requires r in DayRecords(UpdateManualStatus(sessions, studentId, date, status, now, sessionId, recordId), date)
    requires r.studentId == studentId
    ensures r.status == status
  {
    var after := UpdateManualStatus(sessions, studentId, date, status, now, sessionId, recordId);
    AllRecordsMember(SameDay(after, date), r);
    var s :| s in SameDay(after, date) && r in s.records;
    var m :| 0 <= m < |after| && after[m] == s;
    if |SameDay(sessions, date)| > 0 {
      var i := FirstIndexOnDate(sessions, date);
      UpdateAt(sessions, studentId, date, status, now, sessionId, recordId, i, m);
      assert sessions[m].date == date;
      assert m == i;
      AmendedStudentRecordsHaveStatus(sessions[i].records, studentId, date, status, now, recordId);
    } else {
      forall j | 0 <= j < |sessions|
        ensures sessions[j].date != date
      {
        assert sessions[j] in sessions;
      }
      assert after == [after[0]] + sessions;
      assert m == 0;
    }
  }

  /**
   * When the date has at most one session, the override takes effect: the
   * dashboard then shows exactly the requested status for the student. (With
   * several sessions on the date, a stronger record in another session still
   * wins the precedence.)
   */
  lemma OverrideTakesEffectOnSoleSession(sessions: seq<Session>, studentId: string, date: string, status: Status,
                                         now: int, sessionId: string, recordId: string)
    requires AtMostOneSessionOn(sessions, date)
    ensures var after := UpdateManualStatus(sessions, studentId, date, status, now, sessionId, recordId);
            DailyStatus(DayRecords(after, date), studentId) == status
  {
    var after := UpdateManualStatus(sessions, studentId, date, status, now, sessionId, recordId);
    var recs := DayRecords(after, date);
    OverrideRecordOnDate(sessions, studentId, date, status, now, sessionId, recordId);
    var s0, r0 :| s0 in after && s0.date == date && r0 in s0.records && r0.studentId == studentId && r0.status == status;
    AllRecordsMember(SameDay(after, date), r0);
    assert Marked(recs, studentId, status);
    forall k | 0 <= k < |recs| && recs[k].studentId == studentId
      ensures recs[k].status == status
    {
      SoleSessionRecordHasStatus(sessions, studentId, date, status, now, sessionId, recordId, recs[k]);
    }
    UniformStatus(recs, studentId, status);
  }
}
