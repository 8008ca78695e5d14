/**
 * components/AttendanceTaking.tsx: the recognition results are laid over the
 * roster, reviewed entry by entry, and confirmed into attendance records.
 * The recognition service itself is an oracle whose answer (or failure) is a
 * parameter of `Capture`.
 */
module Taking {
  import opened Types
  import opened Consolidation
  import opened Roster

  /** One tuple of the recognition service's answer. */
  datatype AiResult = AiResult(studentId: string, present: bool, confidence: nat)

  /** One review entry: the roster student, the status shown and the match confidence. */
  datatype Entry = Entry(student: Student, status: Status, confidence: nat, note: Option<string>)

  /** `ai[j]` is the first result about student `id`, the one `Array.prototype.find` returns. */
  predicate FirstMatch(ai: seq<AiResult>, id: string, j: int)
  {
    0 <= j < |ai| && ai[j].studentId == id && forall i :: 0 <= i < j ==> ai[i].studentId != id
  }

  /** `aiResults.find(r => r.studentId === id)`. */
  function FindResult(ai: seq<AiResult>, id: string): (m: Option<AiResult>)
    ensures m.None? <==> forall j :: 0 <= j < |ai| ==> ai[j].studentId != id
    ensures m.Some? ==> exists j :: FirstMatch(ai, id, j) && ai[j] == m.value
  {
    if ai == [] then None
    else if ai[0].studentId == id then
      assert FirstMatch(ai, id, 0);
      Some(ai[0])
    else
      var m := FindResult(ai[1..], id);
      assert m.Some? ==> exists j :: FirstMatch(ai, id, j) && ai[j] == m.value by {
        if m.Some? {
          var j :| FirstMatch(ai[1..], id, j) && ai[1..][j] == m.value;
          assert FirstMatch(ai, id, j + 1);
        }
      }
      m
  }

  /**
   * The review entry for one student (components/AttendanceTaking.tsx:28-33):
   * present exactly when the first result about the student says present,
   * never late; the first result's confidence, or 0 when there is none.
   */
  function EntryFor(student: Student, ai: seq<AiResult>): (e: Entry)
    ensures e.student == student && e.status != Late && e.note.None?
    ensures e.status == Present <==> exists j :: FirstMatch(ai, student.id, j) && ai[j].present
    ensures forall j :: FirstMatch(ai, student.id, j) ==> e.confidence == ai[j].confidence
    ensures (forall j :: 0 <= j < |ai| ==> ai[j].studentId != student.id) ==> e.confidence == 0
  {
    var m := FindResult(ai, student.id);
    forall j | FirstMatch(ai, student.id, j)
      ensures m == Some(ai[j])
    {
      FirstMatchUnique(ai, student.id, j);
    }
    Entry(student, if m.Some? && m.value.present then Present else Absent,
          if m.Some? then m.value.confidence else 0, None)
  }

  /**
   * `combined` (components/AttendanceTaking.tsx:27-34): one entry per roster
   * student in roster order; present exactly when the first result about the
   * student says present, never late; the first result's confidence, or 0
   * when there is none.
   */
  function Combine(students: seq<Student>, ai: seq<AiResult>): (r: seq<Entry>)
    ensures |r| == |students|
    ensures forall k :: 0 <= k < |r| ==> r[k].student == students[k] && r[k].status != Late && r[k].note.None?
    ensures forall k :: 0 <= k < |r| ==>
              (r[k].status == Present <==> exists j :: FirstMatch(ai, students[k].id, j) && ai[j].present)
    ensures forall k :: 0 <= k < |r| ==>
              (forall j :: FirstMatch(ai, students[k].id, j) ==> r[k].confidence == ai[j].confidence) &&
              ((forall j :: 0 <= j < |ai| ==> ai[j].studentId != students[k].id) ==> r[k].confidence == 0)
  {
    var r := seq(|students|, k requires 0 <= k < |students| => EntryFor(students[k], ai));
    assert forall k :: 0 <= k < |r| ==> r[k] == EntryFor(students[k], ai);
    r
  }

  /** There is only one first match, and `find` returns it. */
  lemma FirstMatchUnique(ai: seq<AiResult>, id: string, j: int)
    requires FirstMatch(ai, id, j)
    ensures FindResult(ai, id) == Some(ai[j])
  {
    var m := FindResult(ai, id);
    var j' :| FirstMatch(ai, id, j') && ai[j'] == m.value;
    assert !(j' < j) && !(j < j');
  }

  /** With at most one result per student, "first result says present" is "some result says present". */
  lemma CombineWithDistinctResults(students: seq<Student>, ai: seq<AiResult>, k: int)
    requires forall i, j :: 0 <= i < j < |ai| ==> ai[i].studentId != ai[j].studentId
    requires 0 <= k < |students|
    ensures Combine(students, ai)[k].status == Present <==>
            exists j :: 0 <= j < |ai| && ai[j].studentId == students[k].id && ai[j].present
  {
    var id := students[k].id;
    if exists j :: 0 <= j < |ai| && ai[j].studentId == id && ai[j].present {
      var j :| 0 <= j < |ai| && ai[j].studentId == id && ai[j].present;
      assert FirstMatch(ai, id, j);
    }
  }

  /** The failure path (components/AttendanceTaking.tsx:37-39): everyone absent with confidence 0. */
  function Fallback(students: seq<Student>): (r: seq<Entry>)
    ensures |r| == |students|
    ensures forall k :: 0 <= k < |r| ==> r[k] == Entry(students[k], Absent, 0, None)
  {
    seq(|students|, k requires 0 <= k < |students| => Entry(students[k], Absent, 0, None))
  }

  /** An answer that mentions nobody on the roster reviews exactly like a failed analysis. */
  lemma SilentAnswerIsFallback(students: seq<Student>, ai: seq<AiResult>)
    requires forall k, j :: 0 <= k < |students| && 0 <= j < |ai| ==> ai[j].studentId != students[k].id
    ensures Combine(students, ai) == Fallback(students)
  {
    var c := Combine(students, ai);
    forall k | 0 <= k < |c|
      ensures c[k] == Fallback(students)[k]
    {
      assert forall j :: 0 <= j < |ai| ==> ai[j].studentId != students[k].id;
    }
  }

  /**
   * The records `handleConfirm` builds (components/AttendanceTaking.tsx:53-61):
   * the k-th record gets the k-th fresh id, and every record today's date and
   * the confirmation time.
   */
  function ToRecords(results: seq<Entry>, today: string, now: int, newId: nat -> string): (recs: seq<AttendanceRecord>)
    ensures |recs| == |results|
    ensures forall k :: 0 <= k < |recs| ==>
              recs[k] == AttendanceRecord(newId(k), today, results[k].student.id, results[k].status,
                                          results[k].note, results[k].confidence, now)
  {
    seq(|results|, k requires 0 <= k < |results| =>
      AttendanceRecord(newId(k), today, results[k].student.id, results[k].status, results[k].note, results[k].confidence, now))
  }

  /** A confirmed scan records every roster student exactly once, in roster order, with the scan's status. */
  lemma ConfirmedScanCoversRoster(students: seq<Student>, ai: seq<AiResult>, today: string, now: int, newId: nat -> string)
    ensures |ToRecords(Combine(students, ai), today, now, newId)| == |students|
    ensures forall k :: 0 <= k < |students| ==>
              ToRecords(Combine(students, ai), today, now, newId)[k].studentId == students[k].id &&
              ToRecords(Combine(students, ai), today, now, newId)[k].status == Combine(students, ai)[k].status
    ensures forall r :: r in ToRecords(Combine(students, ai), today, now, newId) ==> r.date == today && r.status != Late
  {
  }

  /**
   * A student the scan reports present, once the scan is confirmed and saved,
   * shows as present on that day's dashboard whatever else was recorded.
   */
  lemma ConfirmedPresentShowsPresent(sessions: seq<Session>, students: seq<Student>, ai: seq<AiResult>,
                                     today: string, now: int, newId: nat -> string, photo: string, sessionId: string, k: int)
    requires 0 <= k < |students|
    requires exists j :: FirstMatch(ai, students[k].id, j) && ai[j].present
    ensures DailyStatus(DayRecords(SaveAttendance(sessions, ToRecords(Combine(students, ai), today, now, newId), photo, today, sessionId), today),
                        students[k].id) == Present
  {
    var recs := ToRecords(Combine(students, ai), today, now, newId);
    assert recs[k].studentId == students[k].id && recs[k].status == Present;
    SavedSessionCountsToday(sessions, recs, photo, today, sessionId, students[k].id);
  }

  /**
   * The component's review state: the captured photo (null until a scan),
   * the review entries, and whether the camera is shown.
   */
  class Review {
    var currentPhoto: Option<string>
    var results: seq<Entry>
    var showCamera: bool

    constructor ()
      ensures currentPhoto.None? && results == [] && !showCamera
    {
      currentPhoto := None;
      results := [];
      showCamera := false;
    }

    /**
     * `handleClassroomCapture`: keeps the photo, hides the camera and fills the
     * review with the combined answer, or with the fallback when the analysis
     * failed (`answer` is `None`).
     */
    method Capture(students: seq<Student>, photo: string, answer: Option<seq<AiResult>>)
      modifies this
      ensures currentPhoto == Some(photo) && !showCamera
      ensures answer.Some? ==> results == Combine(students, answer.value)
      ensures answer.None? ==> results == Fallback(students)
    {
      currentPhoto := Some(photo);
      showCamera := false;
      if answer.Some? {
        results := Combine(students, answer.value);
      } else {
        results := Fallback(students);
      }
    }

    /** `updateStatus`: entry `index` gets `status`; length and every other entry stay. */
    method UpdateStatus(index: int, status: Status)
      requires 0 <= index < |results|
      modifies this
      ensures |results| == |old(results)|
      ensures results[index] == old(results)[index].(status := status)
      ensures forall k :: 0 <= k < |results| && k != index ==> results[k] == old(results)[k]
      ensures currentPhoto == old(currentPhoto) && showCamera == old(showCamera)
    {
      var newResults := results;
      newResults := newResults[index := newResults[index].(status := status)];
      results := newResults;
    }

    /** The Reset button: forgets the photo and the review. */
    method Reset()
      modifies this
      ensures currentPhoto.None? && results == [] && showCamera == old(showCamera)
    {
      currentPhoto := None;
      results := [];
    }

    /** `if (!currentPhoto) return;`: a photo counts only when it is set and not empty. */
    predicate HasPhoto()
      reads this
    {
      currentPhoto.Some? && currentPhoto.value != ""
    }

    /**
     * `handleConfirm`: without a photo (none, or the empty string) nothing
     * happens and nothing is saved; otherwise the review becomes records saved
     * with the photo, and the review state is cleared.
     */
    method Confirm(today: string, now: int, newId: nat -> string) returns (saved: Option<(seq<AttendanceRecord>, string)>)
      modifies this
      ensures !old(HasPhoto()) ==> saved.None? && currentPhoto == old(currentPhoto) && results == old(results)
      ensures old(HasPhoto()) ==>
                saved == Some((ToRecords(old(results), today, now, newId), old(currentPhoto).value)) &&
                currentPhoto.None? && results == []
      ensures showCamera == old(showCamera)
    {
      if currentPhoto.None? || currentPhoto.value == "" {
        return None;
      }
      var records := ToRecords(results, today, now, newId);
      saved := Some((records, currentPhoto.value));
      results := [];
      currentPhoto := None;
    }
  }
}
