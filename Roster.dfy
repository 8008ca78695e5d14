/**
 * The list updates of App.tsx that the components trigger: registering,
 * removing and editing a student (App.tsx:74-92) and saving a scan as a new
 * session at the front of the session list (App.tsx:94-105).
 */
module Roster {
  import opened Seqs
  import opened Types
  import opened Consolidation

  /** `addStudent`: the form's name and photo with a fresh id and the creation time, appended. */
  function AddStudent(students: seq<Student>, name: string, photo: string, id: string, now: int): (r: seq<Student>)
    ensures |r| == |students| + 1 && r[..|students|] == students
    ensures r[|students|].id == id && r[|students|].name == name && r[|students|].photo == photo
    ensures r[|students|].createdAt == now
  {
    students + [Student(id, name, photo, now)]
  }

  /** `deleteStudent`: `students.filter(s => s.id !== id)`. */
  function DeleteStudent(students: seq<Student>, id: string): (r: seq<Student>)
    ensures forall s :: s in r <==> s in students && s.id != id
  {
    Filter(students, (s: Student) => s.id != id)
  }

  /** `editStudent`: every entry with the edited id is replaced, the rest are kept. */
  function EditStudent(students: seq<Student>, updated: Student): (r: seq<Student>)
    ensures |r| == |students|
    ensures forall k :: 0 <= k < |students| ==> r[k] == if students[k].id == updated.id then updated else students[k]
  {
    seq(|students|, k requires 0 <= k < |students| => if students[k].id == updated.id then updated else students[k])
  }

  /** The ids of the roster, in order. */
  function Ids(students: seq<Student>): seq<string>
  {
    seq(|students|, k requires 0 <= k < |students| => students[k].id)
  }

  /**
   * Deleting removes every student with the id and keeps all others in their
   * order: it distributes over any split of the roster.
   */
  lemma DeleteStudentKeepsOthersInOrder(front: seq<Student>, back: seq<Student>, id: string)
    ensures DeleteStudent(front + back, id) == DeleteStudent(front, id) + DeleteStudent(back, id)
    ensures id !in Ids(DeleteStudent(front + back, id))
  {
    FilterAppend(front, back, (s: Student) => s.id != id);
    var r := DeleteStudent(front + back, id);
    forall k | 0 <= k < |r|
      ensures Ids(r)[k] != id
    {
      assert r[k] in r;
    }
  }

  /** Deleting an id the roster does not hold changes nothing. */
  lemma DeleteAbsentIdIsIdentity(students: seq<Student>, id: string)
    requires id !in Ids(students)
    ensures DeleteStudent(students, id) == students
  {
    forall k | 0 <= k < |students|
      ensures students[k].id != id
    {
      assert Ids(students)[k] == students[k].id;
    }
    FilterAll(students, (s: Student) => s.id != id);
  }

  /** Registering a student with a fresh id and then deleting that id restores the roster. */
  lemma DeleteUndoesAdd(students: seq<Student>, name: string, photo: string, id: string, now: int)
    requires id !in Ids(students)
    ensures DeleteStudent(AddStudent(students, name, photo, id, now), id) == students
  {
    var p := (s: Student) => s.id != id;
    FilterAppend(students, [Student(id, name, photo, now)], p);
    DeleteAbsentIdIsIdentity(students, id);
    assert Filter([Student(id, name, photo, now)], p) == [];
  }

  /**
   * An edit that keeps the student's id (as the registration form's edit does)
   * keeps the roster's ids in order, and replaces exactly the entries with that id.
   */
  lemma EditStudentKeepsIds(students: seq<Student>, updated: Student)
    ensures Ids(EditStudent(students, updated)) == Ids(students)
    ensures forall s :: s in EditStudent(students, updated) ==> s == updated || s in students
  {
  }

  /** `saveAttendance`: the scan's records under a new session dated today, put in front. */
  function SaveAttendance(sessions: seq<Session>, records: seq<AttendanceRecord>, photo: string, today: string, sessionId: string): (r: seq<Session>)
    ensures |r| == |sessions| + 1 && r[1..] == sessions
    ensures r[0] == Session(sessionId, today, records, photo)
  {
    [Session(sessionId, today, records, photo)] + sessions
  }

  /** Saving adds exactly the new records, in front of all earlier ones. */
  lemma SaveAttendanceAddsRecords(sessions: seq<Session>, records: seq<AttendanceRecord>, photo: string, today: string, sessionId: string)
    ensures AllRecords(SaveAttendance(sessions, records, photo, today, sessionId)) == records + AllRecords(sessions)
  {
    AllRecordsCons(Session(sessionId, today, records, photo), sessions);
  }

  /** The records of a session list with one more session at its front. */
  lemma {:induction false} AllRecordsCons(s: Session, sessions: seq<Session>)
    ensures AllRecords([s] + sessions) == s.records + AllRecords(sessions)
    decreases |sessions|
  {
    if sessions == [] {
      assert [s] + sessions == [] + [s];
      AllRecordsSnoc([], s);
    } else {
      var init := sessions[..|sessions| - 1];
      var last := sessions[|sessions| - 1];
      AllRecordsCons(s, init);
      assert [s] + sessions == ([s] + init) + [last];
      AllRecordsSnoc([s] + init, last);
      AllRecordsSnoc(init, last);
      assert sessions == init + [last];
    }
  }

  /** A student marked present by a saved scan shows as present on that day's dashboard. */
  lemma SavedSessionCountsToday(sessions: seq<Session>, records: seq<AttendanceRecord>, photo: string, today: string,
                                sessionId: string, id: string)
    requires exists k :: 0 <= k < |records| && records[k].studentId == id && records[k].status == Present
    ensures DailyStatus(DayRecords(SaveAttendance(sessions, records, photo, today, sessionId), today), id) == Present
  {
    var after := SaveAttendance(sessions, records, photo, today, sessionId);
    var k :| 0 <= k < |records| && records[k].studentId == id && records[k].status == Present;
    assert after[0] in SameDay(after, today);
    AllRecordsMember(SameDay(after, today), records[k]);
    var recs := DayRecords(after, today);
    var j :| 0 <= j < |recs| && recs[j] == records[k];
  }
}
