/**
 * Generic sequence helpers used by every component: the model of
 * JavaScript's `Array.prototype.filter`.
 */
module Seqs {

  /** `s.filter(p)`: the elements of `s` that satisfy `p`, in their original order. */
  function Filter<T(!new)>(s: seq<T>, p: T -> bool): (r: seq<T>)
    ensures |r| <= |s|
    ensures forall x :: x in r <==> x in s && p(x)
    ensures multiset(r) <= multiset(s)
  {
    if s == [] then []
    else
      assert s == [s[0]] + s[1..];
      if p(s[0]) then [s[0]] + Filter(s[1..], p) else Filter(s[1..], p)
  }

  /** A prefix one longer is the prefix followed by the next element. */
  lemma TakeSnoc<T>(s: seq<T>, j: nat)
    requires j < |s|
    ensures s[..j + 1] == s[..j] + [s[j]]
  {
  }

  /** Splitting off the last element of the second part of a concatenation. */
  lemma AppendSnoc<T>(a: seq<T>, b: seq<T>)
    requires b != []
    ensures a + b == (a + b[..|b| - 1]) + [b[|b| - 1]]
    ensures (a + b)[..|a + b| - 1] == a + b[..|b| - 1]
    ensures b == b[..|b| - 1] + [b[|b| - 1]]
  {
  }

  lemma AppendAssoc<T>(x: seq<T>, y: seq<T>, z: seq<T>)
    ensures (x + y) + z == x + (y + z)
  {
  }


  /** Filtering with a predicate every element satisfies keeps the whole sequence. */
  lemma {:induction false} FilterAll<T(!new)>(s: seq<T>, p: T -> bool)
    requires forall i :: 0 <= i < |s| ==> p(s[i])
    ensures Filter(s, p) == s
  {
    if s != [] {
      FilterAll(s[1..], p);
    }
  }

  /** Filtering with a predicate no element satisfies keeps nothing. */
  lemma {:induction false} FilterNone<T(!new)>(s: seq<T>, p: T -> bool)
    requires forall i :: 0 <= i < |s| ==> !p(s[i])
    ensures Filter(s, p) == []
  {
    if s != [] {
      FilterNone(s[1..], p);
    }
  }

  /** The first kept element is the first element of `s` that satisfies `p`. */
  lemma {:induction false} FilterFirst<T(!new)>(s: seq<T>, p: T -> bool, i: nat)
    requires i < |s| && p(s[i])
    requires forall j :: 0 <= j < i ==> !p(s[j])
    ensures |Filter(s, p)| > 0 && Filter(s, p)[0] == s[i]
  {
    if i > 0 {
      FilterFirst(s[1..], p, i - 1);
    }
  }

  /** Two predicates that agree on every element filter alike. */
  lemma {:induction false} FilterAgree<T(!new)>(s: seq<T>, p: T -> bool, q: T -> bool)
    requires forall i :: 0 <= i < |s| ==> p(s[i]) == q(s[i])
    ensures Filter(s, p) == Filter(s, q)
  {
    if s != [] {
      FilterAgree(s[1..], p, q);
    }
  }

  /** Filtering distributes over concatenation. */
  lemma {:induction false} FilterAppend<T(!new)>(s: seq<T>, t: seq<T>, p: T -> bool)
    ensures Filter(s + t, p) == Filter(s, p) + Filter(t, p)
  {
    if s == [] {
      assert s + t == t;
    } else {
      assert (s + t)[1..] == s[1..] + t;
      FilterAppend(s[1..], t, p);
    }
  }
}

/**
 * The data model of types.ts, and the two session views every component
 * derives from it: all records of a session list, and the sessions of one date.
 */
module Types {
  import opened Seqs

  datatype Option<T> = None | Some(value: T)

  /** AttendanceStatus: 'present' | 'absent' | 'late'. */
  datatype Status = Present | Absent | Late

  /** The text a status prints as (a template literal over the string union). */
  function StatusName(s: Status): (name: string)
    ensures |name| > 0 && '\n' !in name
  {
    match s
    case Present => "present"
    case Absent => "absent"
    case Late => "late"
  }

  /** Student; `photo` is an opaque base64 string. */
  datatype Student = Student(id: string, name: string, photo: string, createdAt: int)

  /** AttendanceRecord; `note` is optional, `confidence` is 0-100 by convention. */
  datatype AttendanceRecord = AttendanceRecord(
    id: string,
    date: string,
    studentId: string,
    status: Status,
    note: Option<string>,
    confidence: nat,
    timestamp: int)

  /** AttendanceSession: one scan or manual entry for one date. */
  datatype Session = Session(id: string, date: string, records: seq<AttendanceRecord>, classroomPhoto: string)

  /** `students.find(st => st.id === id)`: the first roster entry with the id. */
  function FindStudent(students: seq<Student>, id: string): (r: Option<Student>)
    ensures r.None? <==> forall k :: 0 <= k < |students| ==> students[k].id != id
    ensures r.Some? ==> exists k :: 0 <= k < |students| && students[k] == r.value && r.value.id == id &&
                                    forall j :: 0 <= j < k ==> students[j].id != id
  {
    if students == [] then None
    else if students[0].id == id then Some(students[0])
    else
      FindStudent(students[1..], id)
  }

  /** Every record of every session, session by session in list order, duplicates included. */
  function AllRecords(sessions: seq<Session>): seq<AttendanceRecord>
  {
    if sessions == [] then []
    else AllRecords(sessions[..|sessions| - 1]) + sessions[|sessions| - 1].records
  }

  /** `sessions.filter(s => s.date === date)`. */
  function SameDay(sessions: seq<Session>, date: string): (day: seq<Session>)
    ensures forall s :: s in day <==> s in sessions && s.date == date
  {
    Filter(sessions, (s: Session) => s.date == date)
  }

  /** The records of all sessions held on `date`. */
  function DayRecords(sessions: seq<Session>, date: string): seq<AttendanceRecord>
  {
    AllRecords(SameDay(sessions, date))
  }

  /** A record is among all records exactly when some session holds it. */
  lemma {:induction false} AllRecordsMember(sessions: seq<Session>, r: AttendanceRecord)
    ensures r in AllRecords(sessions) <==> exists s :: s in sessions && r in s.records
  {
    if sessions != [] {
      var init := sessions[..|sessions| - 1];
      var last := sessions[|sessions| - 1];
      AllRecordsMember(init, r);
      assert sessions == init + [last];
      if r in AllRecords(sessions) {
        if r !in AllRecords(init) {
          assert r in last.records;
        }
      }
      if exists s :: s in sessions && r in s.records {
        var s :| s in sessions && r in s.records;
        if s != last {
          assert s in init;
        }
      }
    }
  }

  /** The records of a session list with one more session at its end. */
  lemma AllRecordsSnoc(sessions: seq<Session>, s: Session)
    ensures AllRecords(sessions + [s]) == AllRecords(sessions) + s.records
  {
    assert (sessions + [s])[..|sessions|] == sessions;
  }

  /** The number of records, counted session by session. */
  lemma {:induction false} AllRecordsLength(sessions: seq<Session>)
    ensures |AllRecords(sessions)| == TotalRecords(sessions)
  {
    if sessions != [] {
      AllRecordsLength(sessions[..|sessions| - 1]);
    }
  }

  /** Sum over the sessions of their record counts. */
  function TotalRecords(sessions: seq<Session>): nat
  {
    if sessions == [] then 0
    else TotalRecords(sessions[..|sessions| - 1]) + |sessions[|sessions| - 1].records|
  }
}
