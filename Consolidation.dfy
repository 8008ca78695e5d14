/**
 * The daily dashboard of App.tsx: every record of every session held on the
 * selected date is merged per student with the precedence
 * present > late > absent, each roster student is then classified (a student
 * with no record counts as absent) and the classes are tallied with rounded
 * percentages.
 */
module Consolidation {
  import opened Seqs
  import opened Types

  /** The strength of a status in the precedence present > late > absent. */
  function Rank(s: Status): nat
  {
    match s
    case Absent => 0
    case Late => 1
    case Present => 2
  }

  /**
   * One step of the scan at App.tsx:162-167: the best status known so far for
   * a student, updated with one more record's status. The result is the
   * stronger of the two.
   */
  function Merge(current: Option<Status>, s: Status): (r: Option<Status>)
    ensures r.Some?
    ensures current.None? ==> r.value == s
    ensures current.Some? ==> Rank(r.value) == if Rank(s) < Rank(current.value) then Rank(current.value) else Rank(s)
    ensures current.Some? ==> r.value == s || r.value == current.value
  {
    if s == Present || (s == Late && current != Some(Present)) then Some(s)
    else if current == None then Some(s)
    else current
  }

  /** Some record of `recs` gives student `id` the status `st`. */
  ghost predicate Marked(recs: seq<AttendanceRecord>, id: string, st: Status)
  {
    exists k :: 0 <= k < |recs| && recs[k].studentId == id && recs[k].status == st
  }

  /**
   * The reference resolver: the strongest status any record gives the student,
   * or None when no record mentions the student at all.
   */
  ghost function Resolve(recs: seq<AttendanceRecord>, id: string): Option<Status>
  {
    if Marked(recs, id, Present) then Some(Present)
    else if Marked(recs, id, Late) then Some(Late)
    else if Marked(recs, id, Absent) then Some(Absent)
    else None
  }

  /** The dashboard's reading of a resolved status: `... || 'absent'` (App.tsx:175). */
  function OrAbsent(best: Option<Status>): (s: Status)
    ensures best.Some? ==> s == best.value
    ensures s == Absent <==> best.None? || best == Some(Absent)
  {
    match best
    case Some(s) => s
    case None => Absent
  }

  /** The status the dashboard shows for student `id` given the day's records. */
  ghost function DailyStatus(recs: seq<AttendanceRecord>, id: string): Status
  {
    OrAbsent(Resolve(recs, id))
  }

  lemma MarkedSnoc(recs: seq<AttendanceRecord>, r: AttendanceRecord, id: string, st: Status)
    ensures Marked(recs + [r], id, st) <==> Marked(recs, id, st) || (r.studentId == id && r.status == st)
  {
    var all := recs + [r];
    if Marked(all, id, st) && !(r.studentId == id && r.status == st) {
      var k :| 0 <= k < |all| && all[k].studentId == id && all[k].status == st;
      assert k < |recs| && recs[k] == all[k];
    }
    if Marked(recs, id, st) {
      var k :| 0 <= k < |recs| && recs[k].studentId == id && recs[k].status == st;
      assert all[k] == recs[k];
    }
    if r.studentId == id && r.status == st {
      assert all[|recs|] == r;
    }
  }

  /** Appending one record changes the resolution exactly as one scan step does. */
  lemma ResolveSnoc(recs: seq<AttendanceRecord>, r: AttendanceRecord, id: string)
    ensures Resolve(recs + [r], id) ==
            if r.studentId == id then Merge(Resolve(recs, id), r.status) else Resolve(recs, id)
  {
    MarkedSnoc(recs, r, id, Present);
    MarkedSnoc(recs, r, id, Late);
    MarkedSnoc(recs, r, id, Absent);
  }

  lemma MarkedMembers(recs1: seq<AttendanceRecord>, recs2: seq<AttendanceRecord>, id: string, st: Status)
    requires forall r :: r in recs1 ==> r in recs2
    requires Marked(recs1, id, st)
    ensures Marked(recs2, id, st)
  {
    var k :| 0 <= k < |recs1| && recs1[k].studentId == id && recs1[k].status == st;
    assert recs1[k] in recs2;
    var j :| 0 <= j < |recs2| && recs2[j] == recs1[k];
  }

  /**
   * Order independence and insensitivity to duplicates: the resolution depends
   * only on which records exist, not on their order or multiplicity.
   */
  lemma {:induction false} ResolveDependsOnMembersOnly(recs1: seq<AttendanceRecord>, recs2: seq<AttendanceRecord>, id: string)
    requires forall r :: r in recs1 <==> r in recs2
    ensures Resolve(recs1, id) == Resolve(recs2, id)
  {
    forall st: Status
      ensures Marked(recs1, id, st) <==> Marked(recs2, id, st)
    {
      if Marked(recs1, id, st) { MarkedMembers(recs1, recs2, id, st); }
      if Marked(recs2, id, st) { MarkedMembers(recs2, recs1, id, st); }
    }
  }

  /** Any reordering of the session list leaves the same records on every date. */
  lemma DayRecordsSameMembers(sessions1: seq<Session>, sessions2: seq<Session>, date: string)
    requires multiset(sessions1) == multiset(sessions2)
    ensures forall r :: r in DayRecords(sessions1, date) <==> r in DayRecords(sessions2, date)
  {
    forall r
      ensures r in DayRecords(sessions1, date) <==> r in DayRecords(sessions2, date)
    {
      AllRecordsMember(SameDay(sessions1, date), r);
      AllRecordsMember(SameDay(sessions2, date), r);
      assert forall s :: s in sessions1 <==> s in multiset(sessions1);
      assert forall s :: s in sessions2 <==> s in multiset(sessions2);
    }
  }

  /**
   * The day's records are the same set for any reordering of the sessions, so
   * every student's daily status is independent of the session order.
   */
  lemma DailyStatusSessionOrder(sessions1: seq<Session>, sessions2: seq<Session>, date: string, id: string)
    requires multiset(sessions1) == multiset(sessions2)
    ensures DailyStatus(DayRecords(sessions1, date), id) == DailyStatus(DayRecords(sessions2, date), id)
  {
    DayRecordsSameMembers(sessions1, sessions2, date);
    ResolveDependsOnMembersOnly(DayRecords(sessions1, date), DayRecords(sessions2, date), id);
  }

  /** The precedence rule stated directly: any present record wins, then any late one. */
  lemma PrecedenceOfResolve(recs: seq<AttendanceRecord>, id: string)
    ensures (exists k :: 0 <= k < |recs| && recs[k].studentId == id && recs[k].status == Present)
            <==> DailyStatus(recs, id) == Present
    ensures DailyStatus(recs, id) == Late <==>
            (exists k :: 0 <= k < |recs| && recs[k].studentId == id && recs[k].status == Late) &&
            (forall k :: 0 <= k < |recs| && recs[k].studentId == id ==> recs[k].status != Present)
    ensures (forall k :: 0 <= k < |recs| ==> recs[k].studentId != id) ==> DailyStatus(recs, id) == Absent
  {
  }

  /** When every record of the student has one status and there is one, that status is the daily status. */
  lemma UniformStatus(recs: seq<AttendanceRecord>, id: string, st: Status)
    requires Marked(recs, id, st)
    requires forall k :: 0 <= k < |recs| && recs[k].studentId == id ==> recs[k].status == st
    ensures DailyStatus(recs, id) == st
  {
  }

  /** Number of roster entries whose daily status is `st`. */
  ghost function CountResolved(students: seq<Student>, recs: seq<AttendanceRecord>, st: Status): nat
  {
    if students == [] then 0
    else CountResolved(students[..|students| - 1], recs, st)
         + (if DailyStatus(recs, students[|students| - 1].id) == st then 1 else 0)
  }

  /** Every roster entry is counted exactly once: present + late + absent == roster size. */
  lemma {:induction false} CountsCoverRoster(students: seq<Student>, recs: seq<AttendanceRecord>)
    ensures CountResolved(students, recs, Present) + CountResolved(students, recs, Late)
            + CountResolved(students, recs, Absent) == |students|
  {
    if students != [] {
      CountsCoverRoster(students[..|students| - 1], recs);
    }
  }

  /** A record for a student outside the roster changes no tally. */
  lemma {:induction false} UnknownRecordsNotTallied(students: seq<Student>, recs: seq<AttendanceRecord>, r: AttendanceRecord, st: Status)
    requires forall k :: 0 <= k < |students| ==> students[k].id != r.studentId
    ensures CountResolved(students, recs + [r], st) == CountResolved(students, recs, st)
  {
    if students != [] {
      var init := students[..|students| - 1];
      UnknownRecordsNotTallied(init, recs, r, st);
      ResolveSnoc(recs, r, students[|students| - 1].id);
    }
  }

  /** The tallies are the same for any two record lists holding the same records. */
  lemma {:induction false} CountsDependOnMembersOnly(students: seq<Student>, recs1: seq<AttendanceRecord>, recs2: seq<AttendanceRecord>, st: Status)
    requires forall r :: r in recs1 <==> r in recs2
    ensures CountResolved(students, recs1, st) == CountResolved(students, recs2, st)
  {
    if students != [] {
      CountsDependOnMembersOnly(students[..|students| - 1], recs1, recs2, st);
      ResolveDependsOnMembersOnly(recs1, recs2, students[|students| - 1].id);
    }
  }

  /** The dashboard's counts for a date are the same for any order of the session list. */
  lemma CountsSessionOrder(students: seq<Student>, sessions1: seq<Session>, sessions2: seq<Session>, date: string, st: Status)
    requires multiset(sessions1) == multiset(sessions2)
    ensures CountResolved(students, DayRecords(sessions1, date), st) == CountResolved(students, DayRecords(sessions2, date), st)
  {
    DayRecordsSameMembers(sessions1, sessions2, date);
    CountsDependOnMembersOnly(students, DayRecords(sessions1, date), DayRecords(sessions2, date), st);
  }

  /**
   * `Math.round((count / (total || 1)) * 100) || 0` in integer arithmetic:
   * 100 * count / total rounded half up, and 0 for an empty roster.
   */
  function Percent(count: nat, total: nat): (p: nat)
    ensures total == 0 ==> p == 0
    ensures total > 0 ==> 2 * total * p <= 200 * count + total < 2 * total * p + 2 * total
  {
    if total == 0 then 0 else (200 * count + total) / (2 * total)
  }

  /** A share of the roster is a percentage between 0 and 100. */
  lemma PercentInRange(count: nat, total: nat)
    requires count <= total
    ensures Percent(count, total) <= 100
  {
    if total > 0 {
      var p := Percent(count, total);
      if p > 100 {
        assert 2 * total * p >= 2 * total * 101 by {
          MulMonotone(2 * total, 101, p);
        }
        assert false;
      }
    }
  }

  lemma MulMonotone(a: nat, b: nat, c: nat)
    requires b <= c
    ensures a * b <= a * c
  {
  }

  /** The three rounded percentages of a non-empty roster add up to 99, 100 or 101. */
  lemma PercentsNearHundred(present: nat, late: nat, absent: nat)
    requires present + late + absent > 0
    ensures var t := present + late + absent;
            99 <= Percent(present, t) + Percent(late, t) + Percent(absent, t) <= 101
  {
    var t := present + late + absent;
    var a, b, c := Percent(present, t), Percent(late, t), Percent(absent, t);
    var sum := a + b + c;
    MulDistributes(2 * t, a, b, c);
    assert 2 * t * sum <= 203 * t;
    assert 203 * t < 2 * t * sum + 6 * t;
    if sum > 101 {
      MulMonotone(2 * t, 102, sum);
      assert false;
    }
    if sum < 99 {
      MulMonotone(2 * t, sum, 98);
      assert false;
    }
  }

  lemma MulDistributes(k: nat, a: nat, b: nat, c: nat)
    ensures k * (a + b + c) == k * a + k * b + k * c
  {
  }

  /** The value `consolidatedData` returns (App.tsx:183-192). */
  datatype DailySummary = DailySummary(
    present: nat,
    late: nat,
    absent: nat,
    total: nat,
    studentMap: map<string, Status>,
    presentPercent: nat,
    latePercent: nat,
    absentPercent: nat)

  /** `m.get(id)`: the entry for `id`, or None. */
  function Get(m: map<string, Status>, id: string): Option<Status>
  {
    if id in m then Some(m[id]) else None
  }

  /** `studentDailyBest.get(date)`, or an empty map when there is none. */
  function DayMap(dailyBest: map<string, map<string, Status>>, date: string): map<string, Status>
  {
    if date in dailyBest then dailyBest[date] else map[]
  }

  /**
   * The inner `session.records.forEach` of App.tsx:161-168: each record raises
   * the student's entry of the day map by precedence, or fills it when empty.
   * A map that resolved the records seen `before` resolves them followed by
   * `records`.
   */
  method MergeRecords(dayMap: map<string, Status>, records: seq<AttendanceRecord>, ghost before: seq<AttendanceRecord>)
    returns (merged: map<string, Status>)
    requires forall id :: Get(dayMap, id) == Resolve(before, id)
    ensures forall id :: Get(merged, id) == Resolve(before + records, id)
  {
    merged := dayMap;
    assert before + records[..0] == before;
    for j := 0 to |records|
      invariant forall id :: Get(merged, id) == Resolve(before + records[..j], id)
    {
      var r := records[j];
      var current := Get(merged, r.studentId);
      if r.status == Present || (r.status == Late && current != Some(Present)) {
        merged := merged[r.studentId := r.status];
      } else if current == None {
        merged := merged[r.studentId := r.status];
      }
      assert before + records[..j + 1] == (before + records[..j]) + [r];
      forall id
        ensures Get(merged, id) == Resolve(before + records[..j + 1], id)
      {
        ResolveSnoc(before + records[..j], r, id);
      }
    }
    assert records[..|records|] == records;
  }

  /**
   * The outer `periodSessions.forEach` body of App.tsx:156-169: make sure the
   * session's date has a day map, then merge the session's records into it.
   */
  method MergeSession(studentDailyBest: map<string, map<string, Status>>, session: Session, ghost before: seq<AttendanceRecord>)
    returns (updated: map<string, map<string, Status>>)
    requires studentDailyBest.Keys <= {session.date}
    requires forall id :: Get(DayMap(studentDailyBest, session.date), id) == Resolve(before, id)
    ensures updated.Keys == {session.date}
    ensures forall id :: Get(DayMap(updated, session.date), id) == Resolve(before + session.records, id)
  {
    updated := studentDailyBest;
    if session.date !in updated {
      updated := updated[session.date := map[]];
    }
    var dayMap := updated[session.date];
    assert dayMap == DayMap(studentDailyBest, session.date);
    dayMap := MergeRecords(dayMap, session.records, before);
    updated := updated[session.date := dayMap];
  }

  /**
   * The merge of App.tsx:153-169: a map from date to a map from student id to
   * the best status seen, filled session by session and record by record.
   * Only the selected date's sessions take part, so only that date is a key.
   */
  method StudentDailyBest(sessions: seq<Session>, selectedDate: string)
    returns (studentDailyBest: map<string, map<string, Status>>)
    ensures studentDailyBest.Keys <= {selectedDate}
    ensures forall id :: Get(DayMap(studentDailyBest, selectedDate), id) == Resolve(DayRecords(sessions, selectedDate), id)
  {
    var periodSessions := SameDay(sessions, selectedDate);
    studentDailyBest := map[];

    for i := 0 to |periodSessions|
      invariant studentDailyBest.Keys <= {selectedDate}
      invariant forall id :: Get(DayMap(studentDailyBest, selectedDate), id) == Resolve(AllRecords(periodSessions[..i]), id)
    {
      var session := periodSessions[i];
      assert session in periodSessions;
      studentDailyBest := MergeSession(studentDailyBest, session, AllRecords(periodSessions[..i]));
      assert periodSessions[..i + 1] == periodSessions[..i] + [session];
      AllRecordsSnoc(periodSessions[..i], session);
    }
    assert periodSessions[..|periodSessions|] == periodSessions;
  }

  /**
   * The tally of App.tsx:171-181: every roster entry is classified from the
   * merged day map (absent when the map has no entry) and counted once.
   */
  method TallyRoster(students: seq<Student>, dayBest: map<string, Status>, ghost recs: seq<AttendanceRecord>)
    returns (studentMap: map<string, Status>, present: nat, late: nat, absent: nat, total: nat)
    requires forall id :: Get(dayBest, id) == Resolve(recs, id)
    ensures total == |students|
    ensures present == CountResolved(students, recs, Present)
    ensures late == CountResolved(students, recs, Late)
    ensures absent == CountResolved(students, recs, Absent)
    ensures studentMap.Keys == set k | 0 <= k < |students| :: students[k].id
    ensures forall k :: 0 <= k < |students| ==> studentMap[students[k].id] == DailyStatus(recs, students[k].id)
  {
    studentMap := map[];
    present, late, absent, total := 0, 0, 0, 0;

    for k := 0 to |students|
      invariant total == k
      invariant present == CountResolved(students[..k], recs, Present)
      invariant late == CountResolved(students[..k], recs, Late)
      invariant absent == CountResolved(students[..k], recs, Absent)
      invariant studentMap.Keys == set j | 0 <= j < k :: students[j].id
      invariant forall j :: 0 <= j < k ==> studentMap[students[j].id] == DailyStatus(recs, students[j].id)
    {
      var student := students[k];
      var status := OrAbsent(Get(dayBest, student.id));
      if status == Present {
        present := present + 1;
      } else if status == Late {
        late := late + 1;
      } else {
        absent := absent + 1;
      }
      total := total + 1;
      studentMap := studentMap[student.id := status];
      assert students[..k + 1][..k] == students[..k];
    }
    assert students[..|students|] == students;
  }

  /**
   * `consolidatedData` (App.tsx:152-193): merge the selected day's records per
   * student, then classify and tally the roster.
   */
  method ConsolidatedData(sessions: seq<Session>, students: seq<Student>, selectedDate: string)
    returns (d: DailySummary)
    ensures d.total == |students|
    ensures d.present == CountResolved(students, DayRecords(sessions, selectedDate), Present)
    ensures d.late == CountResolved(students, DayRecords(sessions, selectedDate), Late)
    ensures d.absent == CountResolved(students, DayRecords(sessions, selectedDate), Absent)
    ensures d.studentMap.Keys == set k | 0 <= k < |students| :: students[k].id
    ensures forall k :: 0 <= k < |students| ==>
              d.studentMap[students[k].id] == DailyStatus(DayRecords(sessions, selectedDate), students[k].id)
    ensures d.presentPercent == Percent(d.present, d.total)
    ensures d.latePercent == Percent(d.late, d.total)
    ensures d.absentPercent == Percent(d.absent, d.total)
  {
    var studentDailyBest := StudentDailyBest(sessions, selectedDate);
    var studentMap, present, late, absent, total :=
      TallyRoster(students, DayMap(studentDailyBest, selectedDate), DayRecords(sessions, selectedDate));
    d := DailySummary(
      present, late, absent, total, studentMap,
      Percent(present, total), Percent(late, total), Percent(absent, total));
  }

  /**
   * `openStatusList(type)` (App.tsx:195-199): the roster entries whose
   * dashboard status is `kind`, each paired with that status, in roster order.
   */
  function OpenStatusList(students: seq<Student>, studentMap: map<string, Status>, kind: Status): (list: seq<(Student, Status)>)
    ensures forall item :: item in list ==>
              item.0 in students && item.1 == kind && item.1 == OrAbsent(Get(studentMap, item.0.id))
    ensures forall k :: 0 <= k < |students| && OrAbsent(Get(studentMap, students[k].id)) == kind ==>
              (students[k], kind) in list
  {
    var items := StatusItems(students, studentMap);
    var list := Filter(items, (item: (Student, Status)) => item.1 == kind);
    assert forall item :: item in items ==> item.0 in students && item.1 == OrAbsent(Get(studentMap, item.0.id)) by {
      forall item | item in items
        ensures item.0 in students && item.1 == OrAbsent(Get(studentMap, item.0.id))
      {
        var k :| 0 <= k < |items| && items[k] == item;
      }
    }
    forall k | 0 <= k < |students| && OrAbsent(Get(studentMap, students[k].id)) == kind
      ensures (students[k], kind) in list
    {
      assert items[k] == (students[k], kind) && items[k] in items;
    }
    list
  }

  /** Each roster student with the status the map gives, absent when missing. */
  function StatusItems(students: seq<Student>, studentMap: map<string, Status>): seq<(Student, Status)>
  {
    seq(|students|, k requires 0 <= k < |students| => (students[k], OrAbsent(Get(studentMap, students[k].id))))
  }

  lemma StatusItemsSnoc(students: seq<Student>, studentMap: map<string, Status>)
    requires students != []
    ensures StatusItems(students, studentMap) ==
            StatusItems(students[..|students| - 1], studentMap) +
            [(students[|students| - 1], OrAbsent(Get(studentMap, students[|students| - 1].id)))]
  {
  }

  /** The entries of one status among the roster's items, counted by induction over the roster. */
  lemma {:induction false} StatusItemsCount(students: seq<Student>, recs: seq<AttendanceRecord>, studentMap: map<string, Status>, kind: Status)
    requires forall k :: 0 <= k < |students| ==>
               students[k].id in studentMap && studentMap[students[k].id] == DailyStatus(recs, students[k].id)
    ensures |Filter(StatusItems(students, studentMap), (item: (Student, Status)) => item.1 == kind)| == CountResolved(students, recs, kind)
  {
    if students != [] {
      var init := students[..|students| - 1];
      var last := students[|students| - 1];
      StatusItemsCount(init, recs, studentMap, kind);
      var p := (item: (Student, Status)) => item.1 == kind;
      var item := (last, DailyStatus(recs, last.id));
      assert Get(studentMap, last.id) == Some(DailyStatus(recs, last.id));
      StatusItemsSnoc(students, studentMap);
      var one: seq<(Student, Status)> := [item];
      FilterAppend(StatusItems(init, studentMap), one, p);
      assert one[1..] == [];
      assert |Filter(one, p)| == if item.1 == kind then 1 else 0;
    }
  }

  /**
   * Given the dashboard's student map, the list opened for a status has
   * exactly as many entries as that status's headline count.
   */
  lemma OpenStatusListMatchesCount(students: seq<Student>, recs: seq<AttendanceRecord>, studentMap: map<string, Status>, kind: Status)
    requires forall k :: 0 <= k < |students| ==>
               students[k].id in studentMap && studentMap[students[k].id] == DailyStatus(recs, students[k].id)
    ensures |OpenStatusList(students, studentMap, kind)| == CountResolved(students, recs, kind)
  {
    StatusItemsCount(students, recs, studentMap, kind);
  }
}
