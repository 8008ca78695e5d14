/**
 * A concrete day on the dashboard: Alice is seen present in one scan and
 * absent in another, Bob is seen late. Whatever the order of the two
 * sessions, Alice counts as present, Bob as late, and the percentages split
 * 50 / 50 / 0.
 */
module Scenario {
  import opened Seqs
  import opened Types
  import opened Consolidation

  const Day: string := "2024-03-01"
  const Alice: Student := Student("alice", "Alice", "", 0)
  const Bob: Student := Student("bob", "Bob", "", 0)

  const ScanA: Session := Session("A", Day, [AttendanceRecord("a1", Day, "alice", Present, None, 90, 0)], "")
  const ScanB: Session := Session("B", Day, [AttendanceRecord("b1", Day, "bob", Late, None, 70, 0),
                                             AttendanceRecord("b2", Day, "alice", Absent, None, 40, 0)], "")

  /** Both scans are on the day, so the date filter keeps both, in order. */
  lemma SameDayOfScans(first: Session, second: Session)
    requires first.date == Day && second.date == Day
    ensures SameDay([first, second], Day) == [first, second]
  {
    var p := (s: Session) => s.date == Day;
    var two := [first, second];
    assert two[1..] == [second];
    assert [second][1..] == [];
    assert Filter([second], p) == [second] + Filter([], p);
    assert Filter(two, p) == [first] + Filter([second], p);
  }

  /** The records of two sessions, in list order. */
  lemma AllRecordsOfTwo(first: Session, second: Session)
    ensures AllRecords([first, second]) == first.records + second.records
  {
    assert [first, second] == [first] + [second];
    assert [first] == [] + [first];
    AllRecordsSnoc([], first);
    AllRecordsSnoc([first], second);
  }

  /** The tally of a two-student roster. */
  lemma CountOfTwo(a: Student, b: Student, recs: seq<AttendanceRecord>, st: Status)
    ensures CountResolved([a, b], recs, st) ==
            (if DailyStatus(recs, a.id) == st then 1 else 0) + (if DailyStatus(recs, b.id) == st then 1 else 0)
  {
    assert [a, b][..1] == [a];
    assert [a][..0] == [];
    assert CountResolved([a], recs, st) == if DailyStatus(recs, a.id) == st then 1 else 0;
  }

  /** Alice has a present mark, Bob a late mark and no present mark. */
  lemma ScenarioStatuses(recs: seq<AttendanceRecord>)
    requires recs == ScanA.records + ScanB.records || recs == ScanB.records + ScanA.records
    ensures DailyStatus(recs, "alice") == Present
    ensures DailyStatus(recs, "bob") == Late
  {
    assert |recs| == 3;
    if recs == ScanA.records + ScanB.records {
      assert recs[0].studentId == "alice" && recs[0].status == Present;
      assert recs[1].studentId == "bob" && recs[1].status == Late;
    } else {
      assert recs[2].studentId == "alice" && recs[2].status == Present;
      assert recs[0].studentId == "bob" && recs[0].status == Late;
    }
    assert Marked(recs, "alice", Present);
    assert Marked(recs, "bob", Late);
    assert !Marked(recs, "bob", Present);
  }

  /** The headline figures of that day, for either order of the two scans. */
  lemma EndToEndScenario(sessions: seq<Session>)
    requires sessions == [ScanA, ScanB] || sessions == [ScanB, ScanA]
    ensures var recs := DayRecords(sessions, Day);
            && CountResolved([Alice, Bob], recs, Present) == 1
            && CountResolved([Alice, Bob], recs, Late) == 1
            && CountResolved([Alice, Bob], recs, Absent) == 0
            && Percent(1, 2) == 50 && Percent(0, 2) == 0
  {
    var recs := DayRecords(sessions, Day);
    SameDayOfScans(sessions[0], sessions[1]);
    AllRecordsOfTwo(sessions[0], sessions[1]);
    ScenarioStatuses(recs);
    CountOfTwo(Alice, Bob, recs, Present);
    CountOfTwo(Alice, Bob, recs, Late);
    CountOfTwo(Alice, Bob, recs, Absent);
  }
}
