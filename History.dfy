/**
 * The summary report of components/AttendanceHistory.tsx: raw record tallies
 * over every session, the per-session present count, and the session list
 * filtered by date and ordered newest date first.
 */
module History {
  import opened Seqs
  import opened Types

  /** The value of `stats` (components/AttendanceHistory.tsx:16-27). */
  datatype Stats = Stats(present: nat, absent: nat, late: nat, total: nat)

  /** Number of records with status `st`, duplicates included. */
  function CountStatus(recs: seq<AttendanceRecord>, st: Status): nat
  {
    if recs == [] then 0
    else CountStatus(recs[..|recs| - 1], st) + (if recs[|recs| - 1].status == st then 1 else 0)
  }

  lemma CountStatusSnoc(recs: seq<AttendanceRecord>, r: AttendanceRecord, st: Status)
    ensures CountStatus(recs + [r], st) == CountStatus(recs, st) + (if r.status == st then 1 else 0)
  {
    assert (recs + [r])[..|recs|] == recs;
  }

  /** Every record has exactly one of the three statuses, so the three tallies add up to the total. */
  lemma {:induction false} StatusCountsCoverAll(recs: seq<AttendanceRecord>)
    ensures CountStatus(recs, Present) + CountStatus(recs, Absent) + CountStatus(recs, Late) == |recs|
  {
    if recs != [] {
      StatusCountsCoverAll(recs[..|recs| - 1]);
    }
  }

  /**
   * `stats`: one pass over every record of every session, counting the total
   * and each status.
   */
  method ComputeStats(sessions: seq<Session>) returns (stats: Stats)
    ensures stats.total == |AllRecords(sessions)|
    ensures stats.present == CountStatus(AllRecords(sessions), Present)
    ensures stats.absent == CountStatus(AllRecords(sessions), Absent)
    ensures stats.late == CountStatus(AllRecords(sessions), Late)
    ensures stats.present + stats.absent + stats.late == stats.total
  {
    var present, absent, late, total := 0, 0, 0, 0;
    for i := 0 to |sessions|
      invariant total == |AllRecords(sessions[..i])|
      invariant present == CountStatus(AllRecords(sessions[..i]), Present)
      invariant absent == CountStatus(AllRecords(sessions[..i]), Absent)
      invariant late == CountStatus(AllRecords(sessions[..i]), Late)
    {
      var s := sessions[i];
      ghost var before := AllRecords(sessions[..i]);
      assert before + s.records[..0] == before;
      for j := 0 to |s.records|
        invariant total == |before + s.records[..j]|
        invariant present == CountStatus(before + s.records[..j], Present)
        invariant absent == CountStatus(before + s.records[..j], Absent)
        invariant late == CountStatus(before + s.records[..j], Late)
      {
        var r := s.records[j];
        assert before + s.records[..j + 1] == (before + s.records[..j]) + [r];
        CountStatusSnoc(before + s.records[..j], r, Present);
        CountStatusSnoc(before + s.records[..j], r, Absent);
        CountStatusSnoc(before + s.records[..j], r, Late);
        total := total + 1;
        if r.status == Present {
          present := present + 1;
        } else if r.status == Absent {
          absent := absent + 1;
        } else if r.status == Late {
          late := late + 1;
        }
      }
      assert s.records[..|s.records|] == s.records;
      assert sessions[..i + 1] == sessions[..i] + [s];
      AllRecordsSnoc(sessions[..i], s);
    }
    assert sessions[..|sessions|] == sessions;
    StatusCountsCoverAll(AllRecords(sessions));
    stats := Stats(present, absent, late, total);
  }

  /**
   * The "N Present" figure shown on each session row
   * (components/AttendanceHistory.tsx:174): never more than the row's total.
   */
  function PresentInSession(session: Session): (n: nat)
    ensures n <= |session.records|
    ensures n == CountStatus(session.records, Present)
  {
    FilterCountsStatus(session.records, Present);
    |Filter(session.records, (r: AttendanceRecord) => r.status == Present)|
  }

  lemma {:induction false} FilterCountsStatus(recs: seq<AttendanceRecord>, st: Status)
    ensures |Filter(recs, (r: AttendanceRecord) => r.status == st)| == CountStatus(recs, st)
  {
    if recs != [] {
      var init := recs[..|recs| - 1];
      var last := recs[|recs| - 1];
      FilterCountsStatus(init, st);
      assert recs == init + [last];
      FilterAppend(init, [last], (r: AttendanceRecord) => r.status == st);
    }
  }

  /**
   * Lexicographic order on date strings. For `YYYY-MM-DD` dates it agrees with
   * the order of `new Date(date).getTime()` the view sorts by.
   */
  predicate DateLeq(a: string, b: string)
  {
    |a| == 0 || (|b| > 0 && (a[0] < b[0] || (a[0] == b[0] && DateLeq(a[1..], b[1..]))))
  }

  lemma {:induction false} DateLeqTotal(a: string, b: string)
    ensures DateLeq(a, b) || DateLeq(b, a)
  {
    if |a| > 0 && |b| > 0 && a[0] == b[0] {
      DateLeqTotal(a[1..], b[1..]);
    }
  }

  lemma {:induction false} DateLeqTransitive(a: string, b: string, c: string)
    requires DateLeq(a, b) && DateLeq(b, c)
    ensures DateLeq(a, c)
  {
    if |a| > 0 && |b| > 0 && |c| > 0 && a[0] == b[0] && b[0] == c[0] {
      DateLeqTransitive(a[1..], b[1..], c[1..]);
    }
  }

  /** Newest date first: no session is followed by one with a later date. */
  predicate DescendingByDate(sessions: seq<Session>)
  {
    forall i, j :: 0 <= i < j < |sessions| ==> DateLeq(sessions[j].date, sessions[i].date)
  }

  /** Places `s` before the first session whose date is not later than its own. */
  function InsertByDate(s: Session, sorted: seq<Session>): (r: seq<Session>)
    requires DescendingByDate(sorted)
    ensures multiset(r) == multiset(sorted) + multiset{s}
    ensures DescendingByDate(r)
  {
    if sorted == [] then [s]
    else if DateLeq(sorted[0].date, s.date) then
      InsertInFront(s, sorted);
      [s] + sorted
    else
      var rest := InsertByDate(s, sorted[1..]);
      DateLeqTotal(sorted[0].date, s.date);
      InsertBehind(s, sorted, rest);
      assert sorted == [sorted[0]] + sorted[1..];
      [sorted[0]] + rest
  }

  lemma InsertInFront(s: Session, sorted: seq<Session>)
    requires DescendingByDate(sorted) && sorted != [] && DateLeq(sorted[0].date, s.date)
    ensures DescendingByDate([s] + sorted)
  {
    var r := [s] + sorted;
    forall i, j | 0 <= i < j < |r|
      ensures DateLeq(r[j].date, r[i].date)
    {
      if i == 0 && j > 1 {
        DateLeqTransitive(r[j].date, sorted[0].date, s.date);
      }
    }
  }

  lemma InsertBehind(s: Session, sorted: seq<Session>, rest: seq<Session>)
    requires DescendingByDate(sorted) && sorted != [] && DateLeq(s.date, sorted[0].date)
    requires multiset(rest) == multiset(sorted[1..]) + multiset{s}
    requires DescendingByDate(rest)
    ensures DescendingByDate([sorted[0]] + rest)
  {
    var r := [sorted[0]] + rest;
    forall i, j | 0 <= i < j < |r|
      ensures DateLeq(r[j].date, r[i].date)
    {
      if i == 0 {
        assert r[j] in multiset(rest);
        if r[j] != s {
          assert r[j] in multiset(sorted[1..]);
          var m :| 0 <= m < |sorted[1..]| && sorted[1..][m] == r[j];
          assert sorted[m + 1] == r[j];
        }
      }
    }
  }

  /** `sort((a, b) => date(b) - date(a))`: an insertion sort that keeps equal dates in their order. */
  function SortByDate(sessions: seq<Session>): (r: seq<Session>)
    ensures multiset(r) == multiset(sessions)
    ensures DescendingByDate(r)
  {
    if sessions == [] then []
    else
      assert sessions == [sessions[0]] + sessions[1..];
      InsertByDate(sessions[0], SortByDate(sessions[1..]))
  }

  /** The sessions the date filter keeps: all of them when the filter is empty. */
  function KeptSessions(sessions: seq<Session>, filterDate: string): (kept: seq<Session>)
    ensures forall s :: s in kept <==> s in sessions && (filterDate == "" || s.date == filterDate)
  {
    Filter(sessions, (s: Session) => filterDate == "" || s.date == filterDate)
  }

  /**
   * `filteredSessions` (components/AttendanceHistory.tsx:29-31): the kept
   * sessions, each exactly as often as it was kept, newest date first.
   */
  function FilteredSessions(sessions: seq<Session>, filterDate: string): (r: seq<Session>)
    ensures multiset(r) == multiset(KeptSessions(sessions, filterDate))
    ensures DescendingByDate(r)
    ensures forall s :: s in r <==> s in sessions && (filterDate == "" || s.date == filterDate)
  {
    var kept := KeptSessions(sessions, filterDate);
    var r := SortByDate(kept);
    assert forall s :: s in r <==> s in multiset(r);
    assert forall s :: s in kept <==> s in multiset(kept);
    r
  }

  /** With no filter date, the view lists every session: a reordering of the whole list. */
  lemma EmptyFilterKeepsEverySession(sessions: seq<Session>)
    ensures multiset(FilteredSessions(sessions, "")) == multiset(sessions)
  {
    FilterAll(sessions, (s: Session) => "" == "" || s.date == "");
  }

  /** With a filter date, the view lists exactly that date's sessions. */
  lemma DateFilterKeepsThatDay(sessions: seq<Session>, filterDate: string)
    requires filterDate != ""
    ensures multiset(FilteredSessions(sessions, filterDate)) == multiset(SameDay(sessions, filterDate))
    ensures forall s :: s in FilteredSessions(sessions, filterDate) ==> s.date == filterDate
  {
    FilterAgree(sessions, (s: Session) => filterDate == "" || s.date == filterDate, (s: Session) => s.date == filterDate);
  }
}
