/**
 * `exportCSV` of components/AttendanceHistory.tsx: the text of the raw-log
 * report, a header line and then one line per record, session by session and
 * record by record. Turning the text into a downloaded file is not modelled.
 */
module HistoryExport {
  import opened Seqs
  import opened Types

  /** The column names of the report. */
  const Title: string := "Date," + "Student Name," + "Status," + "Confidence," + "Timestamp"

  /** The first line of every export, with its line break. */
  const Header: string := Title + "\n"

  /**
   * The name field's content, `student?.name || 'Unknown'`: the first roster
   * entry with the id names the student, unless there is none or its name is empty.
   */
  function NameOf(students: seq<Student>, id: string): (name: string)
    ensures forall k :: 0 <= k < |students| && students[k].id == id && (forall j :: 0 <= j < k ==> students[j].id != id) ==>
              name == if students[k].name != "" then students[k].name else "Unknown"
    ensures (forall k :: 0 <= k < |students| ==> students[k].id != id) ==> name == "Unknown"
    ensures name != ""
  {
    var found := FindStudent(students, id);
    if found.Some? && found.value.name != "" then found.value.name else "Unknown"
  }

  function Digit(d: nat): (c: char)
    requires d < 10
    ensures '0' <= c <= '9' && c as int - '0' as int == d
  {
    "0123456789"[d]
  }

  /** The number a string of decimal digits denotes, most significant digit first. */
  function DecimalValue(s: string): nat
    requires forall i :: 0 <= i < |s| ==> '0' <= s[i] <= '9'
  {
    if s == [] then 0
    else 10 * DecimalValue(s[..|s| - 1]) + (s[|s| - 1] as int - '0' as int)
  }

  /** The decimal text of a number, as a template literal prints a non-negative integer. */
  function NatToString(n: nat): (s: string)
    ensures |s| > 0
    ensures forall i :: 0 <= i < |s| ==> '0' <= s[i] <= '9'
  {
    if n < 10 then [Digit(n)] else NatToString(n / 10) + [Digit(n % 10)]
  }

  /** The digits `NatToString` writes denote the number. */
  lemma {:induction false} NatToStringValue(n: nat)
    ensures DecimalValue(NatToString(n)) == n
  {
    var s := NatToString(n);
    if n < 10 {
      assert s[..0] == [];
    } else {
      NatToStringValue(n / 10);
      assert s[..|s| - 1] == NatToString(n / 10);
    }
  }

  /**
   * One report line (components/AttendanceHistory.tsx:38): the session's date,
   * the quoted name, the status, the confidence with a percent sign and the
   * timestamp as `formatTime` (the locale formatting) renders it.
   */
  function Row(date: string, r: AttendanceRecord, students: seq<Student>, formatTime: int -> string): string
  {
    Concat(RowFields(date, r, students, formatTime)) + "\n"
  }

  /** The pieces of a report line, separators included, in order. */
  function RowFields(date: string, r: AttendanceRecord, students: seq<Student>, formatTime: int -> string): seq<string>
  {
    [date, ",\"", NameOf(students, r.studentId), "\",", StatusName(r.status), ",",
     NatToString(r.confidence), "%,", formatTime(r.timestamp)]
  }

  /**
   * A report line starts with the session's date followed by the opening of
   * the quoted name, and ends with a line break.
   */
  lemma RowLayout(date: string, r: AttendanceRecord, students: seq<Student>, formatTime: int -> string)
    ensures var line := Row(date, r, students, formatTime);
            && |date| + 2 < |line|
            && line[..|date|] == date && line[|date|] == ',' && line[|date| + 1] == '"'
            && line[|line| - 1] == '\n'
  {
    var fields := RowFields(date, r, students, formatTime);
    var head: seq<string> := [date, ",\""];
    var opening := date + ",\"";
    assert fields == head + fields[2..];
    ConcatAppend(head, fields[2..]);
    ConcatSnoc([], date);
    assert [] + [date] == [date];
    ConcatSnoc([date], ",\"");
    assert [date] + [",\""] == head;
    assert Concat(head) == opening;
    AppendAssoc(opening, Concat(fields[2..]), "\n");
    assert Row(date, r, students, formatTime) == opening + (Concat(fields[2..]) + "\n");
  }

  /** The lines for one session's records, in record order. */
  function SessionRows(s: Session, students: seq<Student>, formatTime: int -> string): seq<string>
  {
    seq(|s.records|, k requires 0 <= k < |s.records| => Row(s.date, s.records[k], students, formatTime))
  }

  /** Each record of a session paired with the session's date, in record order. */
  function Dated(s: Session): seq<(string, AttendanceRecord)>
  {
    seq(|s.records|, k requires 0 <= k < |s.records| => (s.date, s.records[k]))
  }

  /** Every record paired with the date of its session, session by session. */
  function DatedRecords(sessions: seq<Session>): seq<(string, AttendanceRecord)>
  {
    if sessions == [] then []
    else DatedRecords(sessions[..|sessions| - 1]) + Dated(sessions[|sessions| - 1])
  }

  /** The lines for all records, session by session. */
  function Rows(sessions: seq<Session>, students: seq<Student>, formatTime: int -> string): seq<string>
  {
    var dated := DatedRecords(sessions);
    seq(|dated|, k requires 0 <= k < |dated| => Row(dated[k].0, dated[k].1, students, formatTime))
  }

  /** The lines of a list of sessions are those of all but the last, then the last one's. */
  lemma RowsSnoc(sessions: seq<Session>, students: seq<Student>, formatTime: int -> string)
    requires sessions != []
    ensures Rows(sessions, students, formatTime)
            == Rows(sessions[..|sessions| - 1], students, formatTime) + SessionRows(sessions[|sessions| - 1], students, formatTime)
  {
    var front := DatedRecords(sessions[..|sessions| - 1]);
    var tail := Dated(sessions[|sessions| - 1]);
    assert DatedRecords(sessions) == front + tail;
  }

  /** The lines joined in order. */
  function Concat(lines: seq<string>): string
  {
    if lines == [] then "" else Concat(lines[..|lines| - 1]) + lines[|lines| - 1]
  }

  lemma ConcatSnoc(lines: seq<string>, line: string)
    ensures Concat(lines + [line]) == Concat(lines) + line
  {
    assert (lines + [line])[..|lines|] == lines;
  }

  /** The text of the lines of a line list, joined in order. */
  lemma {:induction false} ConcatAppend(a: seq<string>, b: seq<string>)
    ensures Concat(a + b) == Concat(a) + Concat(b)
    decreases |b|
  {
    if b == [] {
      assert a + b == a;
    } else {
      ConcatAppend(a, b[..|b| - 1]);
      AppendSnoc(a, b);
      ConcatSnoc(a + b[..|b| - 1], b[|b| - 1]);
      ConcatSnoc(b[..|b| - 1], b[|b| - 1]);
      AppendAssoc(Concat(a), Concat(b[..|b| - 1]), b[|b| - 1]);
    }
  }

  /** The inner loop of `exportCSV`: one line per record of the session. */
  method SessionText(s: Session, students: seq<Student>, formatTime: int -> string) returns (out: string)
    ensures out == Concat(SessionRows(s, students, formatTime))
  {
    out := "";
    ghost var rows := SessionRows(s, students, formatTime);
    for j := 0 to |s.records|
      invariant out == Concat(rows[..j])
    {
      var line := Row(s.date, s.records[j], students, formatTime);
      assert line == rows[j];
      TakeSnoc(rows, j);
      ConcatSnoc(rows[..j], line);
      out := out + line;
    }
    assert rows[..|s.records|] == rows;
  }

  /** `exportCSV`'s text: the header, then the lines of each session in list order. */
  method ExportCsv(sessions: seq<Session>, students: seq<Student>, formatTime: int -> string) returns (csv: string)
    ensures csv == Header + Concat(Rows(sessions, students, formatTime))
  {
    var body := "";
    for i := 0 to |sessions|
      invariant body == Concat(Rows(sessions[..i], students, formatTime))
    {
      var text := SessionText(sessions[i], students, formatTime);
      body := body + text;
      assert sessions[..i + 1][..i] == sessions[..i];
      RowsSnoc(sessions[..i + 1], students, formatTime);
      ConcatAppend(Rows(sessions[..i], students, formatTime), SessionRows(sessions[i], students, formatTime));
    }
    assert sessions[..|sessions|] == sessions;
    csv := Header + body;
  }

  /**
   * The record at position m of session j sits at position
   * |AllRecords(sessions[..j])| + m of all records.
   */
  lemma {:induction false} RecordAtPosition(sessions: seq<Session>, j: nat, m: nat)
    requires j < |sessions| && m < |sessions[j].records|
    ensures |AllRecords(sessions[..j])| + m < |AllRecords(sessions)|
    ensures AllRecords(sessions)[|AllRecords(sessions[..j])| + m] == sessions[j].records[m]
  {
    var init := sessions[..|sessions| - 1];
    if j < |init| {
      RecordAtPosition(init, j, m);
      assert sessions[..j] == init[..j];
    } else {
      assert sessions[..j] == init;
    }
  }

  /** Every position of the record list is position m of some session j. */
  lemma {:induction false} RecordPosition(sessions: seq<Session>, k: nat) returns (j: nat, m: nat)
    requires k < |AllRecords(sessions)|
    ensures j < |sessions| && m < |sessions[j].records|
    ensures k == |AllRecords(sessions[..j])| + m
  {
    var init := sessions[..|sessions| - 1];
    if k < |AllRecords(init)| {
      j, m := RecordPosition(init, k);
      assert sessions[..j] == init[..j];
    } else {
      j, m := |init|, k - |AllRecords(init)|;
      assert sessions[..j] == init;
    }
  }

  /** The dated record at the position of record m of session j is that record with session j's date. */
  lemma {:induction false} DatedAtPosition(sessions: seq<Session>, j: nat, m: nat)
    requires j < |sessions| && m < |sessions[j].records|
    ensures |AllRecords(sessions[..j])| + m < |DatedRecords(sessions)|
    ensures DatedRecords(sessions)[|AllRecords(sessions[..j])| + m] == (sessions[j].date, sessions[j].records[m])
  {
    var init := sessions[..|sessions| - 1];
    DatedRecordsLength(init);
    if j < |init| {
      DatedAtPosition(init, j, m);
      assert sessions[..j] == init[..j];
    } else {
      assert sessions[..j] == init;
    }
  }

  lemma {:induction false} DatedRecordsLength(sessions: seq<Session>)
    ensures |DatedRecords(sessions)| == |AllRecords(sessions)|
  {
    if sessions != [] {
      DatedRecordsLength(sessions[..|sessions| - 1]);
    }
  }

  /**
   * The line at the position of the record at position m of session j is
   * that record's line, written with session j's date.
   */
  lemma RowAtPosition(sessions: seq<Session>, students: seq<Student>, formatTime: int -> string, j: nat, m: nat)
    requires j < |sessions| && m < |sessions[j].records|
    ensures |AllRecords(sessions[..j])| + m < |Rows(sessions, students, formatTime)|
    ensures Rows(sessions, students, formatTime)[|AllRecords(sessions[..j])| + m]
            == Row(sessions[j].date, sessions[j].records[m], students, formatTime)
  {
    DatedAtPosition(sessions, j, m);
  }

  lemma RowsLength(sessions: seq<Session>, students: seq<Student>, formatTime: int -> string)
    ensures |Rows(sessions, students, formatTime)| == |AllRecords(sessions)|
  {
    DatedRecordsLength(sessions);
  }

  /**
   * One line per record: the k-th line is the line of the k-th record in
   * session order, written with the date of a session that holds that record.
   */
  lemma RowsFollowRecords(sessions: seq<Session>, students: seq<Student>, formatTime: int -> string)
    ensures |Rows(sessions, students, formatTime)| == |AllRecords(sessions)|
    ensures forall k :: 0 <= k < |AllRecords(sessions)| ==>
              exists s :: s in sessions && AllRecords(sessions)[k] in s.records &&
                          Rows(sessions, students, formatTime)[k] == Row(s.date, AllRecords(sessions)[k], students, formatTime)
  {
    RowsLength(sessions, students, formatTime);
    forall k | 0 <= k < |AllRecords(sessions)|
      ensures exists s :: s in sessions && AllRecords(sessions)[k] in s.records &&
                          Rows(sessions, students, formatTime)[k] == Row(s.date, AllRecords(sessions)[k], students, formatTime)
    {
      var j, m := RecordPosition(sessions, k);
      RecordAtPosition(sessions, j, m);
      RowAtPosition(sessions, students, formatTime, j, m);
      assert sessions[j] in sessions;
    }
  }

  /** Number of line breaks in a text. */
  function Newlines(s: string): nat
  {
    if s == "" then 0 else Newlines(s[..|s| - 1]) + (if s[|s| - 1] == '\n' then 1 else 0)
  }

  lemma {:induction false} NewlinesAppend(a: string, b: string)
    ensures Newlines(a + b) == Newlines(a) + Newlines(b)
    decreases |b|
  {
    if b == "" {
      assert a + b == a;
    } else {
      NewlinesAppend(a, b[..|b| - 1]);
      assert (a + b)[..|a + b| - 1] == a + b[..|b| - 1];
    }
  }

  lemma {:induction false} NoNewlines(s: string)
    requires '\n' !in s
    ensures Newlines(s) == 0
  {
    if s != "" {
      NoNewlines(s[..|s| - 1]);
    }
  }

  /** No date, no roster name and no rendered timestamp contains a line break. */
  ghost predicate SingleLineFields(sessions: seq<Session>, students: seq<Student>, formatTime: int -> string)
  {
    && (forall i :: 0 <= i < |sessions| ==> '\n' !in sessions[i].date)
    && (forall k :: 0 <= k < |students| ==> '\n' !in students[k].name)
    && (forall t :: '\n' !in formatTime(t))
  }

  lemma NameIsOneLine(students: seq<Student>, id: string)
    requires forall k :: 0 <= k < |students| ==> '\n' !in students[k].name
    ensures '\n' !in NameOf(students, id)
  {
    var found := FindStudent(students, id);
    if found.Some? && found.value.name != "" {
      var k :| 0 <= k < |students| && students[k] == found.value;
    }
  }

  lemma DigitsAreOneLine(n: nat)
    ensures '\n' !in NatToString(n)
  {
    var s := NatToString(n);
    forall i | 0 <= i < |s|
      ensures s[i] != '\n'
    {
    }
  }

  /** Joining break-free pieces adds no break. */
  lemma {:induction false} ConcatWithoutBreak(parts: seq<string>)
    requires forall i :: 0 <= i < |parts| ==> '\n' !in parts[i]
    ensures '\n' !in Concat(parts)
  {
    if parts != [] {
      ConcatWithoutBreak(parts[..|parts| - 1]);
    }
  }

  lemma RowIsOneLine(date: string, r: AttendanceRecord, students: seq<Student>, formatTime: int -> string)
    requires '\n' !in date
    requires forall k :: 0 <= k < |students| ==> '\n' !in students[k].name
    requires forall t :: '\n' !in formatTime(t)
    ensures Newlines(Row(date, r, students, formatTime)) == 1
  {
    var fields := RowFields(date, r, students, formatTime);
    NameIsOneLine(students, r.studentId);
    DigitsAreOneLine(r.confidence);
    assert forall i :: 0 <= i < |fields| ==> '\n' !in fields[i];
    ConcatWithoutBreak(fields);
    NoNewlines(Concat(fields));
    NewlinesAppend(Concat(fields), "\n");
  }

  lemma {:induction false} ConcatOfLines(lines: seq<string>)
    requires forall i :: 0 <= i < |lines| ==> Newlines(lines[i]) == 1
    ensures Newlines(Concat(lines)) == |lines|
  {
    if lines != [] {
      ConcatOfLines(lines[..|lines| - 1]);
      NewlinesAppend(Concat(lines[..|lines| - 1]), lines[|lines| - 1]);
    }
  }

  /** Under the same condition, every report line ends the only line break it holds. */
  lemma RowsAreLines(sessions: seq<Session>, students: seq<Student>, formatTime: int -> string)
    requires SingleLineFields(sessions, students, formatTime)
    ensures forall i :: 0 <= i < |Rows(sessions, students, formatTime)| ==> Newlines(Rows(sessions, students, formatTime)[i]) == 1
  {
    var rows := Rows(sessions, students, formatTime);
    var recs := AllRecords(sessions);
    RowsFollowRecords(sessions, students, formatTime);
    forall i | 0 <= i < |rows|
      ensures Newlines(rows[i]) == 1
    {
      var s :| s in sessions && recs[i] in s.records && rows[i] == Row(s.date, recs[i], students, formatTime);
      SessionRowIsOneLine(sessions, students, formatTime, s, recs[i]);
    }
  }

  lemma SessionRowIsOneLine(sessions: seq<Session>, students: seq<Student>, formatTime: int -> string, s: Session, r: AttendanceRecord)
    requires SingleLineFields(sessions, students, formatTime)
    requires s in sessions
    ensures Newlines(Row(s.date, r, students, formatTime)) == 1
  {
    var j :| 0 <= j < |sessions| && sessions[j] == s;
    RowIsOneLine(s.date, r, students, formatTime);
  }

  lemma HeaderIsOneLine()
    ensures Newlines(Header) == 1
  {
    assert '\n' !in Title;
    NoNewlines(Title);
    NewlinesAppend(Title, "\n");
  }

  /**
   * When no field spans lines, the export has exactly one line for the header
   * plus one per record, every session's records included.
   */
  lemma ExportLineCount(sessions: seq<Session>, students: seq<Student>, formatTime: int -> string)
    requires SingleLineFields(sessions, students, formatTime)
    ensures Newlines(Header + Concat(Rows(sessions, students, formatTime))) == 1 + |AllRecords(sessions)|
  {
    var rows := Rows(sessions, students, formatTime);
    RowsFollowRecords(sessions, students, formatTime);
    RowsAreLines(sessions, students, formatTime);
    ConcatOfLines(rows);
    HeaderIsOneLine();
    NewlinesAppend(Header, Concat(rows));
  }
}
