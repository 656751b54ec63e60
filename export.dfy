/** The shift table of a generated month: the TSV export of
    src/App.jsx:205-254 and the on-screen table of src/App.jsx:372-388,
    which show the same cells. */
module Export {
  import opened Common
  import opened Text
  import opened Calendar
  import opened Roster
  import opened Shifts
  import opened Staffing
  import opened Allocator
  import opened Guarantees

  /** Exporting before a schedule was generated (src/App.jsx:206-210). */
  datatype ExportError = NotGenerated

  function Lookup(schedule: map<string, DaySchedule>, key: string): Option<DaySchedule> {
    if key in schedule then Some(schedule[key]) else None
  }

  /** The cell of the employee with id `x` on day `d` of the month. */
  function Cell(schedule: map<string, DaySchedule>, y: int, m: int, x: string, d: nat): string
    requires 1000 <= y && 1 <= m <= 12
  {
    CellText(ShiftOf(Lookup(schedule, KeyOf(y, m, d)), x))
  }

  /** The rows of the export: a header with "従業員" and the day numbers,
      then for each employee in roster order its name and one cell per
      day. */
  method ExportRows(emps: seq<Employee>, schedule: Option<map<string, DaySchedule>>, y: int, m: int)
    returns (r: Result<seq<seq<string>>, ExportError>)
    requires 1000 <= y && 1 <= m <= 12
    ensures r.Err? <==> schedule.None?
    ensures r.Ok? ==>
      var rows, n := r.value, DaysInMonth(y, m);
      && |rows| == |emps| + 1
      && |rows[0]| == n + 1 && rows[0][0] == "従業員"
      && (forall d :: 1 <= d <= n ==> rows[0][d] == Decimal(d))
      && (forall k :: 1 <= k < |rows| ==> IsEmployeeRow(rows[k], emps, schedule.value, y, m, n, emps[k - 1].id))
  {
    if schedule.None? {
      return Err(NotGenerated);
    }
    var sched := schedule.value;
    var n := DaysInMonth(y, m);
    var header := Header(n);
    var rows := [header];
    for i := 0 to |emps|
      invariant |rows| == i + 1 && rows[0] == header
      invariant forall k :: 1 <= k < |rows| ==> IsEmployeeRow(rows[k], emps, sched, y, m, n, emps[k - 1].id)
    {
      var row := EmployeeRow(emps, sched, y, m, n, emps[i].id);
      rows := rows + [row];
    }
    return Ok(rows);
  }

  /** The header row: "従業員" and the day numbers 1 to `n`. */
  method Header(n: nat) returns (header: seq<string>)
    ensures |header| == n + 1 && header[0] == "従業員"
    ensures forall d :: 1 <= d <= n ==> header[d] == Decimal(d)
  {
    header := ["従業員"];
    for d := 1 to n + 1
      invariant |header| == d && header[0] == "従業員"
      invariant forall k :: 1 <= k < d ==> header[k] == Decimal(k)
    {
      header := header + [Decimal(d)];
    }
  }

  /** `row` is the row of the employee with id `x`: its name and its cells
      of days 1 to `n`. */
  predicate IsEmployeeRow(row: seq<string>, emps: seq<Employee>, sched: map<string, DaySchedule>,
                          y: int, m: int, n: nat, x: string)
    requires 1000 <= y && 1 <= m <= 12
  {
    && |row| == n + 1 && row[0] == GetName(emps, x)
    && forall d :: 1 <= d <= n ==> row[d] == Cell(sched, y, m, x, d)
  }

  /** The row of the employee with id `x`. */
  method EmployeeRow(emps: seq<Employee>, sched: map<string, DaySchedule>, y: int, m: int, n: nat, x: string)
    returns (row: seq<string>)
    requires 1000 <= y && 1 <= m <= 12
    ensures IsEmployeeRow(row, emps, sched, y, m, n, x)
  {
    row := [GetName(emps, x)];
    for d := 1 to n + 1
      invariant |row| == d && row[0] == GetName(emps, x)
      invariant forall k :: 1 <= k < d ==> row[k] == Cell(sched, y, m, x, k)
    {
      var daySchedule := Lookup(sched, KeyOf(y, m, d));
      row := row + [CellText(ShiftOf(daySchedule, x))];
    }
  }

  /** On a generated month every cell reads back as a shift, and the
      employee is on that shift's list of the date: the precedence of the
      lookup never hides a second list, because there is none. */
  lemma CellsReadBack(emps: seq<Employee>, pids: seq<string>, y: int, m: int, reqs: seq<Requirement>,
                      schedule: map<string, DaySchedule>, i: nat, d: nat)
    requires 1000 <= y <= 9999 && 1 <= m <= 12 && |reqs| == DaysInMonth(y, m)
    requires schedule.Keys == MonthKeys(y, m)
    requires IsAllocation(emps, pids, y, m, reqs, MonthDays(schedule, y, m))
    requires i < |emps| && 1 <= d <= DaysInMonth(y, m)
    ensures var c := ParseCell(Cell(schedule, y, m, emps[i].id, d));
      c.Some? && emps[i].id in ListOf(MonthDays(schedule, y, m)[d - 1], c.value)
  {
    var days := MonthDays(schedule, y, m);
    EveryoneOnce(emps, pids, y, m, reqs, days, d - 1);
    assert KeyOf(y, m, d) in MonthKeys(y, m);
    assert Lookup(schedule, KeyOf(y, m, d)) == Some(days[d - 1]);
    assert Ids(emps)[i] == emps[i].id;
    ShiftOfPartition(Ids(emps), days[d - 1], emps[i].id);
    CellRoundTrip(ShiftOf(Some(days[d - 1]), emps[i].id));
  }

  /** `tsvContent`: each row's cells joined by tabs, each row ended by a
      newline. */
  function TsvText(rows: seq<seq<string>>): string
    requires forall k :: 0 <= k < |rows| ==> |rows[k]| >= 1
  {
    if rows == [] then "" else Join(rows[0], '\t') + "\n" + TsvText(rows[1..])
  }

  /** A character that is neither the separator nor in any piece is not in
      their join. */
  lemma {:induction false} JoinAvoids(parts: seq<string>, sep: char, c: char)
    requires |parts| >= 1 && c != sep
    requires forall k :: 0 <= k < |parts| ==> c !in parts[k]
    ensures c !in Join(parts, sep)
  {
    if |parts| > 1 {
      JoinAvoids(parts[1..], sep, c);
    }
  }

  /** When no cell holds a tab or a newline, splitting the text at newlines
      gives one line per row and a final empty piece, and splitting each
      line at tabs gives the row's cells back. */
  lemma {:induction false} TsvRoundTrip(rows: seq<seq<string>>)
    requires forall k :: 0 <= k < |rows| ==> |rows[k]| >= 1
    requires forall k, c :: 0 <= k < |rows| && c in rows[k] ==> '\t' !in c && '\n' !in c
    ensures var lines := Split(TsvText(rows), '\n');
      && |lines| == |rows| + 1 && lines[|rows|] == ""
      && forall k :: 0 <= k < |rows| ==> Split(lines[k], '\t') == rows[k]
  {
    if rows != [] {
      var line := Join(rows[0], '\t');
      var rest := TsvText(rows[1..]);
      TsvRoundTrip(rows[1..]);
      forall k | 0 <= k < |rows[0]| ensures '\n' !in rows[0][k] {
        assert rows[0][k] in rows[0];
      }
      JoinAvoids(rows[0], '\t', '\n');
      SplitUnseparatedPrefix(line, "\n" + rest, '\n');
      assert ("\n" + rest)[1..] == rest;
      assert Split("\n" + rest, '\n') == [""] + Split(rest, '\n');
      assert TsvText(rows) == line + ("\n" + rest);
      assert line + "" == line;
      SplitJoin(rows[0], '\t');
    }
  }
}
