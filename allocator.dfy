/** The schedule generator `generateScheduleLogic` (src/App.jsx:127-201).

    A first pass over the month marks every requested day off as HOLIDAY,
    priority requests before ordinary ones. A second pass, day by day,
    fills the day shift from the free employees with the fewest day shifts
    so far (skipping anyone who worked the night before), then the night
    shift from those still free with the fewest night shifts, and marks
    everyone left as OFF; a shift left short of its head count produces a
    warning.

    Each employee's running state (`employeeStates`) is a `WorkerState`
    kept at the employee's position in the roster. Its shifts are keyed by
    the day of the month; `DateKeyInjective` makes this the same as keying
    them by date string, and day 0 stands for the last day of the previous
    month (`PrevDateKeyInMonth`), which is never a key. */
module Allocator {
  import opened Common
  import opened Calendar
  import opened Holidays
  import opened Staffing
  import opened Roster
  import opened Shifts
  import opened Ranking

  datatype WorkerState = WorkerState(shifts: map<nat, Shift>, totalDayShifts: nat, totalNightShifts: nat)

  /** A warning about one shift of one date: `required` were needed and
      only `actual` were assigned. */
  datatype Warning = Warning(date: string, shift: Shift, required: nat, actual: nat)

  datatype GenerateError = NoEmployees

  /** `currentSchedule` keyed by date, and the warnings in the order they
      were raised. */
  datatype Generated = Generated(schedule: map<string, DaySchedule>, warnings: seq<Warning>)

  // ---------------------------------------------------------------------
  // Dates of the month
  // ---------------------------------------------------------------------

  function KeyOf(y: int, m: int, d: nat): string
    requires 1000 <= y && 1 <= m <= 12
  {
    DateKey(Date(y, m, d))
  }

  /** The head counts of every day of the month, in order. */
  function MonthRequirements(cfg: StaffingConfig, holidays: seq<string>, y: int, m: int): seq<Requirement>
    requires 1000 <= y && 1 <= m <= 12
  {
    seq(DaysInMonth(y, m), j requires 0 <= j => RequiredStaff(cfg, holidays, Date(y, m, j + 1)))
  }

  // ---------------------------------------------------------------------
  // Requests (first pass)
  // ---------------------------------------------------------------------

  /** The employee asked for the date off. */
  predicate Requested(e: Employee, key: string) {
    FirstRequest(e.requests, key).Some?
  }

  /** The employee asked for the date off, and the request is a priority
      one (its own flag, or the employee is on the priority list) exactly
      when `priority` says so. */
  predicate RequestOfKind(e: Employee, pids: seq<string>, key: string, priority: bool) {
    var r := FirstRequest(e.requests, key);
    r.Some? && ((r.value.priority || e.id in pids) == priority)
  }

  /** Ids of the employees with a request of the given kind, in roster
      order. */
  function Requesters(emps: seq<Employee>, pids: seq<string>, key: string, priority: bool): seq<string> {
    if emps == [] then []
    else
      var e := emps[|emps| - 1];
      Requesters(emps[..|emps| - 1], pids, key, priority)
      + if RequestOfKind(e, pids, key, priority) then [e.id] else []
  }

  /** The holiday list of a date after the first pass: the priority
      requesters, then the others. */
  function HolidayList(emps: seq<Employee>, pids: seq<string>, key: string): seq<string> {
    Requesters(emps, pids, key, true) + Requesters(emps, pids, key, false)
  }

  /** An id is among the requesters of a kind exactly when an employee with
      that id made a request of that kind. */
  lemma {:induction false} RequestersMembership(emps: seq<Employee>, pids: seq<string>, key: string, priority: bool, x: string)
    ensures x in Requesters(emps, pids, key, priority) <==>
      exists i :: 0 <= i < |emps| && emps[i].id == x && RequestOfKind(emps[i], pids, key, priority)
  {
    if emps != [] {
      var init := emps[..|emps| - 1];
      RequestersMembership(init, pids, key, priority, x);
      if exists i :: 0 <= i < |emps| && emps[i].id == x && RequestOfKind(emps[i], pids, key, priority) {
        var i :| 0 <= i < |emps| && emps[i].id == x && RequestOfKind(emps[i], pids, key, priority);
        if i < |emps| - 1 {
          assert init[i] == emps[i];
        }
      }
    }
  }

  lemma {:induction false} RequestersNoDup(emps: seq<Employee>, pids: seq<string>, key: string, priority: bool)
    requires UniqueIds(emps)
    ensures NoDup(Requesters(emps, pids, key, priority))
  {
    if emps != [] {
      var init := emps[..|emps| - 1];
      var e := emps[|emps| - 1];
      assert UniqueIds(init);
      RequestersNoDup(init, pids, key, priority);
      RequestersMembership(init, pids, key, priority, e.id);
      forall i | 0 <= i < |init| ensures init[i].id != e.id {
        assert init[i] == emps[i];
      }
    }
  }

  /** With unique ids, an employee is on a date's holiday list exactly when
      it asked for that date off, and the list names every such employee
      once and no one else. */
  lemma HolidayListMembership(emps: seq<Employee>, pids: seq<string>, key: string)
    requires UniqueIds(emps)
    ensures NoDup(HolidayList(emps, pids, key))
    ensures forall i :: 0 <= i < |emps| ==> (emps[i].id in HolidayList(emps, pids, key) <==> Requested(emps[i], key))
    ensures forall x :: x in HolidayList(emps, pids, key) ==> x in Ids(emps)
  {
    var hp, ho := Requesters(emps, pids, key, true), Requesters(emps, pids, key, false);
    RequestersNoDup(emps, pids, key, true);
    RequestersNoDup(emps, pids, key, false);
    forall x ensures x in hp <==> exists i :: 0 <= i < |emps| && emps[i].id == x && RequestOfKind(emps[i], pids, key, true) {
      RequestersMembership(emps, pids, key, true, x);
    }
    forall x ensures x in ho <==> exists i :: 0 <= i < |emps| && emps[i].id == x && RequestOfKind(emps[i], pids, key, false) {
      RequestersMembership(emps, pids, key, false, x);
    }
    forall p, q | 0 <= p < q < |hp + ho| ensures (hp + ho)[p] != (hp + ho)[q] {
      if p < |hp| <= q {
        var x := hp[p];
        assert ho[q - |hp|] == (hp + ho)[q];
        assert x in hp;
        var i :| 0 <= i < |emps| && emps[i].id == x && RequestOfKind(emps[i], pids, key, true);
        forall i' | 0 <= i' < |emps| && emps[i'].id == x ensures !RequestOfKind(emps[i'], pids, key, false) {
          assert i' == i;
        }
        assert x !in ho;
      }
    }
    forall i | 0 <= i < |emps| ensures emps[i].id in hp + ho <==> Requested(emps[i], key) {
      if emps[i].id in hp {
        var i' :| 0 <= i' < |emps| && emps[i'].id == emps[i].id && RequestOfKind(emps[i'], pids, key, true);
        assert i == i';
      }
      if emps[i].id in ho {
        var i' :| 0 <= i' < |emps| && emps[i'].id == emps[i].id && RequestOfKind(emps[i'], pids, key, false);
        assert i == i';
      }
      if Requested(emps[i], key) {
        var r := FirstRequest(emps[i].requests, key);
        assert RequestOfKind(emps[i], pids, key, r.value.priority || emps[i].id in pids);
      }
    }
    forall x | x in hp + ho ensures x in Ids(emps) {
      var i :| 0 <= i < |emps| && emps[i].id == x && (RequestOfKind(emps[i], pids, key, true) || RequestOfKind(emps[i], pids, key, false));
      assert Ids(emps)[i] == x;
    }
  }

  // ---------------------------------------------------------------------
  // What a day's allocation must satisfy
  // ---------------------------------------------------------------------

  /** The number of earlier days on which `x` was on shift `s`. */
  function Tally(days: seq<DaySchedule>, x: string, s: Shift): nat {
    if days == [] then 0
    else Tally(days[..|days| - 1], x, s) + if x in ListOf(days[|days| - 1], s) then 1 else 0
  }

  /** The night list of the day before day `j + 1`, or none on the first day
      of the month. */
  function PrevNight(days: seq<DaySchedule>, j: nat): seq<string>
    requires j <= |days|
  {
    if j == 0 then [] else days[j - 1].night
  }

  /** One day's record `ds`, given the roster `ids`, the day's holiday list
      from the first pass, its head counts, the night list of the day
      before and the records of the earlier days:
      - every employee is on exactly one shift and the holiday list is the
        one from the first pass;
      - no shift gets more than its head count;
      - nobody works the day shift after a night shift;
      - a shift is short only when nobody who could take it is left: an
        employee left OFF means the night shift is full, and an employee
        not on the day shift who did not work the night before means the
        day shift is full;
      - a day shift never goes to someone with more earlier day shifts than
        an employee passed over for it, and a night shift never to someone
        with more earlier night shifts than an employee left OFF. */
  ghost predicate DayAllocation(ids: seq<string>, holiday: seq<string>, req: Requirement,
                          prevNight: seq<string>, before: seq<DaySchedule>, ds: DaySchedule)
  {
    && Partitions(ids, ds)
    && ds.holiday == holiday
    && |ds.day| <= req.day && |ds.night| <= req.night
    && (forall x :: x in ds.day ==> x !in prevNight)
    && (forall x :: x in ds.off ==> |ds.night| == req.night)
    && (forall x :: (x in ds.night || x in ds.off) && x !in prevNight ==> |ds.day| == req.day)
    && (forall x, z :: x in ds.day && (z in ds.night || z in ds.off) && z !in prevNight ==>
          Tally(before, x, Day) <= Tally(before, z, Day))
    && (forall x, z :: x in ds.night && z in ds.off ==> Tally(before, x, Night) <= Tally(before, z, Night))
  }

  /** The record of day `j + 1` of the month, `days[j]`, meets
      `DayAllocation` against that day's holiday list and head counts and
      the records before it. */
  ghost predicate AllocatedOn(emps: seq<Employee>, pids: seq<string>, y: int, m: int,
                              reqs: seq<Requirement>, days: seq<DaySchedule>, j: nat)
    requires 1000 <= y && 1 <= m <= 12 && |reqs| == |days| && j < |days|
  {
    DayAllocation(Ids(emps), HolidayList(emps, pids, KeyOf(y, m, j + 1)), reqs[j], PrevNight(days, j), days[..j], days[j])
  }

  /** A whole month's records, day by day. */
  ghost predicate IsAllocation(emps: seq<Employee>, pids: seq<string>, y: int, m: int,
                               reqs: seq<Requirement>, days: seq<DaySchedule>)
    requires 1000 <= y && 1 <= m <= 12 && |reqs| == |days|
  {
    forall j: nat :: j < |days| ==> AllocatedOn(emps, pids, y, m, reqs, days, j)
  }

  /** The warnings of one date: the day shift's, then the night shift's. */
  function DayShortfalls(key: string, req: Requirement, ds: DaySchedule): seq<Warning> {
    (if |ds.day| < req.day then [Warning(key, Day, req.day, |ds.day|)] else [])
    + (if |ds.night| < req.night then [Warning(key, Night, req.night, |ds.night|)] else [])
  }

  /** The keys of days 1 to `n` of the month. */
  function DayKeys(y: int, m: int, n: nat): seq<string>
    requires 1000 <= y && 1 <= m <= 12
  {
    seq(n, j requires 0 <= j => KeyOf(y, m, j + 1))
  }

  /** The keys of days 1 to `n` are distinct, and each reads back as its
      own date. */
  lemma DayKeysMeaning(y: int, m: int, n: nat)
    requires 1000 <= y <= 9999 && 1 <= m <= 12 && n <= 31
    ensures NoDup(DayKeys(y, m, n))
    ensures forall j :: 0 <= j < n ==> ParseDateKey(DayKeys(y, m, n)[j]) == Some(Date(y, m, j + 1))
  {
    var keys := DayKeys(y, m, n);
    forall j | 0 <= j < n ensures ParseDateKey(keys[j]) == Some(Date(y, m, j + 1)) {
      DateKeyRoundTrip(Date(y, m, j + 1));
    }
  }

  /** The warnings of a run of days, in date order; `keys` are their
      dates. */
  function Shortfalls(keys: seq<string>, reqs: seq<Requirement>, days: seq<DaySchedule>): seq<Warning>
    requires |keys| == |reqs| == |days|
  {
    if days == [] then []
    else
      var n := |days| - 1;
      Shortfalls(keys[..n], reqs[..n], days[..n]) + DayShortfalls(keys[n], reqs[n], days[n])
  }

  /** The text of a warning, as shown to the user. */
  function WarningText(w: Warning): string {
    w.date + ShiftWord(w.shift) + ": 必要" + HeadCount(w.required, w.actual)
  }

  /** The name of the short shift in a warning's text. */
  function ShiftWord(s: Shift): string {
    if s == Day then " 日勤" else " 夜勤"
  }

  /** The head counts in a warning's text: required, then assigned. */
  function HeadCount(required: nat, actual: nat): string {
    Text.Decimal(required) + "人に対し" + Text.Decimal(actual) + "人"
  }

  /** The head-count part of a warning's text tells both numbers. */
  lemma HeadCountInjective(r1: nat, a1: nat, r2: nat, a2: nat)
    requires HeadCount(r1, a1) == HeadCount(r2, a2)
    ensures r1 == r2 && a1 == a2
  {
    var tail1 := "に対し" + (Text.Decimal(a1) + ['人'] + []);
    var tail2 := "に対し" + (Text.Decimal(a2) + ['人'] + []);
    assert HeadCount(r1, a1) == Text.Decimal(r1) + ['人'] + tail1;
    assert HeadCount(r2, a2) == Text.Decimal(r2) + ['人'] + tail2;
    Text.DecimalBeforeMark(r1, r2, '人', tail1, tail2);
    Text.SplitEqual("に対し", Text.Decimal(a1) + ['人'] + [], "に対し", Text.Decimal(a2) + ['人'] + []);
    Text.DecimalBeforeMark(a1, a2, '人', [], []);
  }

  /** Two warnings about day or night shifts of dated days have the same
      text only when they are the same warning: the text tells the date,
      the shift, the head count and the number assigned. */
  lemma WarningTextInjective(w1: Warning, w2: Warning)
    requires IsDateKey(w1.date) && IsDateKey(w2.date)
    requires w1.shift in {Day, Night} && w2.shift in {Day, Night}
    ensures WarningText(w1) == WarningText(w2) ==> w1 == w2
  {
    if WarningText(w1) == WarningText(w2) {
      var p1, p2 := ShiftWord(w1.shift) + ": 必要", ShiftWord(w2.shift) + ": 必要";
      assert WarningText(w1) == (w1.date + p1) + HeadCount(w1.required, w1.actual);
      assert WarningText(w2) == (w2.date + p2) + HeadCount(w2.required, w2.actual);
      Text.SplitEqual(w1.date + p1, HeadCount(w1.required, w1.actual),
                      w2.date + p2, HeadCount(w2.required, w2.actual));
      Text.SplitEqual(w1.date, p1, w2.date, p2);
      assert p1[1] == ShiftWord(w1.shift)[1];
      assert p2[1] == ShiftWord(w2.shift)[1];
      HeadCountInjective(w1.required, w1.actual, w2.required, w2.actual);
    }
  }


  // ---------------------------------------------------------------------
  // Worker states
  // ---------------------------------------------------------------------

  predicate Has(w: WorkerState, d: nat, s: Shift) {
    d in w.shifts && w.shifts[d] == s
  }

  /** `emp.shifts[prevDateStr] === SHIFT_TYPES.NIGHT`. */
  predicate PrevWasNight(w: WorkerState, d: nat)
    requires d >= 1
  {
    Has(w, d - 1, Night)
  }

  /** The state after taking shift `s` on day `d`, counters included. */
  function Took(w: WorkerState, d: nat, s: Shift): WorkerState {
    WorkerState(w.shifts[d := s],
                w.totalDayShifts + (if s == Day then 1 else 0),
                w.totalNightShifts + (if s == Night then 1 else 0))
  }

  /** The filters of src/App.jsx:169 and 180: no shift yet on day `d`, or,
      for the night shift, OFF. */
  predicate Eligible(w: WorkerState, d: nat, forNight: bool) {
    d !in w.shifts || (forNight && w.shifts[d] == Off)
  }

  /** `employeeStates.filter(...)` over the first `k` states: the positions
      that pass, in roster order. */
  function Candidates(ws: seq<WorkerState>, d: nat, forNight: bool, k: nat): (c: seq<nat>)
    requires k <= |ws|
    ensures forall p :: 0 <= p < |c| ==> c[p] < k && Eligible(ws[c[p]], d, forNight)
    ensures forall p, q :: 0 <= p < q < |c| ==> c[p] < c[q]
    ensures forall i :: 0 <= i < k && Eligible(ws[i], d, forNight) ==> i in c
  {
    if k == 0 then []
    else
      var c := Candidates(ws, d, forNight, k - 1);
      if Eligible(ws[k - 1], d, forNight) then c + [k - 1] else c
  }

  // ---------------------------------------------------------------------
  // One day of the second pass
  // ---------------------------------------------------------------------

  /** What the day-shift loop guarantees, `ws'` and `day` being the
      states and the day list after it:
      - at most `required` workers, each listed once, take the day shift;
        they had no shift that day and did not work the night before;
        nobody else changes;
      - a worker who could have taken it and did not means the shift is
        full;
      - nobody who took it had more day shifts than one who could have
        taken it and did not. */
  predicate DayLoopDone(ids: seq<string>, ws: seq<WorkerState>, d: nat, required: nat, ws': seq<WorkerState>, day: seq<string>)
    requires d >= 1 && |ids| == |ws| == |ws'|
  {
    && |day| <= required && NoDup(day)
    && (forall i :: 0 <= i < |ws| ==>
         ws'[i] == ws[i] || (d !in ws[i].shifts && !PrevWasNight(ws[i], d) && ws'[i] == Took(ws[i], d, Day)))
    && (forall i :: 0 <= i < |ws| ==> (ids[i] in day <==> ws'[i] != ws[i]))
    && (forall x :: x in day ==> x in ids)
    && (forall i :: 0 <= i < |ws| && d !in ws[i].shifts && !PrevWasNight(ws[i], d) && ws'[i] == ws[i] ==>
         |day| == required)
    && (forall i, j :: (0 <= i < |ws| && 0 <= j < |ws| && ws'[i] != ws[i] &&
         d !in ws[j].shifts && !PrevWasNight(ws[j], d) && ws'[j] == ws[j]) ==>
         ws[i].totalDayShifts <= ws[j].totalDayShifts)
  }

  /** The day-shift loop of src/App.jsx:170-175, over the candidates in
      `order`: stop when the head count is reached, skip anyone who worked
      the night before, otherwise give the day shift. */
  method AssignDay(ids: seq<string>, ws: seq<WorkerState>, d: nat, required: nat, order: seq<nat>)
    returns (ws': seq<WorkerState>, day: seq<string>)
    requires d >= 1 && |ids| == |ws| && NoDup(ids)
    requires NoDup(order)
    requires forall p :: 0 <= p < |order| ==> order[p] < |ws| && d !in ws[order[p]].shifts
    requires forall i :: 0 <= i < |ws| && d !in ws[i].shifts ==> i in order
    requires forall p, q :: 0 <= p < q < |order| ==> Count(ws[order[p]], false) <= Count(ws[order[q]], false)
    ensures |ws'| == |ws| && DayLoopDone(ids, ws, d, required, ws', day)
  {
    ws' := ws;
    day := [];
    var count := |day|;
    var k := 0;
    while k < |order|
      invariant 0 <= k <= |order|
      invariant |ws'| == |ws| && count == |day| <= required && NoDup(day)
      invariant forall i :: 0 <= i < |ws| ==>
        ws'[i] == ws[i] || (i in order[..k] && d !in ws[i].shifts && !PrevWasNight(ws[i], d) && ws'[i] == Took(ws[i], d, Day))
      invariant forall i :: 0 <= i < |ws| ==> (ids[i] in day <==> ws'[i] != ws[i])
      invariant forall x :: x in day ==> x in ids
      invariant forall p :: 0 <= p < k ==> PrevWasNight(ws[order[p]], d) || ws'[order[p]] != ws[order[p]]
    {
      if count >= required {
        break;
      }
      var i := order[k];
      assert i !in order[..k];
      if PrevWasNight(ws'[i], d) {
        k := k + 1;
        continue;
      }
      ws' := ws'[i := Took(ws'[i], d, Day)];
      day := day + [ids[i]];
      count := count + 1;
      k := k + 1;
    }
    DayLoopFair(ws, d, order, ws', k, |day| == required);
  }

  /** When the day-shift loop stops at position `k` of `order`, everyone
      it skipped that could have worked comes later in `order`: the shift
      is full, and nobody ahead of them had more day shifts. */
  lemma DayLoopFair(ws: seq<WorkerState>, d: nat, order: seq<nat>, ws': seq<WorkerState>, k: nat, full: bool)
    requires d >= 1 && |ws'| == |ws| && k <= |order|
    requires forall p :: 0 <= p < |order| ==> order[p] < |ws|
    requires forall i :: 0 <= i < |ws| && d !in ws[i].shifts ==> i in order
    requires forall p, q :: 0 <= p < q < |order| ==> Count(ws[order[p]], false) <= Count(ws[order[q]], false)
    requires forall i :: 0 <= i < |ws| ==> ws'[i] == ws[i] || i in order[..k]
    requires forall p :: 0 <= p < k ==> PrevWasNight(ws[order[p]], d) || ws'[order[p]] != ws[order[p]]
    requires k < |order| ==> full
    ensures forall i, j :: (0 <= i < |ws| && 0 <= j < |ws| && ws'[i] != ws[i] &&
      d !in ws[j].shifts && !PrevWasNight(ws[j], d) && ws'[j] == ws[j]) ==>
      ws[i].totalDayShifts <= ws[j].totalDayShifts && full
  {
    forall i, j | 0 <= i < |ws| && 0 <= j < |ws| && ws'[i] != ws[i] &&
      d !in ws[j].shifts && !PrevWasNight(ws[j], d) && ws'[j] == ws[j]
      ensures ws[i].totalDayShifts <= ws[j].totalDayShifts && full
    {
      var p :| 0 <= p < k && order[p] == i;
      var q :| 0 <= q < |order| && order[q] == j;
      assert q >= k;
    }
  }

  /** The off list names exactly the workers that are OFF on day `d`. */
  predicate OffListed(ids: seq<string>, ws: seq<WorkerState>, d: nat, off: seq<string>)
    requires |ids| == |ws|
  {
    && NoDup(off)
    && (forall x :: x in off ==> x in ids)
    && (forall i :: 0 <= i < |ws| ==> (ids[i] in off <==> Has(ws[i], d, Off)))
  }

  /** What the night-shift loop guarantees, `ws'` and `night` being the
      states and the night list after it:
      - at most `required` workers, each listed once, take the night shift;
        they had no shift that day or were OFF; nobody else changes;
      - a worker who could have taken it and did not means the shift is
        full;
      - nobody who took it had more night shifts than one who could have
        taken it and did not. */
  predicate NightLoopDone(ids: seq<string>, ws: seq<WorkerState>, d: nat, required: nat, ws': seq<WorkerState>, night: seq<string>)
    requires |ids| == |ws| == |ws'|
  {
    && |night| <= required && NoDup(night)
    && (forall i :: 0 <= i < |ws| ==>
         ws'[i] == ws[i] || (Eligible(ws[i], d, true) && ws'[i] == Took(ws[i], d, Night)))
    && (forall i :: 0 <= i < |ws| ==> (ids[i] in night <==> ws'[i] != ws[i]))
    && (forall x :: x in night ==> x in ids)
    && (forall i :: 0 <= i < |ws| && Eligible(ws[i], d, true) && ws'[i] == ws[i] ==> |night| == required)
    && (forall i, j :: (0 <= i < |ws| && 0 <= j < |ws| && ws'[i] != ws[i] &&
         Eligible(ws[j], d, true) && ws'[j] == ws[j]) ==>
         ws[i].totalNightShifts <= ws[j].totalNightShifts)
  }

  /** The night-shift loop of src/App.jsx:180-186, over the candidates in
      `order`: stop when the head count is reached; a candidate that was
      OFF leaves the off list; the candidate takes the night shift. */
  method AssignNight(ids: seq<string>, ws: seq<WorkerState>, d: nat, required: nat, order: seq<nat>, off: seq<string>)
    returns (ws': seq<WorkerState>, night: seq<string>, off': seq<string>)
    requires |ids| == |ws| && NoDup(ids)
    requires NoDup(order)
    requires forall p :: 0 <= p < |order| ==> order[p] < |ws| && Eligible(ws[order[p]], d, true)
    requires forall i :: 0 <= i < |ws| && Eligible(ws[i], d, true) ==> i in order
    requires forall p, q :: 0 <= p < q < |order| ==> Count(ws[order[p]], true) <= Count(ws[order[q]], true)
    requires OffListed(ids, ws, d, off)
    ensures |ws'| == |ws| && NightLoopDone(ids, ws, d, required, ws', night) && OffListed(ids, ws', d, off')
  {
    ws' := ws;
    night := [];
    off' := off;
    var count := |night|;
    var k := 0;
    while k < |order|
      invariant 0 <= k <= |order|
      invariant |ws'| == |ws| && count == |night| <= required && NoDup(night)
      invariant forall i :: 0 <= i < |ws| ==>
        ws'[i] == ws[i] || (i in order[..k] && Eligible(ws[i], d, true) && ws'[i] == Took(ws[i], d, Night))
      invariant forall i :: 0 <= i < |ws| ==> (ids[i] in night <==> ws'[i] != ws[i])
      invariant forall x :: x in night ==> x in ids
      invariant OffListed(ids, ws', d, off')
      invariant forall p :: 0 <= p < k ==> ws'[order[p]] != ws[order[p]]
    {
      if count >= required {
        break;
      }
      var i := order[k];
      assert i !in order[..k];
      if Has(ws'[i], d, Off) {
        off' := Without(off', ids[i]);
      }
      ws' := ws'[i := Took(ws'[i], d, Night)];
      night := night + [ids[i]];
      count := count + 1;
      k := k + 1;
    }
    NightLoopFair(ws, d, order, ws', k, |night| == required);
  }

  /** When the night-shift loop stops at position `k` of `order`, every
      candidate left without the shift comes later in `order`: the shift
      is full, and nobody ahead of them had more night shifts. */
  lemma NightLoopFair(ws: seq<WorkerState>, d: nat, order: seq<nat>, ws': seq<WorkerState>, k: nat, full: bool)
    requires |ws'| == |ws| && k <= |order|
    requires forall p :: 0 <= p < |order| ==> order[p] < |ws|
    requires forall i :: 0 <= i < |ws| && Eligible(ws[i], d, true) ==> i in order
    requires forall p, q :: 0 <= p < q < |order| ==> Count(ws[order[p]], true) <= Count(ws[order[q]], true)
    requires forall i :: 0 <= i < |ws| ==> ws'[i] == ws[i] || i in order[..k]
    requires forall p :: 0 <= p < k ==> ws'[order[p]] != ws[order[p]]
    requires k < |order| ==> full
    ensures forall i, j :: (0 <= i < |ws| && 0 <= j < |ws| && ws'[i] != ws[i] &&
      Eligible(ws[j], d, true) && ws'[j] == ws[j]) ==>
      ws[i].totalNightShifts <= ws[j].totalNightShifts && full
  {
    forall i, j | 0 <= i < |ws| && 0 <= j < |ws| && ws'[i] != ws[i] &&
      Eligible(ws[j], d, true) && ws'[j] == ws[j]
      ensures ws[i].totalNightShifts <= ws[j].totalNightShifts && full
    {
      var p :| 0 <= p < k && order[p] == i;
      var q :| 0 <= q < |order| && order[q] == j;
      assert q >= k;
    }
  }

  /** The loop of src/App.jsx:189-198: everyone still without a shift on
      day `d` becomes OFF and joins the off list. */
  method FillOff(ids: seq<string>, ws: seq<WorkerState>, d: nat, off: seq<string>)
    returns (ws': seq<WorkerState>, off': seq<string>)
    requires |ids| == |ws| && NoDup(ids)
    requires OffListed(ids, ws, d, off)
    ensures |ws'| == |ws|
    ensures forall i :: 0 <= i < |ws| ==> ws'[i] == if d in ws[i].shifts then ws[i] else Took(ws[i], d, Off)
    ensures OffListed(ids, ws', d, off')
  {
    ws' := ws;
    off' := off;
    for i := 0 to |ws|
      invariant |ws'| == |ws|
      invariant forall j :: 0 <= j < i ==> ws'[j] == if d in ws[j].shifts then ws[j] else Took(ws[j], d, Off)
      invariant forall j :: i <= j < |ws| ==> ws'[j] == ws[j]
      invariant OffListed(ids, ws', d, off')
    {
      if d !in ws'[i].shifts {
        ws' := ws'[i := Took(ws'[i], d, Off)];
        off' := off' + [ids[i]];
      }
    }
  }

  /** How one worker's day `d` went: `s` is the shift it ended with and
      `w1`, `w2`, `w3` its states after the day-shift loop, the night-shift
      loop and the OFF fill. */
  ghost predicate Outcome(w: WorkerState, w1: WorkerState, w2: WorkerState, w3: WorkerState, d: nat, s: Shift)
    requires d >= 1
  {
    match s
    case Holiday => Has(w, d, Holiday) && w1 == w && w2 == w && w3 == w
    case Day => d !in w.shifts && !PrevWasNight(w, d) && w1 == Took(w, d, Day) && w2 == w1 && w3 == w1
    case Night => d !in w.shifts && w1 == w && w2 == Took(w, d, Night) && w3 == w2
    case Off => d !in w.shifts && w1 == w && w2 == w && w3 == Took(w, d, Off)
  }

  /** The shift a worker ended day `d` with, read off its states before
      and after the day-shift and night-shift loops. */
  function Classify(w: WorkerState, w1: WorkerState, w2: WorkerState, d: nat): Shift {
    if d in w.shifts then Holiday else if w1 != w then Day else if w2 != w1 then Night else Off
  }

  /** The count a candidate is sorted by: its day shifts, or for the
      night shift its night shifts. */
  function Count(w: WorkerState, forNight: bool): nat {
    if forNight then w.totalNightShifts else w.totalDayShifts
  }

  /** The candidates of day `d`, sorted as the program sorts them. */
  function SortedCandidates(ws: seq<WorkerState>, d: nat, forNight: bool, rank: seq<int>): (order: seq<nat>)
    requires |rank| == |ws|
    ensures NoDup(order)
    ensures forall p :: 0 <= p < |order| ==> order[p] < |ws| && Eligible(ws[order[p]], d, forNight)
    ensures forall i :: 0 <= i < |ws| && Eligible(ws[i], d, forNight) ==> i in order
    ensures forall p, q :: 0 <= p < q < |order| ==> Count(ws[order[p]], forNight) <= Count(ws[order[q]], forNight)
  {
    var counts := Counts(ws, forNight);
    var c := Candidates(ws, d, forNight, |ws|);
    var order := SortByCount(counts, rank, c);
    SortedOrder(ws, d, forNight, rank, c, order);
    order
  }

  /** The counts of all workers, by position. */
  function Counts(ws: seq<WorkerState>, forNight: bool): seq<nat>
  {
    seq(|ws|, i requires 0 <= i < |ws| => Count(ws[i], forNight))
  }

  /** A sorted permutation of the candidates lists each of them once, in
      non-decreasing count. */
  lemma SortedOrder(ws: seq<WorkerState>, d: nat, forNight: bool, rank: seq<int>, c: seq<nat>, order: seq<nat>)
    requires |rank| == |ws| && c == Candidates(ws, d, forNight, |ws|)
    requires InRange(Counts(ws, forNight), order) && multiset(order) == multiset(c)
    requires SortedBy(Counts(ws, forNight), rank, order)
    ensures NoDup(order)
    ensures forall p :: 0 <= p < |order| ==> order[p] < |ws| && Eligible(ws[order[p]], d, forNight)
    ensures forall i :: 0 <= i < |ws| && Eligible(ws[i], d, forNight) ==> i in order
    ensures forall p, q :: 0 <= p < q < |order| ==> Count(ws[order[p]], forNight) <= Count(ws[order[q]], forNight)
  {
    var counts := Counts(ws, forNight);
    PermutationNoDup(c, order);
    forall p | 0 <= p < |order| ensures order[p] < |ws| && Eligible(ws[order[p]], d, forNight) {
      assert order[p] in c;
      var q :| 0 <= q < |c| && c[q] == order[p];
    }
    forall p, q | 0 <= p < q < |order| ensures counts[order[p]] <= counts[order[q]] {
      SortedCounts(counts, rank, order, p, q);
    }
  }

  /** One iteration of the loop of src/App.jsx:155-199: the head counts
      `req` are given, `ds` is the date's record after the first pass, and
      `prevNight` and `before` describe the earlier days for the contract. */
  method ScheduleDay(ids: seq<string>, ws: seq<WorkerState>, d: nat, req: Requirement, ds: DaySchedule,
                     dayRank: seq<int>, nightRank: seq<int>, key: string,
                     ghost prevNight: seq<string>, ghost before: seq<DaySchedule>)
    returns (ws': seq<WorkerState>, ds': DaySchedule, warnings: seq<Warning>)
    requires d >= 1 && |ids| == |ws| == |dayRank| == |nightRank| && NoDup(ids)
    requires ds.day == [] && ds.night == [] && ds.off == []
    requires NoDup(ds.holiday) && forall x :: x in ds.holiday ==> x in ids
    requires forall i :: 0 <= i < |ws| ==> (d in ws[i].shifts <==> ids[i] in ds.holiday)
    requires forall i :: 0 <= i < |ws| && d in ws[i].shifts ==> ws[i].shifts[d] == Holiday
    requires forall i :: 0 <= i < |ws| ==> (PrevWasNight(ws[i], d) <==> ids[i] in prevNight)
    requires forall i :: 0 <= i < |ws| ==>
      ws[i].totalDayShifts == Tally(before, ids[i], Day) && ws[i].totalNightShifts == Tally(before, ids[i], Night)
    ensures DayAllocation(ids, ds.holiday, req, prevNight, before, ds')
    ensures |ws'| == |ws|
    ensures forall i :: 0 <= i < |ws| ==> d in ws'[i].shifts && ws'[i] == Took(ws[i], d, ws'[i].shifts[d])
    ensures forall i, s :: 0 <= i < |ws| ==> (Has(ws'[i], d, s) <==> ids[i] in ListOf(ds', s))
    ensures warnings == DayShortfalls(key, req, ds')
  {
    var dayOrder := SortedCandidates(ws, d, false, dayRank);
    var ws1, day := AssignDay(ids, ws, d, req.day, dayOrder);
    warnings := if |day| < req.day then [Warning(key, Day, req.day, |day|)] else [];

    var nightOrder := SortedCandidates(ws1, d, true, nightRank);
    NoneOffAfterDayLoop(ids, ws, d, req.day, ws1, day);
    var ws2, night, off := AssignNight(ids, ws1, d, req.night, nightOrder, ds.off);
    warnings := warnings + if |night| < req.night then [Warning(key, Night, req.night, |night|)] else [];

    var ws3, off' := FillOff(ids, ws2, d, off);
    ws' := ws3;
    ds' := DaySchedule(day, night, off', ds.holiday);
    CloseDay(ids, ws, ws1, ws2, ws3, d, req, ds.holiday, ds', prevNight, before);
  }

  /** Before the night-shift loop nobody is OFF on day `d` yet: the first
      pass gave only HOLIDAY and the day-shift loop only DAY. */
  lemma NoneOffAfterDayLoop(ids: seq<string>, ws: seq<WorkerState>, d: nat, required: nat, ws1: seq<WorkerState>, day: seq<string>)
    requires d >= 1 && |ids| == |ws| == |ws1|
    requires forall i :: 0 <= i < |ws| && d in ws[i].shifts ==> ws[i].shifts[d] == Holiday
    requires DayLoopDone(ids, ws, d, required, ws1, day)
    ensures OffListed(ids, ws1, d, [])
  {
  }

  /** The day's record and the workers' states after the three loops of
      one day, from what each loop guarantees. */
  lemma CloseDay(ids: seq<string>, ws: seq<WorkerState>, ws1: seq<WorkerState>, ws2: seq<WorkerState>, ws3: seq<WorkerState>,
                 d: nat, req: Requirement, holiday: seq<string>, ds: DaySchedule,
                 prevNight: seq<string>, before: seq<DaySchedule>)
    requires d >= 1 && |ids| == |ws| == |ws1| == |ws2| == |ws3| && NoDup(ids)
    requires ds.holiday == holiday && NoDup(holiday) && (forall x :: x in holiday ==> x in ids)
    requires forall i :: 0 <= i < |ws| ==> (d in ws[i].shifts <==> ids[i] in holiday)
    requires forall i :: 0 <= i < |ws| && d in ws[i].shifts ==> ws[i].shifts[d] == Holiday
    requires forall i :: 0 <= i < |ws| ==> (PrevWasNight(ws[i], d) <==> ids[i] in prevNight)
    requires forall i :: 0 <= i < |ws| ==>
      ws[i].totalDayShifts == Tally(before, ids[i], Day) && ws[i].totalNightShifts == Tally(before, ids[i], Night)
    requires DayLoopDone(ids, ws, d, req.day, ws1, ds.day)
    requires NightLoopDone(ids, ws1, d, req.night, ws2, ds.night)
    requires forall i :: 0 <= i < |ws2| ==> ws3[i] == if d in ws2[i].shifts then ws2[i] else Took(ws2[i], d, Off)
    requires OffListed(ids, ws3, d, ds.off)
    ensures DayAllocation(ids, holiday, req, prevNight, before, ds)
    ensures forall i :: 0 <= i < |ws| ==> d in ws3[i].shifts && ws3[i] == Took(ws[i], d, ws3[i].shifts[d])
    ensures forall i, s :: 0 <= i < |ws| ==> (Has(ws3[i], d, s) <==> ids[i] in ListOf(ds, s))
  {
    var out := seq(|ws|, i requires 0 <= i < |ws| => Classify(ws[i], ws1[i], ws2[i], d));
    forall i | 0 <= i < |ws|
      ensures Outcome(ws[i], ws1[i], ws2[i], ws3[i], d, out[i])
    {
    }
    OutcomeLists(ids, ws, ws1, ws2, ws3, d, out, ds);
    PartitionFromOutcome(ids, ds, out);
    forall i | 0 <= i < |ws| ensures ws1[i].totalNightShifts == ws[i].totalNightShifts {
    }
    DayFromOutcome(ids, ws, d, out, req, holiday, ds, prevNight, before);
  }

  /** Each worker is on the list of the shift it ended with, and on no
      other. */
  lemma OutcomeLists(ids: seq<string>, ws: seq<WorkerState>, ws1: seq<WorkerState>, ws2: seq<WorkerState>, ws3: seq<WorkerState>,
                     d: nat, out: seq<Shift>, ds: DaySchedule)
    requires d >= 1 && |ids| == |ws| == |ws1| == |ws2| == |ws3| == |out|
    requires forall i :: 0 <= i < |ws| ==> Outcome(ws[i], ws1[i], ws2[i], ws3[i], d, out[i])
    requires forall i :: 0 <= i < |ws| ==> (d in ws[i].shifts <==> ids[i] in ds.holiday)
    requires forall i :: 0 <= i < |ws| ==> (ids[i] in ds.day <==> ws1[i] != ws[i])
    requires forall i :: 0 <= i < |ws| ==> (ids[i] in ds.night <==> ws2[i] != ws1[i])
    requires forall i :: 0 <= i < |ws| ==> (ids[i] in ds.off <==> Has(ws3[i], d, Off))
    ensures forall i, s :: 0 <= i < |ws| ==> (ids[i] in ListOf(ds, s) <==> out[i] == s)
    ensures forall i :: 0 <= i < |ws| ==> d in ws3[i].shifts && ws3[i].shifts[d] == out[i] && ws3[i] == Took(ws[i], d, out[i])
  {
    forall i | 0 <= i < |ws|
      ensures forall s :: ids[i] in ListOf(ds, s) <==> out[i] == s
      ensures d in ws3[i].shifts && ws3[i].shifts[d] == out[i] && ws3[i] == Took(ws[i], d, out[i])
    {
      match out[i]
      case Holiday =>
        assert ws[i].shifts[d := Holiday] == ws[i].shifts;
      case Day =>
      case Night =>
      case Off =>
    }
  }

  /** Lists that place every roster id on exactly its own shift, with no
      repeats and no stranger, partition the roster. */
  lemma PartitionFromOutcome(ids: seq<string>, ds: DaySchedule, out: seq<Shift>)
    requires |out| == |ids| && NoDup(ids)
    requires forall i, s :: 0 <= i < |ids| ==> (ids[i] in ListOf(ds, s) <==> out[i] == s)
    requires NoDup(ds.day) && NoDup(ds.night) && NoDup(ds.off) && NoDup(ds.holiday)
    requires forall s, x :: x in ListOf(ds, s) ==> x in ids
    ensures Partitions(ids, ds)
  {
    forall x | x in ids ensures Occurrences(ds, x) == 1 {
      var i :| 0 <= i < |ids| && ids[i] == x;
      assert x in ds.day <==> out[i] == Day by { assert ListOf(ds, Day) == ds.day; }
      assert x in ds.night <==> out[i] == Night by { assert ListOf(ds, Night) == ds.night; }
      assert x in ds.off <==> out[i] == Off by { assert ListOf(ds, Off) == ds.off; }
      assert x in ds.holiday <==> out[i] == Holiday by { assert ListOf(ds, Holiday) == ds.holiday; }
    }
    forall s, x | x in ListOf(ds, s) ensures x in ids {
    }
    assert forall x :: x in ds.day ==> x in ListOf(ds, Day);
    assert forall x :: x in ds.night ==> x in ListOf(ds, Night);
    assert forall x :: x in ds.off ==> x in ListOf(ds, Off);
    assert forall x :: x in ds.holiday ==> x in ListOf(ds, Holiday);
  }

  /** The conditions of `DayAllocation` beyond the partition, from what
      the three loops guarantee about each worker. */
  lemma DayFromOutcome(ids: seq<string>, ws: seq<WorkerState>, d: nat, out: seq<Shift>, req: Requirement,
                       holiday: seq<string>, ds: DaySchedule, prevNight: seq<string>, before: seq<DaySchedule>)
    requires d >= 1 && |ids| == |ws| == |out|
    requires Partitions(ids, ds) && ds.holiday == holiday
    requires |ds.day| <= req.day && |ds.night| <= req.night
    requires forall i, s :: 0 <= i < |ids| ==> (ids[i] in ListOf(ds, s) <==> out[i] == s)
    requires forall i :: 0 <= i < |ws| && out[i] == Day ==> !PrevWasNight(ws[i], d)
    requires forall i :: 0 <= i < |ws| && out[i] == Off ==> |ds.night| == req.night
    requires forall i :: 0 <= i < |ws| && (out[i] == Night || out[i] == Off) && !PrevWasNight(ws[i], d) ==>
      |ds.day| == req.day
    requires forall i, j :: (0 <= i < |ws| && 0 <= j < |ws| && out[i] == Day &&
      (out[j] == Night || out[j] == Off) && !PrevWasNight(ws[j], d)) ==>
      ws[i].totalDayShifts <= ws[j].totalDayShifts
    requires forall i, j :: (0 <= i < |ws| && 0 <= j < |ws| && out[i] == Night && out[j] == Off) ==>
      ws[i].totalNightShifts <= ws[j].totalNightShifts
    requires forall i :: 0 <= i < |ws| ==> (PrevWasNight(ws[i], d) <==> ids[i] in prevNight)
    requires forall i :: 0 <= i < |ws| ==>
      ws[i].totalDayShifts == Tally(before, ids[i], Day) && ws[i].totalNightShifts == Tally(before, ids[i], Night)
    ensures DayAllocation(ids, holiday, req, prevNight, before, ds)
  {
    assert forall s, x :: x in ListOf(ds, s) ==> exists i :: 0 <= i < |ids| && ids[i] == x && out[i] == s by {
      forall s, x | x in ListOf(ds, s) ensures exists i :: 0 <= i < |ids| && ids[i] == x && out[i] == s {
        assert x in ids;
        var i :| 0 <= i < |ids| && ids[i] == x;
      }
    }
    assert forall x :: x in ds.day ==> x in ListOf(ds, Day);
    assert forall x :: x in ds.night ==> x in ListOf(ds, Night);
    assert forall x :: x in ds.off ==> x in ListOf(ds, Off);
  }

  // ---------------------------------------------------------------------
  // The first pass
  // ---------------------------------------------------------------------

  /** From day `lo` on, the worker has a shift exactly on the days before
      `hi` that the employee asked off, and on day `hi` when `extra`. */
  ghost predicate Marked(w: WorkerState, emp: Employee, y: int, m: int, lo: nat, hi: nat, extra: bool)
    requires 1000 <= y && 1 <= m <= 12
  {
    forall e: nat :: lo <= e ==> (e in w.shifts <==> (Requested(emp, KeyOf(y, m, e)) && e < hi) || (e == hi && extra))
  }

  /** No shift is kept under day 0 (the previous month) or earlier. */
  predicate DaysFromOne(w: WorkerState) {
    forall e :: e in w.shifts ==> e >= 1
  }

  /** Every shift the worker has from day `lo` on is HOLIDAY. */
  predicate HolidaysFrom(w: WorkerState, lo: nat) {
    forall e :: e in w.shifts && lo <= e ==> w.shifts[e] == Holiday
  }

  /** Marking day `d` HOLIDAY makes it one of the marked days. */
  lemma MarkAdd(w: WorkerState, emp: Employee, y: int, m: int, d: nat, extra: bool)
    requires 1000 <= y && 1 <= m <= 12 && d >= 1
    requires Marked(w, emp, y, m, 1, d, extra) && DaysFromOne(w) && HolidaysFrom(w, 1)
    ensures Marked(w.(shifts := w.shifts[d := Holiday]), emp, y, m, 1, d, true)
    ensures DaysFromOne(w.(shifts := w.shifts[d := Holiday])) && HolidaysFrom(w.(shifts := w.shifts[d := Holiday]), 1)
  {
  }

  /** The first `forEach` of src/App.jsx:140-145 on day `d`: in roster
      order, an employee whose first request for the date is a priority one
      (flagged, or the employee is on the priority list) becomes HOLIDAY. */
  method MarkPriority(emps: seq<Employee>, pids: seq<string>, y: int, m: int, d: nat, ws: seq<WorkerState>)
    returns (ws': seq<WorkerState>, holiday: seq<string>)
    requires 1000 <= y && 1 <= m <= 12 && d >= 1 && |ws| == |emps|
    requires forall k :: 0 <= k < |ws| ==>
      Marked(ws[k], emps[k], y, m, 1, d, false) && DaysFromOne(ws[k]) && HolidaysFrom(ws[k], 1)
    ensures |ws'| == |ws| && holiday == Requesters(emps, pids, KeyOf(y, m, d), true)
    ensures forall k :: 0 <= k < |ws| ==> ws'[k].totalDayShifts == ws[k].totalDayShifts && ws'[k].totalNightShifts == ws[k].totalNightShifts
    ensures forall k :: 0 <= k < |ws| ==>
      Marked(ws'[k], emps[k], y, m, 1, d, RequestOfKind(emps[k], pids, KeyOf(y, m, d), true))
      && DaysFromOne(ws'[k]) && HolidaysFrom(ws'[k], 1)
  {
    var key := KeyOf(y, m, d);
    ws' := ws;
    holiday := [];
    for i := 0 to |emps|
      invariant |ws'| == |emps|
      invariant holiday == Requesters(emps[..i], pids, key, true)
      invariant forall k :: 0 <= k < |ws| ==> ws'[k].totalDayShifts == ws[k].totalDayShifts && ws'[k].totalNightShifts == ws[k].totalNightShifts
      invariant forall k :: 0 <= k < |ws| ==>
        Marked(ws'[k], emps[k], y, m, 1, d, k < i && RequestOfKind(emps[k], pids, key, true))
        && DaysFromOne(ws'[k]) && HolidaysFrom(ws'[k], 1)
    {
      assert emps[..i + 1][..i] == emps[..i];
      ghost var prev := ws';
      var request := FirstRequest(emps[i].requests, key);
      if request.Some? && (request.value.priority || emps[i].id in pids) {
        MarkAdd(ws'[i], emps[i], y, m, d, false);
        ws' := ws'[i := ws'[i].(shifts := ws'[i].shifts[d := Holiday])];
        holiday := holiday + [emps[i].id];
      }
      forall k | 0 <= k < |ws| ensures
        Marked(ws'[k], emps[k], y, m, 1, d, k < i + 1 && RequestOfKind(emps[k], pids, key, true))
        && DaysFromOne(ws'[k]) && HolidaysFrom(ws'[k], 1)
      {
        if k != i {
          assert ws'[k] == prev[k];
          assert (k < i + 1 && RequestOfKind(emps[k], pids, key, true)) == (k < i && RequestOfKind(emps[k], pids, key, true));
        }
      }
    }
    assert emps[..|emps|] == emps;
  }

  /** The second `forEach` of src/App.jsx:146-151 on day `d`: in roster
      order, an employee with an ordinary request for the date who has no
      shift on it yet becomes HOLIDAY. */
  method MarkOrdinary(emps: seq<Employee>, pids: seq<string>, y: int, m: int, d: nat, ws: seq<WorkerState>)
    returns (ws': seq<WorkerState>, holiday: seq<string>)
    requires 1000 <= y && 1 <= m <= 12 && d >= 1 && |ws| == |emps|
    requires forall k :: 0 <= k < |ws| ==>
      Marked(ws[k], emps[k], y, m, 1, d, RequestOfKind(emps[k], pids, KeyOf(y, m, d), true))
      && DaysFromOne(ws[k]) && HolidaysFrom(ws[k], 1)
    ensures |ws'| == |ws| && holiday == Requesters(emps, pids, KeyOf(y, m, d), false)
    ensures forall k :: 0 <= k < |ws| ==> ws'[k].totalDayShifts == ws[k].totalDayShifts && ws'[k].totalNightShifts == ws[k].totalNightShifts
    ensures forall k :: 0 <= k < |ws| ==>
      Marked(ws'[k], emps[k], y, m, 1, d + 1, false) && DaysFromOne(ws'[k]) && HolidaysFrom(ws'[k], 1)
  {
    var key := KeyOf(y, m, d);
    ws' := ws;
    holiday := [];
    for i := 0 to |emps|
      invariant |ws'| == |emps|
      invariant holiday == Requesters(emps[..i], pids, key, false)
      invariant forall k :: 0 <= k < |ws| ==> ws'[k].totalDayShifts == ws[k].totalDayShifts && ws'[k].totalNightShifts == ws[k].totalNightShifts
      invariant forall k :: 0 <= k < |ws| ==>
        Marked(ws'[k], emps[k], y, m, 1, d,
               RequestOfKind(emps[k], pids, key, true) || (k < i && RequestOfKind(emps[k], pids, key, false)))
        && DaysFromOne(ws'[k]) && HolidaysFrom(ws'[k], 1)
    {
      assert emps[..i + 1][..i] == emps[..i];
      ghost var prev := ws';
      var request := FirstRequest(emps[i].requests, key);
      if request.Some? && d !in ws'[i].shifts && emps[i].id !in pids && !request.value.priority {
        MarkAdd(ws'[i], emps[i], y, m, d, RequestOfKind(emps[i], pids, key, true));
        ws' := ws'[i := ws'[i].(shifts := ws'[i].shifts[d := Holiday])];
        holiday := holiday + [emps[i].id];
      }
      forall k | 0 <= k < |ws| ensures
        Marked(ws'[k], emps[k], y, m, 1, d,
               RequestOfKind(emps[k], pids, key, true) || (k < i + 1 && RequestOfKind(emps[k], pids, key, false)))
        && DaysFromOne(ws'[k]) && HolidaysFrom(ws'[k], 1)
      {
        if k != i {
          assert ws'[k] == prev[k];
          assert (RequestOfKind(emps[k], pids, key, true) || (k < i + 1 && RequestOfKind(emps[k], pids, key, false)))
              == (RequestOfKind(emps[k], pids, key, true) || (k < i && RequestOfKind(emps[k], pids, key, false)));
        }
      }
    }
    assert emps[..|emps|] == emps;
    forall k | 0 <= k < |ws| ensures Marked(ws'[k], emps[k], y, m, 1, d + 1, false) {
      assert Requested(emps[k], key) <==>
        RequestOfKind(emps[k], pids, key, true) || RequestOfKind(emps[k], pids, key, false);
    }
  }

  /** The first loop of src/App.jsx:137-152: every day of the month, the
      priority requests and then the ordinary ones become HOLIDAY. */
  method MarkRequests(emps: seq<Employee>, pids: seq<string>, y: int, m: int, n: nat)
    returns (ws: seq<WorkerState>, days: seq<DaySchedule>)
    requires 1000 <= y && 1 <= m <= 12
    ensures |ws| == |emps| && |days| == n
    ensures forall i :: 0 <= i < |ws| ==> ws[i].totalDayShifts == 0 && ws[i].totalNightShifts == 0
    ensures forall i :: 0 <= i < |ws| ==>
      Marked(ws[i], emps[i], y, m, 1, n + 1, false) && DaysFromOne(ws[i]) && HolidaysFrom(ws[i], 1)
    ensures forall j :: 0 <= j < n ==> days[j] == DaySchedule([], [], [], HolidayList(emps, pids, KeyOf(y, m, j + 1)))
  {
    ws := seq(|emps|, i requires 0 <= i < |emps| => WorkerState(map[], 0, 0));
    days := [];
    for d := 1 to n + 1
      invariant |ws| == |emps| && |days| == d - 1
      invariant forall i :: 0 <= i < |ws| ==> ws[i].totalDayShifts == 0 && ws[i].totalNightShifts == 0
      invariant forall i :: 0 <= i < |ws| ==>
        Marked(ws[i], emps[i], y, m, 1, d, false) && DaysFromOne(ws[i]) && HolidaysFrom(ws[i], 1)
      invariant forall j :: 0 <= j < d - 1 ==> days[j] == DaySchedule([], [], [], HolidayList(emps, pids, KeyOf(y, m, j + 1)))
    {
      var ws1, priority := MarkPriority(emps, pids, y, m, d, ws);
      var ordinary;
      ws, ordinary := MarkOrdinary(emps, pids, y, m, d, ws1);
      days := days + [DaySchedule([], [], [], priority + ordinary)];
    }
  }

  // ---------------------------------------------------------------------
  // The schedule keyed by date
  // ---------------------------------------------------------------------

  /** Different days of a month have different keys. */
  lemma MonthKeysDistinct(y: int, m: int)
    requires 1000 <= y <= 9999 && 1 <= m <= 12
    ensures forall d1, d2 :: 1 <= d1 <= 31 && 1 <= d2 <= 31 && KeyOf(y, m, d1) == KeyOf(y, m, d2) ==> d1 == d2
  {
    forall d1, d2 | 1 <= d1 <= 31 && 1 <= d2 <= 31 && KeyOf(y, m, d1) == KeyOf(y, m, d2) ensures d1 == d2 {
      DateKeyInjective(Date(y, m, d1), Date(y, m, d2));
    }
  }

  /** `currentSchedule`: the record of day `d` under the key of day `d`. */
  function ToDateMap(y: int, m: int, days: seq<DaySchedule>): (sched: map<string, DaySchedule>)
    requires 1000 <= y <= 9999 && 1 <= m <= 12 && |days| == DaysInMonth(y, m)
    ensures sched.Keys == MonthKeys(y, m)
    ensures forall d :: 1 <= d <= |days| ==> KeyOf(y, m, d) in sched && sched[KeyOf(y, m, d)] == days[d - 1]
  {
    MonthKeysDistinct(y, m);
    var sched := map d | 1 <= d <= |days| :: KeyOf(y, m, d) := days[d - 1];
    DateMapKeys(y, m, days, sched);
    sched
  }

  lemma DateMapKeys(y: int, m: int, days: seq<DaySchedule>, sched: map<string, DaySchedule>)
    requires 1000 <= y <= 9999 && 1 <= m <= 12 && |days| == DaysInMonth(y, m)
    requires sched.Keys == set d | 1 <= d <= |days| :: KeyOf(y, m, d)
    ensures sched.Keys == MonthKeys(y, m)
  {
    forall k | k in MonthKeys(y, m) ensures k in sched {
      var d :| 1 <= d <= |days| && DateKey(Date(y, m, d)) == k;
      assert KeyOf(y, m, d) in sched;
    }
  }

  /** The records of the month's days read back from a schedule keyed by
      date (an empty record where a key is missing). */
  function MonthDays(sched: map<string, DaySchedule>, y: int, m: int): (days: seq<DaySchedule>)
    requires 1000 <= y && 1 <= m <= 12
    ensures |days| == DaysInMonth(y, m)
  {
    seq(DaysInMonth(y, m), j requires 0 <= j =>
      if KeyOf(y, m, j + 1) in sched then sched[KeyOf(y, m, j + 1)] else DaySchedule([], [], [], []))
  }

  // ---------------------------------------------------------------------
  // The generator
  // ---------------------------------------------------------------------

  /** Day `j + 1` still holds what the first pass left. */
  ghost predicate Unscheduled(emps: seq<Employee>, pids: seq<string>, y: int, m: int, days: seq<DaySchedule>, j: nat)
    requires 1000 <= y && 1 <= m <= 12 && j < |days|
  {
    days[j] == DaySchedule([], [], [], HolidayList(emps, pids, KeyOf(y, m, j + 1)))
  }

  /** Worker `i` before day `d`: its shifts from day `d` on are its HOLIDAY
      requests, its previous-night flag is the night list of day `d - 1`,
      and its counters are the tallies of the days before `d`. */
  ghost predicate WorkerReady(emps: seq<Employee>, y: int, m: int, n: nat, ws: seq<WorkerState>,
                              days: seq<DaySchedule>, d: nat, i: nat)
    requires 1000 <= y && 1 <= m <= 12 && 1 <= d <= |days| + 1 && i < |ws| == |emps|
  {
    var w, x := ws[i], emps[i].id;
    && Marked(w, emps[i], y, m, d, n + 1, false) && DaysFromOne(w) && HolidaysFrom(w, d)
    && (PrevWasNight(w, d) <==> x in PrevNight(days, d - 1))
    && w.totalDayShifts == Tally(days[..d - 1], x, Day)
    && w.totalNightShifts == Tally(days[..d - 1], x, Night)
  }

  /** The state of the generator before day `d` of the second pass: the
      records of the days before `d` are allocated, the later ones are as
      the first pass left them, every worker is ready for day `d`, and the
      warnings are those of the days before `d`. */
  ghost predicate Progress(emps: seq<Employee>, pids: seq<string>, y: int, m: int, reqs: seq<Requirement>,
                           ws: seq<WorkerState>, days: seq<DaySchedule>, warnings: seq<Warning>, d: nat)
    requires 1000 <= y && 1 <= m <= 12 && 1 <= d <= |reqs| + 1
  {
    && |ws| == |emps| && |days| == |reqs|
    && (forall j: nat :: j < d - 1 ==> AllocatedOn(emps, pids, y, m, reqs, days, j))
    && (forall j: nat :: d - 1 <= j < |days| ==> Unscheduled(emps, pids, y, m, days, j))
    && (forall i: nat :: i < |ws| ==> WorkerReady(emps, y, m, |reqs|, ws, days, d, i))
    && warnings == Shortfalls(DayKeys(y, m, d - 1), reqs[..d - 1], days[..d - 1])
  }

  /** What the first pass leaves is the state before day 1. */
  lemma ProgressStart(emps: seq<Employee>, pids: seq<string>, y: int, m: int, reqs: seq<Requirement>,
                      ws: seq<WorkerState>, days: seq<DaySchedule>)
    requires 1000 <= y && 1 <= m <= 12
    requires |ws| == |emps| && |days| == |reqs|
    requires forall i :: 0 <= i < |ws| ==> ws[i].totalDayShifts == 0 && ws[i].totalNightShifts == 0
    requires forall i :: 0 <= i < |ws| ==>
      Marked(ws[i], emps[i], y, m, 1, |reqs| + 1, false) && DaysFromOne(ws[i]) && HolidaysFrom(ws[i], 1)
    requires forall j :: 0 <= j < |reqs| ==> days[j] == DaySchedule([], [], [], HolidayList(emps, pids, KeyOf(y, m, j + 1)))
    ensures Progress(emps, pids, y, m, reqs, ws, days, [], 1)
  {
    forall i: nat | i < |ws| ensures WorkerReady(emps, y, m, |reqs|, ws, days, 1, i) {
      assert 0 !in ws[i].shifts;
    }
    forall j: nat | j < |days| ensures Unscheduled(emps, pids, y, m, days, j) {
    }
  }

  /** Before day `d` the record of day `d` and the workers' states meet
      what `ScheduleDay` requires. */
  lemma ProgressReady(emps: seq<Employee>, pids: seq<string>, y: int, m: int, reqs: seq<Requirement>,
                      ws: seq<WorkerState>, days: seq<DaySchedule>, warnings: seq<Warning>, d: nat)
    requires 1000 <= y && 1 <= m <= 12 && 1 <= d <= |reqs|
    requires UniqueIds(emps)
    requires Progress(emps, pids, y, m, reqs, ws, days, warnings, d)
    ensures NoDup(Ids(emps)) && |Ids(emps)| == |ws|
    ensures days[d - 1] == DaySchedule([], [], [], HolidayList(emps, pids, KeyOf(y, m, d)))
    ensures NoDup(days[d - 1].holiday) && forall x :: x in days[d - 1].holiday ==> x in Ids(emps)
    ensures forall i :: 0 <= i < |ws| ==> (d in ws[i].shifts <==> Ids(emps)[i] in days[d - 1].holiday)
    ensures forall i :: 0 <= i < |ws| && d in ws[i].shifts ==> ws[i].shifts[d] == Holiday
    ensures forall i :: 0 <= i < |ws| ==> (PrevWasNight(ws[i], d) <==> Ids(emps)[i] in PrevNight(days, d - 1))
    ensures forall i :: 0 <= i < |ws| ==>
      ws[i].totalDayShifts == Tally(days[..d - 1], Ids(emps)[i], Day)
      && ws[i].totalNightShifts == Tally(days[..d - 1], Ids(emps)[i], Night)
  {
    var ids := Ids(emps);
    assert NoDup(ids) by {
      forall p, q | 0 <= p < q < |ids| ensures ids[p] != ids[q] {
      }
    }
    assert Unscheduled(emps, pids, y, m, days, d - 1);
    HolidayListMembership(emps, pids, KeyOf(y, m, d));
    forall i | 0 <= i < |ws|
      ensures d in ws[i].shifts <==> ids[i] in days[d - 1].holiday
      ensures d in ws[i].shifts ==> ws[i].shifts[d] == Holiday
      ensures PrevWasNight(ws[i], d) <==> ids[i] in PrevNight(days, d - 1)
      ensures ws[i].totalDayShifts == Tally(days[..d - 1], ids[i], Day)
      ensures ws[i].totalNightShifts == Tally(days[..d - 1], ids[i], Night)
    {
      assert WorkerReady(emps, y, m, |reqs|, ws, days, d, i);
      assert Marked(ws[i], emps[i], y, m, d, |reqs| + 1, false);
    }
  }

  /** Scheduling day `d` as `ScheduleDay` promises gives the state before
      day `d + 1`. */
  lemma ProgressStep(emps: seq<Employee>, pids: seq<string>, y: int, m: int, reqs: seq<Requirement>,
                     ws: seq<WorkerState>, days: seq<DaySchedule>, warnings: seq<Warning>, d: nat,
                     ws': seq<WorkerState>, ds': DaySchedule, warns: seq<Warning>)
    requires 1000 <= y && 1 <= m <= 12 && 1 <= d <= |reqs|
    requires Progress(emps, pids, y, m, reqs, ws, days, warnings, d)
    requires DayAllocation(Ids(emps), days[d - 1].holiday, reqs[d - 1], PrevNight(days, d - 1), days[..d - 1], ds')
    requires |ws'| == |ws|
    requires forall i :: 0 <= i < |ws| ==> d in ws'[i].shifts && ws'[i] == Took(ws[i], d, ws'[i].shifts[d])
    requires forall i, s :: 0 <= i < |ws| ==> (Has(ws'[i], d, s) <==> Ids(emps)[i] in ListOf(ds', s))
    requires warns == DayShortfalls(KeyOf(y, m, d), reqs[d - 1], ds')
    ensures Progress(emps, pids, y, m, reqs, ws', days[d - 1 := ds'], warnings + warns, d + 1)
  {
    var days' := days[d - 1 := ds'];
    StepDays(emps, pids, y, m, reqs, days, d, ds', days');
    StepWarnings(y, m, reqs, days, warnings, d, ds', warns);
    var n, next := |reqs|, d + 1;
    forall i: nat | i < |ws'| ensures WorkerReady(emps, y, m, n, ws', days', next, i) {
      assert WorkerReady(emps, y, m, |reqs|, ws, days, d, i);
      StepWorker(emps, y, m, |reqs|, ws, days, d, ws', ds', i);
    }
  }

  /** Once day `d`'s record is allocated, the days up to `d` are allocated
      and the later ones still unscheduled. */
  lemma StepDays(emps: seq<Employee>, pids: seq<string>, y: int, m: int, reqs: seq<Requirement>,
                 days: seq<DaySchedule>, d: nat, ds': DaySchedule, days': seq<DaySchedule>)
    requires 1000 <= y && 1 <= m <= 12 && 1 <= d <= |reqs| == |days| && days' == days[d - 1 := ds']
    requires forall j: nat :: j < d - 1 ==> AllocatedOn(emps, pids, y, m, reqs, days, j)
    requires forall j: nat :: d - 1 <= j < |days| ==> Unscheduled(emps, pids, y, m, days, j)
    requires DayAllocation(Ids(emps), days[d - 1].holiday, reqs[d - 1], PrevNight(days, d - 1), days[..d - 1], ds')
    ensures forall j: nat :: j < d ==> AllocatedOn(emps, pids, y, m, reqs, days', j)
    ensures forall j: nat :: d <= j < |days| ==> Unscheduled(emps, pids, y, m, days', j)
  {
    assert Unscheduled(emps, pids, y, m, days, d - 1);
    forall j: nat | j < d ensures AllocatedOn(emps, pids, y, m, reqs, days', j) {
      StepDone(emps, pids, y, m, reqs, days, d, ds', j);
    }
    forall j: nat | d <= j < |days'| ensures Unscheduled(emps, pids, y, m, days', j) {
      assert Unscheduled(emps, pids, y, m, days, j);
    }
  }

  /** The warnings of day `d` extend those of the days before it. */
  lemma StepWarnings(y: int, m: int, reqs: seq<Requirement>, days: seq<DaySchedule>, warnings: seq<Warning>,
                     d: nat, ds': DaySchedule, warns: seq<Warning>)
    requires 1000 <= y && 1 <= m <= 12 && 1 <= d <= |reqs| == |days|
    requires warnings == Shortfalls(DayKeys(y, m, d - 1), reqs[..d - 1], days[..d - 1])
    requires warns == DayShortfalls(KeyOf(y, m, d), reqs[d - 1], ds')
    ensures warnings + warns == Shortfalls(DayKeys(y, m, d), reqs[..d], days[d - 1 := ds'][..d])
  {
    var days' := days[d - 1 := ds'];
    assert days'[..d][..d - 1] == days[..d - 1];
    assert reqs[..d][..d - 1] == reqs[..d - 1];
    assert DayKeys(y, m, d)[..d - 1] == DayKeys(y, m, d - 1);
  }

  /** Day `j + 1`, for `j < d`, is allocated once day `d`'s record is. */
  lemma StepDone(emps: seq<Employee>, pids: seq<string>, y: int, m: int, reqs: seq<Requirement>,
                 days: seq<DaySchedule>, d: nat, ds': DaySchedule, j: nat)
    requires 1000 <= y && 1 <= m <= 12 && 1 <= d <= |reqs| == |days| && j < d
    requires j < d - 1 ==> AllocatedOn(emps, pids, y, m, reqs, days, j)
    requires days[d - 1].holiday == HolidayList(emps, pids, KeyOf(y, m, d))
    requires DayAllocation(Ids(emps), days[d - 1].holiday, reqs[d - 1], PrevNight(days, d - 1), days[..d - 1], ds')
    ensures AllocatedOn(emps, pids, y, m, reqs, days[d - 1 := ds'], j)
  {
    var days' := days[d - 1 := ds'];
    assert days'[..j] == days[..j];
    assert PrevNight(days', j) == PrevNight(days, j);
  }

  /** Worker `i` is ready for day `d + 1` once day `d` is scheduled. */
  lemma StepWorker(emps: seq<Employee>, y: int, m: int, n: nat, ws: seq<WorkerState>, days: seq<DaySchedule>,
                   d: nat, ws': seq<WorkerState>, ds': DaySchedule, i: nat)
    requires 1000 <= y && 1 <= m <= 12 && 1 <= d <= |days| && |ws| == |emps| == |ws'| && i < |ws|
    requires WorkerReady(emps, y, m, n, ws, days, d, i)
    requires d in ws'[i].shifts && ws'[i] == Took(ws[i], d, ws'[i].shifts[d])
    requires forall s :: Has(ws'[i], d, s) <==> emps[i].id in ListOf(ds', s)
    ensures WorkerReady(emps, y, m, n, ws', days[d - 1 := ds'], d + 1, i)
  {
    var days' := days[d - 1 := ds'];
    assert days'[..d] == days[..d - 1] + [ds'];
    assert days'[..d][..d - 1] == days[..d - 1];
    assert Marked(ws[i], emps[i], y, m, d, n + 1, false);
    assert Has(ws'[i], d, Night) <==> emps[i].id in ListOf(ds', Night);
    assert Has(ws'[i], d, Day) <==> emps[i].id in ListOf(ds', Day);
  }

  /** After the last day the records, read back from the schedule keyed by
      date, are an allocation and the warnings are their shortfalls. */
  lemma ProgressDone(emps: seq<Employee>, pids: seq<string>, y: int, m: int, reqs: seq<Requirement>,
                     ws: seq<WorkerState>, days: seq<DaySchedule>, warnings: seq<Warning>)
    requires 1000 <= y <= 9999 && 1 <= m <= 12 && |reqs| == DaysInMonth(y, m)
    requires Progress(emps, pids, y, m, reqs, ws, days, warnings, |reqs| + 1)
    ensures MonthDays(ToDateMap(y, m, days), y, m) == days
    ensures IsAllocation(emps, pids, y, m, reqs, days) && warnings == Shortfalls(DayKeys(y, m, |reqs|), reqs, days)
  {
    assert days[..|days|] == days && reqs[..|reqs|] == reqs;
  }

  /** `generateScheduleLogic` for the month `m` of year `y`. `holidaysInput`
      is the public-holiday text of the form; `rank(d, s, i)` stands for
      the random tie-break when candidates for shift `s` of day `d` have
      the same count (`i` is the roster position).
      - An empty roster is the error of src/App.jsx:129.
      - Otherwise every date of the month has a record, and the records
        satisfy `IsAllocation` against the head counts of each date.
      - The warnings are exactly the shortfalls, in date order and, within
        a date, the day shift first. */
  method Generate(emps: seq<Employee>, pids: seq<string>, cfg: StaffingConfig, holidaysInput: string,
                  y: int, m: int, rank: (nat, Shift, nat) -> int)
    returns (r: Result<Generated, GenerateError>)
    requires 1000 <= y <= 9999 && 1 <= m <= 12
    requires UniqueIds(emps)
    ensures r.Err? <==> |emps| == 0
    ensures r.Ok? ==> r.value.schedule.Keys == MonthKeys(y, m)
    ensures r.Ok? ==>
      var reqs := MonthRequirements(cfg, ParsePublicHolidays(holidaysInput), y, m);
      var days := MonthDays(r.value.schedule, y, m);
      IsAllocation(emps, pids, y, m, reqs, days) && r.value.warnings == Shortfalls(DayKeys(y, m, |reqs|), reqs, days)
  {
    if |emps| == 0 {
      return Err(NoEmployees);
    }
    var n := DaysInMonth(y, m);
    var holidays := ParsePublicHolidays(holidaysInput);
    ghost var reqs := MonthRequirements(cfg, holidays, y, m);
    var ws, days := MarkRequests(emps, pids, y, m, n);
    ProgressStart(emps, pids, y, m, reqs, ws, days);
    var warnings;
    ws, days, warnings := ScheduleMonth(emps, pids, cfg, holidays, y, m, rank, reqs, ws, days);
    ProgressDone(emps, pids, y, m, reqs, ws, days, warnings);
    r := Ok(Generated(ToDateMap(y, m, days), warnings));
  }

  /** The second pass of src/App.jsx:154-199: the days of the month in
      order, from the state the first pass left. */
  method ScheduleMonth(emps: seq<Employee>, pids: seq<string>, cfg: StaffingConfig, holidays: seq<string>,
                       y: int, m: int, rank: (nat, Shift, nat) -> int, ghost reqs: seq<Requirement>,
                       ws0: seq<WorkerState>, days0: seq<DaySchedule>)
    returns (ws: seq<WorkerState>, days: seq<DaySchedule>, warnings: seq<Warning>)
    requires 1000 <= y <= 9999 && 1 <= m <= 12 && UniqueIds(emps)
    requires reqs == MonthRequirements(cfg, holidays, y, m)
    requires Progress(emps, pids, y, m, reqs, ws0, days0, [], 1)
    ensures Progress(emps, pids, y, m, reqs, ws, days, warnings, |reqs| + 1)
  {
    var n := DaysInMonth(y, m);
    var ids := Ids(emps);
    ws, days, warnings := ws0, days0, [];
    for d := 1 to n + 1
      invariant Progress(emps, pids, y, m, reqs, ws, days, warnings, d)
    {
      var key := KeyOf(y, m, d);
      var req := RequiredStaff(cfg, holidays, Date(y, m, d));
      var dayRank := seq(|ws|, i requires 0 <= i < |ws| => rank(d, Day, i));
      var nightRank := seq(|ws|, i requires 0 <= i < |ws| => rank(d, Night, i));
      ProgressReady(emps, pids, y, m, reqs, ws, days, warnings, d);
      var ws', ds', warns := ScheduleDay(ids, ws, d, req, days[d - 1], dayRank, nightRank, key, PrevNight(days, d - 1), days[..d - 1]);
      ProgressStep(emps, pids, y, m, reqs, ws, days, warnings, d, ws', ds', warns);
      ws, days, warnings := ws', days[d - 1 := ds'], warnings + warns;
    }
  }
}
