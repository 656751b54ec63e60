/** What a generated month guarantees, stated over the records of its days
    (`IsAllocation`) and its warnings (`Shortfalls`): the properties the
    generator of src/App.jsx:127-201 is meant to have. */
module Guarantees {
  import opened Common
  import opened Calendar
  import opened Roster
  import opened Shifts
  import opened Staffing
  import opened Allocator

  /** On every date each employee is on exactly one of the four lists, and
      the lists name employees only. */
  lemma EveryoneOnce(emps: seq<Employee>, pids: seq<string>, y: int, m: int,
                     reqs: seq<Requirement>, days: seq<DaySchedule>, j: nat)
    requires 1000 <= y && 1 <= m <= 12 && |reqs| == |days| && j < |days|
    requires IsAllocation(emps, pids, y, m, reqs, days)
    ensures Partitions(Ids(emps), days[j])
  {
    assert AllocatedOn(emps, pids, y, m, reqs, days, j);
  }

  /** An employee is HOLIDAY on a date exactly when it asked for that date
      off, and then it is not on the day, night or OFF list. */
  lemma RequestsHonoured(emps: seq<Employee>, pids: seq<string>, y: int, m: int,
                         reqs: seq<Requirement>, days: seq<DaySchedule>, j: nat, i: nat)
    requires 1000 <= y && 1 <= m <= 12 && |reqs| == |days| && j < |days| && i < |emps|
    requires UniqueIds(emps) && IsAllocation(emps, pids, y, m, reqs, days)
    ensures emps[i].id in days[j].holiday <==> Requested(emps[i], KeyOf(y, m, j + 1))
    ensures Requested(emps[i], KeyOf(y, m, j + 1)) ==>
      emps[i].id !in days[j].day && emps[i].id !in days[j].night && emps[i].id !in days[j].off
  {
    assert AllocatedOn(emps, pids, y, m, reqs, days, j);
    HolidayListMembership(emps, pids, KeyOf(y, m, j + 1));
    assert Ids(emps)[i] == emps[i].id;
    assert Occurrences(days[j], emps[i].id) == 1;
  }

  /** Nobody works the day shift on the day after a night shift. */
  lemma NoDayAfterNight(emps: seq<Employee>, pids: seq<string>, y: int, m: int,
                        reqs: seq<Requirement>, days: seq<DaySchedule>, j: nat, x: string)
    requires 1000 <= y && 1 <= m <= 12 && |reqs| == |days| && 1 <= j < |days|
    requires IsAllocation(emps, pids, y, m, reqs, days)
    requires x in days[j - 1].night
    ensures x !in days[j].day
  {
    assert AllocatedOn(emps, pids, y, m, reqs, days, j);
  }

  /** No shift gets more employees than its head count, and a shift falls
      short only when nobody who could take it was left OFF. */
  lemma HeadCounts(emps: seq<Employee>, pids: seq<string>, y: int, m: int,
                   reqs: seq<Requirement>, days: seq<DaySchedule>, j: nat)
    requires 1000 <= y && 1 <= m <= 12 && |reqs| == |days| && j < |days|
    requires IsAllocation(emps, pids, y, m, reqs, days)
    ensures |days[j].day| <= reqs[j].day && |days[j].night| <= reqs[j].night
    ensures days[j].off != [] ==> |days[j].night| == reqs[j].night
    ensures |days[j].day| < reqs[j].day ==>
      forall x :: x in days[j].night || x in days[j].off ==> x in PrevNight(days, j)
  {
    assert AllocatedOn(emps, pids, y, m, reqs, days, j);
    if days[j].off != [] {
      assert days[j].off[0] in days[j].off;
    }
  }

  /** `w` is the warning about the short day or night shift of day `j`
      of a run of days dated by `keys`. */
  predicate ShortOn(keys: seq<string>, reqs: seq<Requirement>, days: seq<DaySchedule>, j: nat, w: Warning)
    requires |keys| == |reqs| == |days| && j < |days|
  {
    || (|days[j].day| < reqs[j].day && w == Warning(keys[j], Day, reqs[j].day, |days[j].day|))
    || (|days[j].night| < reqs[j].night && w == Warning(keys[j], Night, reqs[j].night, |days[j].night|))
  }

  /** A warning is raised exactly for each short shift, with the date, the
      head count and the number actually assigned. */
  lemma {:induction false} WarningIffShort(keys: seq<string>, reqs: seq<Requirement>, days: seq<DaySchedule>, w: Warning)
    requires |keys| == |reqs| == |days|
    ensures w in Shortfalls(keys, reqs, days) <==> exists j: nat :: j < |days| && ShortOn(keys, reqs, days, j, w)
  {
    if days != [] {
      var n := |days| - 1;
      var k0, r0, d0 := keys[..n], reqs[..n], days[..n];
      WarningIffShort(k0, r0, d0, w);
      forall j: nat | j < n ensures ShortOn(k0, r0, d0, j, w) <==> ShortOn(keys, reqs, days, j, w) {
        assert k0[j] == keys[j] && r0[j] == reqs[j] && d0[j] == days[j];
      }
      if w in Shortfalls(keys, reqs, days) && w !in Shortfalls(k0, r0, d0) {
        assert ShortOn(keys, reqs, days, n, w);
      }
      if exists j: nat :: j < |days| && ShortOn(keys, reqs, days, j, w) {
        var j: nat :| j < |days| && ShortOn(keys, reqs, days, j, w);
        if j < n {
          assert ShortOn(k0, r0, d0, j, w);
        }
      }
    }
  }

  /** Where the day of a date key falls: twice its day of the month. */
  function DaySlot(key: string): int {
    match ParseDateKey(key)
    case Some(dt) => 2 * dt.day
    case None => -1
  }

  /** Where a warning falls in the month: the slot of its date, plus one
      for the night shift. */
  function Slot(w: Warning): int {
    DaySlot(w.date) + (if w.shift == Night then 1 else 0)
  }

  lemma DaySlotOf(y: int, m: int, d: nat)
    requires 1000 <= y <= 9999 && 1 <= m <= 12 && 1 <= d <= 31
    ensures DaySlot(KeyOf(y, m, d)) == 2 * d
  {
    DateKeyRoundTrip(Date(y, m, d));
  }

  /** The `j`-th key is the key of day `j + 1`, as far as slots tell. */
  predicate Numbered(keys: seq<string>) {
    forall j :: 0 <= j < |keys| ==> DaySlot(keys[j]) == 2 * (j + 1)
  }

  /** The keys of the first `n` days of a month are numbered. */
  lemma MonthKeysNumbered(y: int, m: int, n: nat)
    requires 1000 <= y <= 9999 && 1 <= m <= 12 && n <= 31
    ensures Numbered(DayKeys(y, m, n))
  {
    var keys := DayKeys(y, m, n);
    forall j | 0 <= j < n ensures DaySlot(keys[j]) == 2 * (j + 1) {
      DaySlotOf(y, m, j + 1);
    }
  }

  /** Every warning about a run of numbered days lies in their slots. */
  lemma SlotsInRange(keys: seq<string>, reqs: seq<Requirement>, days: seq<DaySchedule>, w: Warning)
    requires |keys| == |reqs| == |days| && Numbered(keys)
    requires w in Shortfalls(keys, reqs, days)
    ensures 2 <= Slot(w) < 2 * |days| + 2
  {
    WarningIffShort(keys, reqs, days, w);
    var j: nat :| j < |days| && ShortOn(keys, reqs, days, j, w);
    assert DaySlot(keys[j]) == 2 * (j + 1);
  }

  /** The warnings are in strictly increasing slots. */
  predicate Ascending(ws: seq<Warning>) {
    forall p, q :: 0 <= p < q < |ws| ==> Slot(ws[p]) < Slot(ws[q])
  }

  /** The warnings of one day lie in its two slots, day shift first. */
  lemma DayInOrder(key: string, req: Requirement, ds: DaySchedule)
    ensures Ascending(DayShortfalls(key, req, ds))
    ensures forall w :: w in DayShortfalls(key, req, ds) ==> DaySlot(key) <= Slot(w) <= DaySlot(key) + 1
  {
    var ws := DayShortfalls(key, req, ds);
    if |ws| == 2 {
      assert ws[0].shift == Day && ws[1].shift == Night;
    }
  }

  /** Two ascending runs separated by a bound make an ascending run. */
  lemma AscendingAppend(earlier: seq<Warning>, latest: seq<Warning>, bound: int)
    requires Ascending(earlier) && Ascending(latest)
    requires forall w :: w in earlier ==> Slot(w) < bound
    requires forall w :: w in latest ==> bound <= Slot(w)
    ensures Ascending(earlier + latest)
  {
    var ws := earlier + latest;
    forall p, q | 0 <= p < q < |ws| ensures Slot(ws[p]) < Slot(ws[q]) {
      if q >= |earlier| {
        assert ws[q] == latest[q - |earlier|];
        if p < |earlier| {
          assert ws[p] == earlier[p];
        } else {
          assert ws[p] == latest[p - |earlier|];
        }
      } else {
        assert ws[p] == earlier[p] && ws[q] == earlier[q];
      }
    }
  }

  /** Over numbered days the warnings come in date order and, within a
      date, the day shift's first. */
  lemma {:induction false} SlotsIncrease(keys: seq<string>, reqs: seq<Requirement>, days: seq<DaySchedule>)
    requires |keys| == |reqs| == |days| && Numbered(keys)
    ensures Ascending(Shortfalls(keys, reqs, days))
  {
    if days != [] {
      var n := |days| - 1;
      var k0, r0, d0 := keys[..n], reqs[..n], days[..n];
      assert Numbered(k0) by {
        forall j | 0 <= j < n ensures DaySlot(k0[j]) == 2 * (j + 1) {
          assert k0[j] == keys[j];
        }
      }
      SlotsIncrease(k0, r0, d0);
      var earlier := Shortfalls(k0, r0, d0);
      forall w | w in earlier ensures Slot(w) < 2 * n + 2 {
        SlotsInRange(k0, r0, d0, w);
      }
      assert DaySlot(keys[n]) == 2 * n + 2;
      DayInOrder(keys[n], reqs[n], days[n]);
      AscendingAppend(earlier, DayShortfalls(keys[n], reqs[n], days[n]), 2 * n + 2);
    }
  }

  /** The warnings of a month come in date order and, within a date, the
      day shift's first; in particular no warning is raised twice. */
  lemma WarningsInOrder(y: int, m: int, reqs: seq<Requirement>, days: seq<DaySchedule>)
    requires 1000 <= y <= 9999 && 1 <= m <= 12 && |reqs| == |days| <= 31
    ensures Ascending(Shortfalls(DayKeys(y, m, |days|), reqs, days))
  {
    MonthKeysNumbered(y, m, |days|);
    SlotsIncrease(DayKeys(y, m, |days|), reqs, days);
  }
}
