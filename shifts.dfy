/** Shift kinds (`SHIFT_TYPES`, src/App.jsx:19-24), the record kept for one
    date of the schedule, the lookup that tells which shift an employee has
    on a date (src/App.jsx:226-231 in the export, src/App.jsx:378-383 in
    the table) and the one-character cell text of each shift
    (src/App.jsx:232-236, src/App.jsx:359-363). */
module Shifts {
  import opened Common

  datatype Shift = Day | Night | Holiday | Off

  /** The strings of `SHIFT_TYPES`; the program compares shifts by them. */
  function Label(s: Shift): string {
    match s
    case Day => "日勤"
    case Night => "夜勤"
    case Holiday => "休み希望"
    case Off => "公休"
  }

  /** Reads a label back; any other string is no shift. */
  function ShiftOfLabel(l: string): (r: Option<Shift>)
    ensures r.Some? ==> Label(r.value) == l
  {
    if l == "日勤" then Some(Day)
    else if l == "夜勤" then Some(Night)
    else if l == "休み希望" then Some(Holiday)
    else if l == "公休" then Some(Off)
    else None
  }

  /** The four labels are distinct, so comparing labels compares shifts. */
  lemma LabelRoundTrip(s: Shift)
    ensures ShiftOfLabel(Label(s)) == Some(s)
  {
    match s
    case Day =>
    case Night =>
      assert Label(Night) != "日勤";
    case Holiday =>
      assert Label(Holiday) != "日勤" && Label(Holiday) != "夜勤";
    case Off =>
      assert Label(Off) != "日勤" && Label(Off) != "夜勤" && Label(Off) != "休み希望";
  }

  /** `currentSchedule[dateStr]`: the ids on each shift of one date. */
  datatype DaySchedule = DaySchedule(day: seq<string>, night: seq<string>, off: seq<string>, holiday: seq<string>)

  /** The list of a date's record that holds the ids on shift `s`. */
  function ListOf(ds: DaySchedule, s: Shift): seq<string> {
    match s
    case Day => ds.day
    case Night => ds.night
    case Off => ds.off
    case Holiday => ds.holiday
  }

  /** How many of the four lists hold `x`. */
  function Occurrences(ds: DaySchedule, x: string): nat {
    (if x in ds.day then 1 else 0) + (if x in ds.night then 1 else 0)
    + (if x in ds.off then 1 else 0) + (if x in ds.holiday then 1 else 0)
  }

  /** Every id of the roster is on exactly one shift, each list names only
      roster ids, and no list names an id twice. */
  predicate Partitions(ids: seq<string>, ds: DaySchedule) {
    && NoDup(ds.day) && NoDup(ds.night) && NoDup(ds.off) && NoDup(ds.holiday)
    && (forall x :: x in ids ==> Occurrences(ds, x) == 1)
    && (forall x :: x in ds.day ==> x in ids)
    && (forall x :: x in ds.night ==> x in ids)
    && (forall x :: x in ds.off ==> x in ids)
    && (forall x :: x in ds.holiday ==> x in ids)
  }

  /** The lookup of src/App.jsx:226-231: a missing record means OFF, and
      otherwise the holiday list is checked first, then day, then night;
      an id on none of them is OFF. */
  function ShiftOf(ds: Option<DaySchedule>, x: string): (s: Shift)
    ensures s == Holiday ==> ds.Some? && x in ds.value.holiday
    ensures s == Day ==> ds.Some? && x in ds.value.day
    ensures s == Night ==> ds.Some? && x in ds.value.night
    ensures s == Off ==> ds.None? || (x !in ds.value.holiday && x !in ds.value.day && x !in ds.value.night)
  {
    match ds
    case None => Off
    case Some(d) =>
      if x in d.holiday then Holiday
      else if x in d.day then Day
      else if x in d.night then Night
      else Off
  }

  /** An id on two lists is shown by the first of holiday, day and night
      that holds it. */
  lemma LookupPrecedence(ds: DaySchedule, x: string)
    ensures x in ds.holiday ==> ShiftOf(Some(ds), x) == Holiday
    ensures x !in ds.holiday && x in ds.day ==> ShiftOf(Some(ds), x) == Day
    ensures x !in ds.holiday && x !in ds.day && x in ds.night ==> ShiftOf(Some(ds), x) == Night
  {
  }

  /** When the record partitions the roster, the lookup finds the one list
      that holds the id: the precedence never has to decide. */
  lemma ShiftOfPartition(ids: seq<string>, ds: DaySchedule, x: string)
    requires Partitions(ids, ds) && x in ids
    ensures x in ListOf(ds, ShiftOf(Some(ds), x))
    ensures forall s :: x in ListOf(ds, s) ==> s == ShiftOf(Some(ds), x)
  {
    assert Occurrences(ds, x) == 1;
  }

  /** The cell text of src/App.jsx:232-236: OFF is an empty cell. */
  function CellText(s: Shift): string {
    match s
    case Day => "日"
    case Night => "夜"
    case Holiday => "休"
    case Off => ""
  }

  /** Reads a cell back. */
  function ParseCell(t: string): (r: Option<Shift>)
    ensures r.Some? ==> CellText(r.value) == t
  {
    if t == "日" then Some(Day)
    else if t == "夜" then Some(Night)
    else if t == "休" then Some(Holiday)
    else if t == "" then Some(Off)
    else None
  }

  /** Every shift's cell reads back as that shift, so the export loses no
      information about who works which shift. */
  lemma CellRoundTrip(s: Shift)
    ensures ParseCell(CellText(s)) == Some(s)
  {
    match s
    case Day =>
    case Night =>
      assert CellText(Night) != "日";
    case Holiday =>
      assert CellText(Holiday) != "日" && CellText(Holiday) != "夜";
    case Off =>
      assert CellText(Off) != "日" && CellText(Off) != "夜" && CellText(Off) != "休";
  }
}
