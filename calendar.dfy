/** Calendar arithmetic standing in for JavaScript's `Date` (proleptic
    Gregorian calendar): month lengths (`getDaysInMonth`, src/App.jsx:7-9),
    the weekday (`getDay`), the normalisation of "day 0" to the last day of
    the previous month, and the `YYYY-MM-DD` keys of
    `formatDateToYyyyMmDd` (src/App.jsx:11-16). */
module Calendar {
  import opened Common
  import opened Text

  datatype Date = Date(year: int, month: int, day: int)

  predicate IsLeapYear(y: int) {
    (y % 4 == 0 && y % 100 != 0) || y % 400 == 0
  }

  /** `getDaysInMonth(year, month)`, with `month` counted from 1. */
  function DaysInMonth(y: int, m: int): (n: nat)
    requires 1 <= m <= 12
    ensures 28 <= n <= 31
  {
    if m == 2 then (if IsLeapYear(y) then 29 else 28)
    else if m == 4 || m == 6 || m == 9 || m == 11 then 30
    else 31
  }

  predicate ValidDate(dt: Date) {
    dt.year >= 1 && 1 <= dt.month <= 12 && 1 <= dt.day <= DaysInMonth(dt.year, dt.month)
  }

  /** Days of the year before the first of month `m`, from the usual table
      of cumulative month lengths. */
  function DaysBeforeMonth(y: int, m: int): nat
    requires 1 <= m <= 12
  {
    [0, 31, 59, 90, 120, 151, 181, 212, 243, 273, 304, 334][m - 1]
    + (if m > 2 && IsLeapYear(y) then 1 else 0)
  }

  /** Days before 1 January of year `y`, counted from 1 January of year 1. */
  function DaysBeforeYear(y: int): int
    requires y >= 1
  {
    365 * (y - 1) + (y - 1) / 4 - (y - 1) / 100 + (y - 1) / 400
  }

  /** The serial number of a date: 1 for 1 January of year 1. */
  function Serial(dt: Date): int
    requires dt.year >= 1 && 1 <= dt.month <= 12
  {
    DaysBeforeYear(dt.year) + DaysBeforeMonth(dt.year, dt.month) + dt.day
  }

  /** `getDay()`: 0 for Sunday up to 6 for Saturday. 1 January of year 1
      was a Monday. */
  function DayOfWeek(dt: Date): (w: nat)
    requires dt.year >= 1 && 1 <= dt.month <= 12
    ensures w < 7
  {
    Serial(dt) % 7
  }

  /** The weekend test of src/App.jsx:158-159. */
  predicate IsWeekend(dt: Date)
    requires dt.year >= 1 && 1 <= dt.month <= 12
  {
    DayOfWeek(dt) == 0 || DayOfWeek(dt) == 6
  }

  /** A year has 365 days, 366 in a leap year. */
  lemma YearLength(y: int)
    requires y >= 1
    ensures DaysBeforeYear(y + 1) == DaysBeforeYear(y) + (if IsLeapYear(y) then 366 else 365)
  {
    DivStep(y, 4);
    DivStep(y, 100);
    DivStep(y, 400);
  }

  /** Going from `y - 1` to `y` adds one multiple of `k` exactly when `k`
      divides `y`. */
  lemma DivStep(y: int, k: int)
    requires k > 0
    ensures y / k - (y - 1) / k == (if y % k == 0 then 1 else 0)
  {
    var q, r := y / k, y % k;
    assert y == k * q + r && 0 <= r < k;
    if r == 0 {
      assert y - 1 == k * (q - 1) + (k - 1);
      DivUnique(y - 1, k, q - 1, k - 1);
    } else {
      assert y - 1 == k * q + (r - 1);
      DivUnique(y - 1, k, q, r - 1);
    }
  }

  /** Division is determined by quotient and remainder. */
  lemma DivUnique(a: int, k: int, q: int, r: int)
    requires k > 0 && a == k * q + r && 0 <= r < k
    ensures a / k == q
  {
    var q', r' := a / k, a % k;
    assert a == k * q' + r' && 0 <= r' < k;
    assert k * (q - q') == r' - r;
    if q' < q {
      MulAtLeast(k, q - q');
    } else if q' > q {
      MulAtLeast(k, q' - q);
    }
  }

  lemma {:induction false} MulAtLeast(k: int, d: int)
    requires k > 0 && d >= 1
    ensures k * d >= k
  {
    if d > 1 {
      MulAtLeast(k, d - 1);
      assert k * d == k * (d - 1) + k;
    }
  }

  /** The date after `dt`. Its serial number is one more, so the month
      table, the month lengths and the leap-year rule agree. */
  function NextDate(dt: Date): (nx: Date)
    requires ValidDate(dt)
    ensures ValidDate(nx) && Serial(nx) == Serial(dt) + 1
  {
    if dt.day < DaysInMonth(dt.year, dt.month) then dt.(day := dt.day + 1)
    else if dt.month < 12 then Date(dt.year, dt.month + 1, 1)
    else
      YearLength(dt.year);
      Date(dt.year + 1, 1, 1)
  }

  /** The date JavaScript produces for `new Date(y, m - 1, d - 1)`: the day
      before, which for `d == 1` is the last day of the previous month. */
  function PrevDate(dt: Date): (pv: Date)
    requires ValidDate(dt) && dt.year >= 2
    ensures ValidDate(pv) && NextDate(pv) == dt
  {
    if dt.day > 1 then dt.(day := dt.day - 1)
    else if dt.month > 1 then Date(dt.year, dt.month - 1, DaysInMonth(dt.year, dt.month - 1))
    else Date(dt.year - 1, 12, 31)
  }

  /** `getDaysInMonth` asks JavaScript for day 0 of the following month;
      that is the day whose serial number is one less than the first of
      the following month, and its day of the month is `DaysInMonth`. */
  lemma {:induction false} DaysInMonthIsDayZero(y: int, m: int)
    requires y >= 2 && 1 <= m <= 12
    ensures var first := if m < 12 then Date(y, m + 1, 1) else Date(y + 1, 1, 1);
            PrevDate(first) == Date(y, m, DaysInMonth(y, m))
            && Serial(first) == Serial(Date(y, m, DaysInMonth(y, m))) + 1
  {
    var last := Date(y, m, DaysInMonth(y, m));
    assert NextDate(last) == (if m < 12 then Date(y, m + 1, 1) else Date(y + 1, 1, 1));
  }

  /** Consecutive dates have consecutive weekdays, across month and year
      ends too. */
  lemma NextWeekday(dt: Date)
    requires ValidDate(dt)
    ensures DayOfWeek(NextDate(dt)) == (DayOfWeek(dt) + 1) % 7
  {
    WeekdayStep(Serial(dt), Serial(NextDate(dt)));
  }

  lemma WeekdayStep(s: int, t: int)
    requires t == s + 1
    ensures t % 7 == (s % 7 + 1) % 7
  {
    var q, r := s / 7, s % 7;
    assert s == 7 * q + r && 0 <= r < 7;
    if r < 6 {
      assert t == 7 * q + (r + 1);
    } else {
      assert t == 7 * (q + 1);
    }
  }

  /** Two fixed points against the real calendar: 1 January 1970 was a
      Thursday and 1 January 2025 a Wednesday. */
  lemma KnownWeekdays()
    ensures DayOfWeek(Date(1970, 1, 1)) == 4
    ensures DayOfWeek(Date(2025, 1, 1)) == 3
  {
  }

  // ---------------------------------------------------------------------
  // Date keys
  // ---------------------------------------------------------------------

  /** `formatDateToYyyyMmDd`: the year as written by `String`, then month
      and day padded to two digits. */
  function DateKey(dt: Date): string
    requires dt.year >= 0 && dt.month >= 0 && dt.day >= 0
  {
    Decimal(dt.year) + "-" + Pad2(dt.month) + "-" + Pad2(dt.day)
  }

  /** The test `/^\d{4}-\d{2}-\d{2}$/` (JavaScript's `\d` is 0 to 9). */
  predicate IsDateKey(s: string) {
    && |s| == 10
    && IsDigit(s[0]) && IsDigit(s[1]) && IsDigit(s[2]) && IsDigit(s[3])
    && s[4] == '-' && IsDigit(s[5]) && IsDigit(s[6])
    && s[7] == '-' && IsDigit(s[8]) && IsDigit(s[9])
  }

  /** Reads a key back into year, month and day. */
  function ParseDateKey(s: string): Option<Date> {
    if IsDateKey(s) then
      assert AllDigits(s[..4]) && AllDigits(s[5..7]) && AllDigits(s[8..]);
      Some(Date(DigitsValue(s[..4]), DigitsValue(s[5..7]), DigitsValue(s[8..])))
    else None
  }

  /** A date of a four-digit year has a well-formed key, and the key reads
      back as the same date. */
  lemma DateKeyRoundTrip(dt: Date)
    requires 1000 <= dt.year <= 9999 && 1 <= dt.month <= 12 && 1 <= dt.day <= 31
    ensures IsDateKey(DateKey(dt))
    ensures ParseDateKey(DateKey(dt)) == Some(dt)
  {
    Decimal4(dt.year);
    Pad2RoundTrip(dt.month);
    Pad2RoundTrip(dt.day);
    var ys, ms, ds := Decimal(dt.year), Pad2(dt.month), Pad2(dt.day);
    var s := DateKey(dt);
    assert s == ys + "-" + ms + "-" + ds;
    assert s[..4] == ys && s[5..7] == ms && s[8..] == ds;
    assert s[4] == '-' && s[7] == '-';
    assert forall i :: 0 <= i < 4 ==> s[i] == ys[i];
    assert s[5] == ms[0] && s[6] == ms[1] && s[8] == ds[0] && s[9] == ds[1];
  }

  /** Distinct dates of four-digit years have distinct keys. */
  lemma DateKeyInjective(a: Date, b: Date)
    requires 1000 <= a.year <= 9999 && 1 <= a.month <= 12 && 1 <= a.day <= 31
    requires 1000 <= b.year <= 9999 && 1 <= b.month <= 12 && 1 <= b.day <= 31
    ensures DateKey(a) == DateKey(b) ==> a == b
  {
    DateKeyRoundTrip(a);
    DateKeyRoundTrip(b);
  }

  /** The key of the date before day `d` of month `m`: what src/App.jsx:172
      looks up for the rest rule. */
  function PrevDateKey(y: int, m: int, d: int): string
    requires 1000 <= y && ValidDate(Date(y, m, d))
  {
    DateKey(PrevDate(Date(y, m, d)))
  }

  /** The keys of the days of a month. */
  function MonthKeys(y: int, m: int): set<string>
    requires 1000 <= y && 1 <= m <= 12
  {
    set d | 1 <= d <= DaysInMonth(y, m) :: DateKey(Date(y, m, d))
  }

  /** From day 2 on, the key looked up for the rest rule is that of the
      previous day of the same month; on day 1 it is a key of the previous
      month, which is never a key of this month. */
  lemma PrevDateKeyInMonth(y: int, m: int, d: int)
    requires 1000 <= y <= 9999 && 1 <= m <= 12 && 1 <= d <= DaysInMonth(y, m)
    ensures d > 1 ==> PrevDateKey(y, m, d) == DateKey(Date(y, m, d - 1))
    ensures d == 1 ==> PrevDateKey(y, m, d) !in MonthKeys(y, m)
  {
    if d == 1 {
      var pv := PrevDate(Date(y, m, 1));
      if PrevDateKey(y, m, 1) in MonthKeys(y, m) {
        var e :| 1 <= e <= DaysInMonth(y, m) && DateKey(Date(y, m, e)) == DateKey(pv);
        if pv.year >= 1000 {
          DateKeyInjective(pv, Date(y, m, e));
        } else {
          Decimal3(pv.year);
          Decimal4(y);
          Pad2RoundTrip(pv.month);
          Pad2RoundTrip(pv.day);
          Pad2RoundTrip(m);
          Pad2RoundTrip(e);
        }
        assert false;
      }
    }
  }
}
