/**
 * Calendar dates as the components see them through JavaScript's `Date`: a local
 * calendar day (year, month 1..12, day), the Gregorian month lengths behind
 * `new Date(year, month + 1, 0).getDate()`, the weekday behind `getDay()`
 * (0 = Sunday), the comparison `date < today` between local midnights, month
 * arithmetic with year carry, and the `YYYY-MM-DD` text the forms store.
 */
module Dates {
  import opened Text
  import opened Options

  datatype Date = Date(year: int, month: int, day: int)

  /** A displayed month: the part of a reference date the calendar grid uses. */
  datatype YearMonth = YearMonth(year: int, month: int)

  predicate IsLeapYear(y: int)
  {
    y % 4 == 0 && (y % 100 != 0 || y % 400 == 0)
  }

  /** `new Date(y, m, 0).getDate()` for month `m` (1-based): the length of the month. */
  function DaysInMonth(y: int, m: int): (n: int)
    requires 1 <= m <= 12
    ensures 28 <= n <= 31
    ensures m == 2 ==> (n == 29 <==> IsLeapYear(y))
  {
    if m == 2 then (if IsLeapYear(y) then 29 else 28)
    else if m == 4 || m == 6 || m == 9 || m == 11 then 30
    else 31
  }

  predicate ValidMonth(ym: YearMonth)
  {
    1 <= ym.month <= 12
  }

  predicate ValidDate(d: Date)
  {
    1 <= d.month <= 12 && 1 <= d.day <= DaysInMonth(d.year, d.month)
  }

  function MonthOf(d: Date): YearMonth
  {
    YearMonth(d.year, d.month)
  }

  /** The first day of a month. */
  function FirstDay(ym: YearMonth): (d: Date)
    requires ValidMonth(ym)
    ensures ValidDate(d) && MonthOf(d) == ym && d.day == 1
  {
    Date(ym.year, ym.month, 1)
  }

  /** The number of days from 0001-01-01 to January 1st of year `y` (proleptic Gregorian). */
  function DaysBeforeYear(y: int): int
  {
    365 * (y - 1) + (y - 1) / 4 - (y - 1) / 100 + (y - 1) / 400
  }

  /** The number of days of year `y` before the first day of month `m`; `m == 13` gives the length of the year. */
  function DaysBeforeMonth(y: int, m: int): int
    requires 1 <= m <= 13
  {
    [0, 31, 59, 90, 120, 151, 181, 212, 243, 273, 304, 334, 365][m - 1]
      + (if m > 2 && IsLeapYear(y) then 1 else 0)
  }

  lemma DaysBeforeMonthStep(y: int, m: int)
    requires 1 <= m <= 12
    ensures DaysBeforeMonth(y, m + 1) == DaysBeforeMonth(y, m) + DaysInMonth(y, m)
  {
  }

  /** A year has 366 days exactly when it is a leap year, and the day count of years agrees. */
  lemma YearLength(y: int)
    ensures DaysBeforeYear(y + 1) == DaysBeforeYear(y) + DaysBeforeMonth(y, 13)
  {
    DivStep(y, 4);
    DivStep(y, 100);
    DivStep(y, 400);
  }

  /** `y / n` grows by one exactly when `n` divides `y`. */
  lemma DivStep(y: int, n: int)
    requires n == 4 || n == 100 || n == 400
    ensures y / n - (y - 1) / n == if y % n == 0 then 1 else 0
  {
    var q, r := y / n, y % n;
    assert y == n * q + r && 0 <= r < n;
    if r == 0 {
      assert y - 1 == n * (q - 1) + (n - 1);
    } else {
      assert y - 1 == n * q + (r - 1);
    }
  }

  lemma {:induction false} DaysBeforeYearMonotone(a: int, b: int)
    requires a <= b
    ensures DaysBeforeYear(a) + 365 * (b - a) <= DaysBeforeYear(b)
    decreases b - a
  {
    if a < b {
      YearLength(b - 1);
      DaysBeforeYearMonotone(a, b - 1);
    }
  }

  /** The number of days from 0001-01-01 to `d`. */
  function DayNumber(d: Date): int
    requires 1 <= d.month <= 12
  {
    DaysBeforeYear(d.year) + DaysBeforeMonth(d.year, d.month) + d.day - 1
  }

  /** `getDay()`: 0 is Sunday, 6 is Saturday (0001-01-01 was a Monday). */
  function Weekday(d: Date): (w: int)
    requires 1 <= d.month <= 12
    ensures 0 <= w <= 6
  {
    (DayNumber(d) + 1) % 7
  }

  /** The day number fixes the weekday of known dates: the first seed appointment (2024-01-15) fell on a Monday. */
  lemma WeekdayOfKnownDates()
    ensures Weekday(Date(2024, 1, 1)) == 1
    ensures Weekday(Date(2024, 1, 15)) == 1
    ensures Weekday(Date(2026, 10, 9)) == 5
  {
  }

  /** The calendar day after `d`. */
  function NextDay(d: Date): (r: Date)
    requires ValidDate(d)
    ensures ValidDate(r)
  {
    if d.day < DaysInMonth(d.year, d.month) then Date(d.year, d.month, d.day + 1)
    else if d.month < 12 then Date(d.year, d.month + 1, 1)
    else Date(d.year + 1, 1, 1)
  }

  /** The next day is exactly one day later, across month and year ends. */
  lemma NextDayNumber(d: Date)
    requires ValidDate(d)
    ensures DayNumber(NextDay(d)) == DayNumber(d) + 1
  {
    if d.day == DaysInMonth(d.year, d.month) {
      if d.month < 12 {
        DaysBeforeMonthStep(d.year, d.month);
        assert NextDay(d) == Date(d.year, d.month + 1, 1);
      } else {
        YearLength(d.year);
        assert NextDay(d) == Date(d.year + 1, 1, 1);
      }
    } else {
      assert NextDay(d) == Date(d.year, d.month, d.day + 1);
    }
  }

  /** The weekday advances by one, wrapping from Saturday to Sunday. */
  lemma NextDayWeekday(d: Date)
    requires ValidDate(d)
    ensures Weekday(NextDay(d)) == (Weekday(d) + 1) % 7
  {
    NextDayNumber(d);
    WeekdayShift(DayNumber(d) + 1, 1);
  }

  /** Adding `k` days moves the weekday `k` steps forward, modulo 7. */
  lemma WeekdayShift(n: int, k: int)
    ensures (n + k) % 7 == (n % 7 + k) % 7
  {
    var q := n / 7;
    assert n + k == 7 * q + (n % 7 + k);
  }

  /** `a < b` for two local midnights: `a` is an earlier calendar day. */
  predicate Before(a: Date, b: Date)
  {
    || a.year < b.year
    || (a.year == b.year && a.month < b.month)
    || (a.year == b.year && a.month == b.month && a.day < b.day)
  }

  lemma DayNumberWithinYear(d: Date)
    requires ValidDate(d)
    ensures DaysBeforeYear(d.year) <= DayNumber(d) < DaysBeforeYear(d.year + 1)
  {
    YearLength(d.year);
  }

  /** Calendar order is day-number order. */
  lemma BeforeIffEarlier(a: Date, b: Date)
    requires ValidDate(a) && ValidDate(b)
    ensures Before(a, b) <==> DayNumber(a) < DayNumber(b)
  {
    DayNumberWithinYear(a);
    DayNumberWithinYear(b);
    if a.year < b.year {
      DaysBeforeYearMonotone(a.year + 1, b.year);
    } else if b.year < a.year {
      DaysBeforeYearMonotone(b.year + 1, a.year);
    }
  }

  /** The months since year 0, so that consecutive months differ by one. */
  function MonthIndex(ym: YearMonth): int
  {
    12 * ym.year + ym.month - 1
  }

  lemma MonthIndexInjective(a: YearMonth, b: YearMonth)
    requires ValidMonth(a) && ValidMonth(b)
    ensures MonthIndex(a) == MonthIndex(b) <==> a == b
  {
  }

  /** The month `delta` months after `ym` (before it when negative), carrying into the year. */
  function ShiftMonth(ym: YearMonth, delta: int): (r: YearMonth)
    ensures ValidMonth(r)
    ensures MonthIndex(r) == MonthIndex(ym) + delta
  {
    var i := MonthIndex(ym) + delta;
    YearMonth(i / 12, i % 12 + 1)
  }

  function PrevMonth(ym: YearMonth): YearMonth
  {
    ShiftMonth(ym, -1)
  }

  function NextMonth(ym: YearMonth): YearMonth
  {
    ShiftMonth(ym, 1)
  }

  /** Going back a month and then forward again (or the other way round) returns to the same month. */
  lemma PrevNextInverse(ym: YearMonth)
    requires ValidMonth(ym)
    ensures NextMonth(PrevMonth(ym)) == ym
    ensures PrevMonth(NextMonth(ym)) == ym
    ensures PrevMonth(ym) != ym && NextMonth(ym) != ym
  {
    MonthIndexInjective(NextMonth(PrevMonth(ym)), ym);
    MonthIndexInjective(PrevMonth(NextMonth(ym)), ym);
  }

  /** The last day of a month is followed by the first day of the next month. */
  lemma LastDayThenFirst(ym: YearMonth)
    requires ValidMonth(ym)
    ensures NextDay(Date(ym.year, ym.month, DaysInMonth(ym.year, ym.month))) == FirstDay(NextMonth(ym))
  {
    MonthIndexInjective(NextMonth(ym), if ym.month < 12 then YearMonth(ym.year, ym.month + 1) else YearMonth(ym.year + 1, 1));
  }

  /** The year as `toISOString` writes it: four digits, or a sign and six digits outside 0..9999. */
  function IsoYear(y: int): string
  {
    if 0 <= y <= 9999 then FixedDigits(y, 4)
    else (if y < 0 then "-" else "+") + FixedDigits(if y < 0 then -y else y, 6)
  }

  /** The `YYYY-MM-DD` text of a calendar day, the value stored in a form's `fecha`. */
  function IsoDate(d: Date): (s: string)
    requires ValidDate(d)
    ensures 0 <= d.year <= 9999 ==> |s| == 10 && s[4] == '-' && s[7] == '-'
    ensures |s| > 0
  {
    IsoYear(d.year) + "-" + FixedDigits(d.month, 2) + "-" + FixedDigits(d.day, 2)
  }

  /** Reads `YYYY-MM-DD` back into a valid date; anything else is `None`. */
  function ParseIsoDate(s: string): (r: Option<Date>)
    ensures r.Some? ==> ValidDate(r.value)
  {
    if |s| == 10 && s[4] == '-' && s[7] == '-'
       && AllDigits(s[0..4]) && AllDigits(s[5..7]) && AllDigits(s[8..10])
    then
      var d := Date(DigitsValue(s[0..4]), DigitsValue(s[5..7]), DigitsValue(s[8..10]));
      if ValidDate(d) then Some(d) else None
    else None
  }

  /** Writing a date and reading it back gives the date, for four-digit years. */
  lemma IsoDateRoundTrip(d: Date)
    requires ValidDate(d) && 0 <= d.year <= 9999
    ensures ParseIsoDate(IsoDate(d)) == Some(d)
  {
    var y, m, dd := FixedDigits(d.year, 4), FixedDigits(d.month, 2), FixedDigits(d.day, 2);
    var s := IsoDate(d);
    assert s == y + "-" + m + "-" + dd;
    assert s[0..4] == y;
    assert s[5..7] == m;
    assert s[8..10] == dd;
    FixedDigitsRoundTrip(d.year, 4);
    FixedDigitsRoundTrip(d.month, 2);
    FixedDigitsRoundTrip(d.day, 2);
  }

  /** Different dates are written differently (for four-digit years). */
  lemma IsoDateInjective(a: Date, b: Date)
    requires ValidDate(a) && 0 <= a.year <= 9999
    requires ValidDate(b) && 0 <= b.year <= 9999
    ensures IsoDate(a) == IsoDate(b) ==> a == b
  {
    IsoDateRoundTrip(a);
    IsoDateRoundTrip(b);
  }
}
