/**
 * The month calendar shared by the appointment wizard's date step and the
 * property-visit form (`getDaysInMonth`, `handleDateSelect`, `navigateMonth`).
 *
 * The grid always holds 42 cells, six Sunday-first weeks: the tail of the
 * previous month up to the displayed month's first weekday, every day of the
 * displayed month, then the head of the next month. The two copies in the source
 * differ only in which days of the displayed month they disable, so both are
 * `Grid` with a `Policy`; `today` (the source's `new Date()` at midnight) is a
 * parameter.
 */
module Calendar {
  import opened Dates
  import opened Options

  /** Which days of the displayed month are disabled: past days only, or past days and Sundays. */
  datatype Policy = PastOnly | PastAndSundays

  /** One cell; `isToday` and `isSunday` are absent (falsy) on cells outside the displayed month. */
  datatype CalendarDay = CalendarDay(date: Date, isCurrentMonth: bool, isDisabled: bool, isToday: bool, isSunday: bool)

  /** A cell of the previous or the next month. */
  function OutsideDay(date: Date): CalendarDay
  {
    CalendarDay(date, false, true, false, false)
  }

  /** A cell of the displayed month. */
  function MonthDay(date: Date, today: Date, policy: Policy): CalendarDay
    requires 1 <= date.month <= 12
  {
    var sunday := policy == PastAndSundays && Weekday(date) == 0;
    CalendarDay(date, true, Before(date, today) || sunday, date == today, sunday)
  }

  /** How many previous-month cells open the grid: the weekday of the 1st. */
  function LeadingCount(ym: YearMonth): nat
    requires ValidMonth(ym)
  {
    Weekday(FirstDay(ym))
  }

  function LeadingDays(ym: YearMonth): seq<CalendarDay>
    requires ValidMonth(ym)
  {
    var s := LeadingCount(ym);
    var p := PrevMonth(ym);
    var n := DaysInMonth(p.year, p.month);
    seq(s, k requires 0 <= k < s => OutsideDay(Date(p.year, p.month, n - s + 1 + k)))
  }

  function MonthDays(ym: YearMonth, today: Date, policy: Policy): seq<CalendarDay>
    requires ValidMonth(ym)
  {
    seq(DaysInMonth(ym.year, ym.month), k requires 0 <= k => MonthDay(Date(ym.year, ym.month, k + 1), today, policy))
  }

  function TrailingDays(ym: YearMonth, count: nat): seq<CalendarDay>
  {
    var nx := NextMonth(ym);
    seq(count, k requires 0 <= k < count => OutsideDay(Date(nx.year, nx.month, k + 1)))
  }

  /** `getDaysInMonth(reference)`: the 42 cells for the month of `reference`. */
  function Grid(reference: Date, today: Date, policy: Policy): (days: seq<CalendarDay>)
    requires 1 <= reference.month <= 12
    ensures |days| == 42
  {
    var ym := MonthOf(reference);
    var filled := LeadingDays(ym) + MonthDays(ym, today, policy);
    filled + TrailingDays(ym, 42 - |filled|)
  }

  /** At most 6 leading and at most 31 month cells, so between 5 and 14 next-month cells close the grid. */
  lemma TrailingCountRange(ym: YearMonth)
    requires ValidMonth(ym)
    ensures LeadingCount(ym) + DaysInMonth(ym.year, ym.month) <= 37
    ensures 5 <= 42 - LeadingCount(ym) - DaysInMonth(ym.year, ym.month) <= 14
  {
  }

  /** The cell at index `k`, by segment. */
  lemma GridAt(reference: Date, today: Date, policy: Policy, k: int)
    requires 1 <= reference.month <= 12 && 0 <= k < 42
    ensures var ym := MonthOf(reference);
            var s := LeadingCount(ym);
            var n := DaysInMonth(ym.year, ym.month);
            var p := PrevMonth(ym);
            var nx := NextMonth(ym);
            Grid(reference, today, policy)[k] ==
              if k < s then OutsideDay(Date(p.year, p.month, DaysInMonth(p.year, p.month) - s + 1 + k))
              else if k < s + n then MonthDay(Date(ym.year, ym.month, k - s + 1), today, policy)
              else OutsideDay(Date(nx.year, nx.month, k - s - n + 1))
  {
  }

  /** Every cell holds a real date, and each cell's date is the day after the previous cell's. */
  lemma GridConsecutive(reference: Date, today: Date, policy: Policy)
    requires 1 <= reference.month <= 12
    ensures var days := Grid(reference, today, policy);
            && (forall k | 0 <= k < 42 :: ValidDate(days[k].date))
            && (forall k | 0 <= k < 41 :: days[k + 1].date == NextDay(days[k].date))
  {
    var days := Grid(reference, today, policy);
    forall k | 0 <= k < 42
      ensures ValidDate(days[k].date)
    {
      GridAt(reference, today, policy, k);
    }
    forall k | 0 <= k < 41
      ensures days[k + 1].date == NextDay(days[k].date)
    {
      ConsecutiveAt(reference, today, policy, k);
    }
  }

  lemma ConsecutiveAt(reference: Date, today: Date, policy: Policy, k: int)
    requires 1 <= reference.month <= 12 && 0 <= k < 41
    ensures var days := Grid(reference, today, policy);
            ValidDate(days[k].date) && days[k + 1].date == NextDay(days[k].date)
  {
    var ym := MonthOf(reference);
    var s := LeadingCount(ym);
    var n := DaysInMonth(ym.year, ym.month);
    GridAt(reference, today, policy, k);
    GridAt(reference, today, policy, k + 1);
    PrevNextInverse(ym);
    if k + 1 == s {
      LastDayThenFirst(PrevMonth(ym));
    } else if k + 1 == s + n {
      LastDayThenFirst(ym);
    }
  }

  /** Consecutive cells are consecutive days: cell `k` is `k` days after cell 0. */
  lemma {:induction false} GridDayNumbers(reference: Date, today: Date, policy: Policy, k: int)
    requires 1 <= reference.month <= 12 && 0 <= k < 42
    ensures var days := Grid(reference, today, policy);
            ValidDate(days[0].date) && ValidDate(days[k].date) && DayNumber(days[k].date) == DayNumber(days[0].date) + k
  {
    var days := Grid(reference, today, policy);
    GridConsecutive(reference, today, policy);
    if k > 0 {
      GridDayNumbers(reference, today, policy, k - 1);
      NextDayNumber(days[k - 1].date);
    }
  }

  /** The grid is Sunday-first: cell 0 is a Sunday. */
  lemma GridStartsOnSunday(reference: Date, today: Date, policy: Policy)
    requires 1 <= reference.month <= 12
    ensures var days := Grid(reference, today, policy);
            1 <= days[0].date.month <= 12 && Weekday(days[0].date) == 0
  {
    var days := Grid(reference, today, policy);
    var s := LeadingCount(MonthOf(reference));
    GridAt(reference, today, policy, s);
    assert days[s].date == FirstDay(MonthOf(reference));
    GridDayNumbers(reference, today, policy, s);
    var d0 := DayNumber(days[0].date);
    assert (d0 + s + 1) % 7 == s;
    WeekdayShift(d0 + 1, s);
  }

  /** Every column holds one weekday: cell `k` falls on weekday `k % 7`. */
  lemma GridWeekdays(reference: Date, today: Date, policy: Policy)
    requires 1 <= reference.month <= 12
    ensures var days := Grid(reference, today, policy);
            forall k | 0 <= k < 42 :: 1 <= days[k].date.month <= 12 && Weekday(days[k].date) == k % 7
  {
    var days := Grid(reference, today, policy);
    GridStartsOnSunday(reference, today, policy);
    var d0 := DayNumber(days[0].date);
    forall k | 0 <= k < 42
      ensures 1 <= days[k].date.month <= 12 && Weekday(days[k].date) == k % 7
    {
      GridDayNumbers(reference, today, policy, k);
      WeekdayShift(d0 + 1, k);
    }
  }

  /** The cells marked as the displayed month are exactly the cells whose date lies in it, and they are its days 1, 2, ... in order. */
  lemma GridMonthCells(reference: Date, today: Date, policy: Policy)
    requires 1 <= reference.month <= 12
    ensures var days := Grid(reference, today, policy);
            var ym := MonthOf(reference);
            var s := LeadingCount(ym);
            && (forall k | 0 <= k < 42 :: days[k].isCurrentMonth <==> MonthOf(days[k].date) == ym)
            && (forall d | 1 <= d <= DaysInMonth(ym.year, ym.month) :: days[s + d - 1].date == Date(ym.year, ym.month, d))
  {
    var days := Grid(reference, today, policy);
    var ym := MonthOf(reference);
    PrevNextInverse(ym);
    forall k | 0 <= k < 42
      ensures days[k].isCurrentMonth <==> MonthOf(days[k].date) == ym
    {
      GridAt(reference, today, policy, k);
    }
    forall d | 1 <= d <= DaysInMonth(ym.year, ym.month)
      ensures days[LeadingCount(ym) + d - 1].date == Date(ym.year, ym.month, d)
    {
      GridAt(reference, today, policy, LeadingCount(ym) + d - 1);
    }
  }

  /**
   * The flags: a displayed-month cell is disabled exactly when it is before today
   * or (visit policy) a Sunday; every other cell is disabled and never today;
   * `isSunday` marks exactly the displayed-month Sundays of the visit policy.
   */
  lemma GridFlags(reference: Date, today: Date, policy: Policy)
    requires 1 <= reference.month <= 12
    ensures var days := Grid(reference, today, policy);
            forall k | 0 <= k < 42 ::
              && 1 <= days[k].date.month <= 12
              && (days[k].isCurrentMonth ==>
                    (days[k].isDisabled <==> Before(days[k].date, today) || (policy == PastAndSundays && Weekday(days[k].date) == 0)))
              && (!days[k].isCurrentMonth ==> days[k].isDisabled && !days[k].isToday)
              && (days[k].isSunday <==> days[k].isCurrentMonth && policy == PastAndSundays && Weekday(days[k].date) == 0)
  {
    var days := Grid(reference, today, policy);
    forall k | 0 <= k < 42
      ensures 1 <= days[k].date.month <= 12
      ensures days[k].isCurrentMonth ==>
                (days[k].isDisabled <==> Before(days[k].date, today) || (policy == PastAndSundays && Weekday(days[k].date) == 0))
      ensures !days[k].isCurrentMonth ==> days[k].isDisabled && !days[k].isToday
      ensures days[k].isSunday <==> days[k].isCurrentMonth && policy == PastAndSundays && Weekday(days[k].date) == 0
    {
      GridAt(reference, today, policy, k);
    }
  }

  /** `isToday` marks exactly one cell, today's, when today lies in the displayed month, and no cell otherwise. */
  lemma GridToday(reference: Date, today: Date, policy: Policy)
    requires 1 <= reference.month <= 12
    ensures var days := Grid(reference, today, policy);
            var ym := MonthOf(reference);
            && (forall k | 0 <= k < 42 :: days[k].isToday <==> days[k].date == today && MonthOf(today) == ym)
            && (ValidDate(today) && MonthOf(today) == ym ==>
                  var t := LeadingCount(ym) + today.day - 1;
                  0 <= t < 42 && days[t].isToday && forall k | 0 <= k < 42 && days[k].isToday :: k == t)
  {
    var days := Grid(reference, today, policy);
    var ym := MonthOf(reference);
    GridMonthCells(reference, today, policy);
    forall k | 0 <= k < 42
      ensures days[k].isToday <==> days[k].date == today && MonthOf(today) == ym
    {
      GridAt(reference, today, policy, k);
    }
    if ValidDate(today) && MonthOf(today) == ym {
      var t := LeadingCount(ym) + today.day - 1;
      forall k | 0 <= k < 42 && days[k].isToday
        ensures k == t
      {
        GridAt(reference, today, policy, k);
      }
    }
  }

  /** The two policies build the same grid except that the visit policy also disables and marks the displayed month's Sundays. */
  lemma PoliciesDifferOnlyOnSundays(reference: Date, today: Date)
    requires 1 <= reference.month <= 12
    ensures var a := Grid(reference, today, PastOnly);
            var b := Grid(reference, today, PastAndSundays);
            forall k | 0 <= k < 42 ::
              && a[k].date == b[k].date && a[k].isCurrentMonth == b[k].isCurrentMonth && a[k].isToday == b[k].isToday
              && !a[k].isSunday
              && (a[k].isDisabled ==> b[k].isDisabled)
              && (b[k].isDisabled && !a[k].isDisabled ==> b[k].isSunday)
  {
    var a := Grid(reference, today, PastOnly);
    var b := Grid(reference, today, PastAndSundays);
    forall k | 0 <= k < 42
      ensures a[k].date == b[k].date && a[k].isCurrentMonth == b[k].isCurrentMonth && a[k].isToday == b[k].isToday
      ensures !a[k].isSunday
      ensures a[k].isDisabled ==> b[k].isDisabled
      ensures b[k].isDisabled && !a[k].isDisabled ==> b[k].isSunday
    {
      GridAt(reference, today, PastOnly, k);
      GridAt(reference, today, PastAndSundays, k);
    }
  }

  /** `handleDateSelect`: a disabled cell yields nothing; an enabled one yields its `YYYY-MM-DD` text for `fecha`. */
  function SelectDate(cell: CalendarDay): (r: Option<string>)
    requires ValidDate(cell.date)
    ensures r == None <==> cell.isDisabled
    ensures r.Some? && 0 <= cell.date.year <= 9999 ==> ParseIsoDate(r.value) == Some(cell.date)
  {
    if cell.isDisabled then None
    else
      IsoDateRoundTrip2(cell.date);
      Some(IsoDate(cell.date))
  }

  lemma IsoDateRoundTrip2(d: Date)
    requires ValidDate(d)
    ensures 0 <= d.year <= 9999 ==> ParseIsoDate(IsoDate(d)) == Some(d)
  {
    if 0 <= d.year <= 9999 {
      IsoDateRoundTrip(d);
    }
  }

  /** Only bookable days can be selected: a cell of the grid that yields a date is in the displayed month, not before today, and (visit policy) not a Sunday. */
  lemma SelectableDaysAreBookable(reference: Date, today: Date, policy: Policy, k: int)
    requires 1 <= reference.month <= 12 && 0 <= k < 42
    ensures var cell := Grid(reference, today, policy)[k];
            ValidDate(cell.date) &&
            (SelectDate(cell).Some? ==>
               && MonthOf(cell.date) == MonthOf(reference)
               && !Before(cell.date, today)
               && (policy == PastAndSundays ==> Weekday(cell.date) != 0))
  {
    GridAt(reference, today, policy, k);
  }

  /**
   * `navigateMonth(direction)` as written: `setMonth(getMonth() + direction)` on
   * the displayed date keeps its day of the month, and a day the target month
   * does not have rolls over into the month after it.
   */
  function NavigateMonthAsWritten(current: Date, direction: int): (r: Date)
    requires ValidDate(current)
    ensures ValidDate(r)
    ensures current.day <= 28 ==> MonthIndex(MonthOf(r)) == MonthIndex(MonthOf(current)) + direction
  {
    var t := ShiftMonth(MonthOf(current), direction);
    var n := DaysInMonth(t.year, t.month);
    if current.day <= n then Date(t.year, t.month, current.day)
    else
      var nx := NextMonth(t);
      Date(nx.year, nx.month, current.day - n)
  }

  /** From October 31st, "next" shows December: November is skipped. */
  lemma NavigateMonthAsWrittenSkipsForward()
    ensures NavigateMonthAsWritten(Date(2026, 10, 31), 1) == Date(2026, 12, 1)
  {
    var nov := ShiftMonth(YearMonth(2026, 10), 1);
    MonthIndexInjective(nov, YearMonth(2026, 11));
    assert nov == YearMonth(2026, 11);
    assert DaysInMonth(2026, 11) == 30;
    MonthIndexInjective(NextMonth(nov), YearMonth(2026, 12));
  }

  /** From March 31st, "previous" shows March again. */
  lemma NavigateMonthAsWrittenStuckBackward()
    ensures NavigateMonthAsWritten(Date(2025, 3, 31), -1) == Date(2025, 3, 3)
  {
    var feb := ShiftMonth(YearMonth(2025, 3), -1);
    MonthIndexInjective(feb, YearMonth(2025, 2));
    assert feb == YearMonth(2025, 2);
    assert !IsLeapYear(2025);
    assert DaysInMonth(2025, 2) == 28;
    MonthIndexInjective(NextMonth(feb), YearMonth(2025, 3));
    assert NextMonth(feb) == YearMonth(2025, 3);
    assert MonthOf(Date(2025, 3, 31)) == YearMonth(2025, 3);
  }

  /** `navigateMonth(direction)`, corrected: display the first day of the month `direction` months away. */
  function NavigateMonth(current: Date, direction: int): (r: Date)
    ensures ValidDate(r) && r.day == 1
    ensures MonthIndex(MonthOf(r)) == MonthIndex(MonthOf(current)) + direction
  {
    FirstDay(ShiftMonth(MonthOf(current), direction))
  }

  /** Navigating forward and back (or back and forward) returns to the displayed month. */
  lemma NavigateMonthInverse(current: Date, direction: int)
    requires ValidMonth(MonthOf(current))
    ensures MonthOf(NavigateMonth(NavigateMonth(current, direction), -direction)) == MonthOf(current)
  {
    MonthIndexInjective(MonthOf(NavigateMonth(NavigateMonth(current, direction), -direction)), MonthOf(current));
  }
}
