/**
 * Gregorian calendar dates as the attendance table stores them (a DATE column without time),
 * with the pieces of date arithmetic the service relies on: days in a month, the day of the
 * week, the following day, and the `Y-m-d` text form used in cache keys.
 */
module Calendar {
  import opened Wrappers
  import opened Text

  datatype Date = Date(year: int, month: int, day: int)

  predicate IsLeapYear(y: int)
  {
    y % 4 == 0 && (y % 100 != 0 || y % 400 == 0)
  }

  function DaysInMonth(y: int, m: int): (n: int)
    requires 1 <= m <= 12
    ensures 28 <= n <= 31
    ensures m == 2 ==> (n == 29 <==> IsLeapYear(y))
  {
    if m == 2 then (if IsLeapYear(y) then 29 else 28)
    else if m == 4 || m == 6 || m == 9 || m == 11 then 30
    else 31
  }

  /** A calendar date the DATE column can hold: years 1 to 9999, a real month, a real day. */
  predicate ValidDate(d: Date)
  {
    1 <= d.year <= 9999 && 1 <= d.month <= 12 && 1 <= d.day <= DaysInMonth(d.year, d.month)
  }

  /** Chronological order of dates. */
  predicate Before(a: Date, b: Date)
  {
    a.year < b.year || (a.year == b.year && (a.month < b.month || (a.month == b.month && a.day < b.day)))
  }

  predicate NotAfter(a: Date, b: Date) { a == b || Before(a, b) }

  /** The day after `d` (Carbon's `addDay`). */
  function NextDay(d: Date): (r: Date)
    requires ValidDate(d)
    ensures Before(d, r)
  {
    if d.day < DaysInMonth(d.year, d.month) then Date(d.year, d.month, d.day + 1)
    else if d.month < 12 then Date(d.year, d.month + 1, 1)
    else Date(d.year + 1, 1, 1)
  }

  /** Days in the months of year y before month m. */
  function DaysBeforeMonth(y: int, m: int): (n: int)
    requires 1 <= m <= 13
    ensures 28 * (m - 1) <= n <= 31 * (m - 1)
  {
    if m == 1 then 0 else DaysBeforeMonth(y, m - 1) + DaysInMonth(y, m - 1)
  }

  /** Days in the years before year y, counted from 1 January of year 1 (proleptic Gregorian). */
  function DaysBeforeYear(y: int): int
  {
    365 * (y - 1) + (y - 1) / 4 - (y - 1) / 100 + (y - 1) / 400
  }

  /** Number of days from 1 January of year 1 to d; that first day is a Monday. */
  function DayNumber(d: Date): int
    requires 1 <= d.month <= 12
  {
    DaysBeforeYear(d.year) + DaysBeforeMonth(d.year, d.month) + d.day - 1
  }

  /** ISO day of the week: 1 = Monday, ..., 7 = Sunday. */
  function IsoWeekday(d: Date): (w: int)
    requires 1 <= d.month <= 12
    ensures 1 <= w <= 7
  {
    DayNumber(d) % 7 + 1
  }

  /** Carbon's `isWeekday`: Monday to Friday. */
  predicate IsWeekday(d: Date)
    requires 1 <= d.month <= 12
  {
    IsoWeekday(d) <= 5
  }

  lemma YearLength(y: int)
    ensures DaysBeforeYear(y + 1) - DaysBeforeYear(y) == if IsLeapYear(y) then 366 else 365
  {
    DivStep4(y);
    DivStep100(y);
    DivStep400(y);
    if y % 400 == 0 {
      assert y % 100 == 0 && y % 4 == 0;
    } else if y % 100 == 0 {
      assert y % 4 == 0;
    }
  }

  lemma DivStep4(y: int)
    ensures y / 4 - (y - 1) / 4 == if y % 4 == 0 then 1 else 0
  {
  }

  lemma DivStep100(y: int)
    ensures y / 100 - (y - 1) / 100 == if y % 100 == 0 then 1 else 0
  {
  }

  lemma DivStep400(y: int)
    ensures y / 400 - (y - 1) / 400 == if y % 400 == 0 then 1 else 0
  {
  }

  lemma {:induction false} MonthsOfYear(y: int)
    ensures DaysBeforeMonth(y, 13) == if IsLeapYear(y) then 366 else 365
  {
    assert DaysBeforeMonth(y, 2) == 31;
    assert DaysBeforeMonth(y, 3) == 31 + DaysInMonth(y, 2);
    assert DaysBeforeMonth(y, 4) == DaysBeforeMonth(y, 3) + 31;
    assert DaysBeforeMonth(y, 5) == DaysBeforeMonth(y, 4) + 30;
    assert DaysBeforeMonth(y, 6) == DaysBeforeMonth(y, 5) + 31;
    assert DaysBeforeMonth(y, 7) == DaysBeforeMonth(y, 6) + 30;
    assert DaysBeforeMonth(y, 8) == DaysBeforeMonth(y, 7) + 31;
    assert DaysBeforeMonth(y, 9) == DaysBeforeMonth(y, 8) + 31;
    assert DaysBeforeMonth(y, 10) == DaysBeforeMonth(y, 9) + 30;
    assert DaysBeforeMonth(y, 11) == DaysBeforeMonth(y, 10) + 31;
    assert DaysBeforeMonth(y, 12) == DaysBeforeMonth(y, 11) + 30;
    assert DaysBeforeMonth(y, 13) == DaysBeforeMonth(y, 12) + 31;
  }

  /** Day numbers are consecutive: the next day is exactly one day later, across months and years. */
  lemma {:induction false} NextDayNumber(d: Date)
    requires ValidDate(d)
    ensures DayNumber(NextDay(d)) == DayNumber(d) + 1
  {
    if d.day == DaysInMonth(d.year, d.month) && d.month == 12 {
      MonthsOfYear(d.year);
      YearLength(d.year);
    }
  }

  /** The weekday advances by one, wrapping from Sunday to Monday. */
  lemma NextWeekday(d: Date)
    requires ValidDate(d)
    ensures IsoWeekday(NextDay(d)) == IsoWeekday(d) % 7 + 1
  {
    NextDayNumber(d);
    WeekdayStep(d, NextDay(d));
  }

  /** A date one day number later is one weekday later. */
  lemma WeekdayStep(a: Date, b: Date)
    requires 1 <= a.month <= 12 && 1 <= b.month <= 12
    requires DayNumber(b) == DayNumber(a) + 1
    ensures IsoWeekday(b) == IsoWeekday(a) % 7 + 1
  {
    ModShift(DayNumber(a), 1);
  }

  /** Anchors: 1 January 1970 was a Thursday, 1 March 2024 a Friday. */
  lemma KnownWeekdays()
    ensures IsoWeekday(Date(1970, 1, 1)) == 4
    ensures IsoWeekday(Date(2024, 3, 1)) == 5
  {
    assert DaysBeforeMonth(2024, 3) == 60;
  }

  /** Weekdays among days 1..last of month m of year y. */
  function WeekdayCount(y: int, m: int, last: int): (n: nat)
    requires 1 <= m <= 12
    ensures n <= if last < 0 then 0 else last
  {
    if last < 1 then 0
    else WeekdayCount(y, m, last - 1) + (if IsWeekday(Date(y, m, last)) then 1 else 0)
  }

  /** Weekdays from the first to the last day of the month, both included. */
  function BusinessDaysInMonth(y: int, m: int): nat
    requires 1 <= m <= 12
  {
    WeekdayCount(y, m, DaysInMonth(y, m))
  }

  /** 1 when day number n falls on Monday to Friday, else 0. */
  function WorkdayIndicator(n: int): nat
  {
    if n % 7 < 5 then 1 else 0
  }

  lemma FiveOfSeven(b: int)
    ensures WorkdayIndicator(b) + WorkdayIndicator(b + 1) + WorkdayIndicator(b + 2) + WorkdayIndicator(b + 3)
          + WorkdayIndicator(b + 4) + WorkdayIndicator(b + 5) + WorkdayIndicator(b + 6) == 5
  {
    ModShift(b, 1);
    ModShift(b, 2);
    ModShift(b, 3);
    ModShift(b, 4);
    ModShift(b, 5);
    ModShift(b, 6);
  }

  lemma ModShift(b: int, k: int)
    requires 0 <= k < 7
    ensures (b + k) % 7 == if b % 7 + k < 7 then b % 7 + k else b % 7 + k - 7
  {
    var q, r := b / 7, b % 7;
    assert b + k == 7 * q + (r + k);
    if r + k >= 7 {
      assert b + k == 7 * (q + 1) + (r + k - 7);
    }
  }

  lemma {:induction false} CountStep(y: int, m: int, d: int)
    requires 1 <= m <= 12 && d >= 1
    ensures WeekdayCount(y, m, d) == WeekdayCount(y, m, d - 1) + WorkdayIndicator(DayNumber(Date(y, m, d)))
  {
  }

  /** Day a + k of the month lies k - 1 days after day a + 1. */
  lemma CountStepFrom(y: int, m: int, a: nat, k: int)
    requires 1 <= m <= 12 && k >= 1
    ensures WeekdayCount(y, m, a + k) == WeekdayCount(y, m, a + k - 1) + WorkdayIndicator(DayNumber(Date(y, m, a + 1)) + (k - 1))
  {
    CountStep(y, m, a + k);
  }

  /** Any seven consecutive days of a month hold exactly five weekdays. */
  lemma {:induction false} SevenDaysHoldFiveWeekdays(y: int, m: int, a: nat)
    requires 1 <= m <= 12
    ensures WeekdayCount(y, m, a + 7) == WeekdayCount(y, m, a) + 5
  {
    var b := DayNumber(Date(y, m, a + 1));
    CountStepFrom(y, m, a, 1);
    CountStepFrom(y, m, a, 2);
    CountStepFrom(y, m, a, 3);
    CountStepFrom(y, m, a, 4);
    CountStepFrom(y, m, a, 5);
    CountStepFrom(y, m, a, 6);
    CountStepFrom(y, m, a, 7);
    FiveOfSeven(b);
  }

  /** Every month has between 20 and 23 business days, so the fallback denominator is never 0. */
  lemma BusinessDaysBounds(y: int, m: int)
    requires 1 <= m <= 12
    ensures 20 <= BusinessDaysInMonth(y, m) <= 23
  {
    SevenDaysHoldFiveWeekdays(y, m, 0);
    SevenDaysHoldFiveWeekdays(y, m, 7);
    SevenDaysHoldFiveWeekdays(y, m, 14);
    SevenDaysHoldFiveWeekdays(y, m, 21);
    var n := DaysInMonth(y, m);
    assert WeekdayCount(y, m, 28) == 20;
    assert WeekdayCount(y, m, 28) <= WeekdayCount(y, m, 29) <= WeekdayCount(y, m, 28) + 1;
    assert WeekdayCount(y, m, 29) <= WeekdayCount(y, m, 30) <= WeekdayCount(y, m, 29) + 1;
    assert WeekdayCount(y, m, 30) <= WeekdayCount(y, m, 31) <= WeekdayCount(y, m, 30) + 1;
  }

  /** Carbon's `format('Y-m-d')` of a valid date: four-digit year, two-digit month and day. */
  function FormatYmd(d: Date): (s: string)
    requires ValidDate(d)
    ensures |s| == 10 && s[4] == '-' && s[7] == '-'
  {
    FixedDigits(d.year, 4) + "-" + FixedDigits(d.month, 2) + "-" + FixedDigits(d.day, 2)
  }

  /** Carbon's string form `Y-m-d H:i:s` of a date-cast attribute, which carries midnight. */
  function FormatDateTime(d: Date): (s: string)
    requires ValidDate(d)
    ensures |s| == 19 && s[..10] == FormatYmd(d)
  {
    FormatYmd(d) + " 00:00:00"
  }

  /** Reading a `Y-m-d` string back as a date; anything else, or an impossible date, is None. */
  function ParseYmd(s: string): (r: Option<Date>)
    ensures r.Some? ==> ValidDate(r.value)
  {
    if |s| == 10 && s[4] == '-' && s[7] == '-' && AllDigits(s[..4]) && AllDigits(s[5..7]) && AllDigits(s[8..])
    then
      var d := Date(DigitsValue(s[..4]), DigitsValue(s[5..7]), DigitsValue(s[8..]));
      if ValidDate(d) then Some(d) else None
    else None
  }

  /** Formatting then parsing gives the date back, so distinct dates never share a cache key. */
  lemma FormatYmdRoundTrip(d: Date)
    requires ValidDate(d)
    ensures ParseYmd(FormatYmd(d)) == Some(d)
  {
    var s := FormatYmd(d);
    assert s[..4] == FixedDigits(d.year, 4);
    assert s[5..7] == FixedDigits(d.month, 2);
    assert s[8..] == FixedDigits(d.day, 2);
    FixedDigitsRoundTrip(d.year, 4);
    FixedDigitsRoundTrip(d.month, 2);
    FixedDigitsRoundTrip(d.day, 2);
  }

  lemma FormatYmdInjective(a: Date, b: Date)
    requires ValidDate(a) && ValidDate(b) && FormatYmd(a) == FormatYmd(b)
    ensures a == b
  {
    FormatYmdRoundTrip(a);
    FormatYmdRoundTrip(b);
  }
}
