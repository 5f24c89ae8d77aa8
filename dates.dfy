/**
 * Calendar dates as Python's datetime.date knows them, the parse that
 * datetime.datetime.strptime(text, "%Y-%m-%d").date() performs in Python 2.7, and the
 * proleptic Gregorian day numbers that date subtraction works with.
 */
module Dates {
  import opened Wrappers

  datatype Date = Date(year: int, month: int, day: int)

  predicate IsLeap(y: int) {
    y % 4 == 0 && (y % 100 != 0 || y % 400 == 0)
  }

  function DaysInMonth(y: int, m: int): int
    requires 1 <= m <= 12
  {
    if m == 2 then (if IsLeap(y) then 29 else 28)
    else if m == 4 || m == 6 || m == 9 || m == 11 then 30
    else 31
  }

  /** The check datetime.date's constructor makes: a year from 1 on, a month 1-12, a day within
      that month.  (Its upper bound on the year, 9999, never binds here: every year is read
      from four digits.) */
  predicate IsCalendarDate(d: Date) {
    1 <= d.year && 1 <= d.month <= 12 && 1 <= d.day <= DaysInMonth(d.year, d.month)
  }

  // ---------------------------------------------------------------------------------------
  // strptime(text, "%Y-%m-%d")

  predicate IsDigit(c: char) {
    '0' <= c <= '9'
  }

  function DigitValue(c: char): (v: int)
    requires IsDigit(c)
    ensures 0 <= v <= 9
  {
    c as int - '0' as int
  }

  /** The %m pattern 1[0-2]|0[1-9]|[1-9] followed by the literal '-', as the regex engine
      tries it at p: the month and the position after the '-'. */
  function MatchMonthDash(s: string, p: nat): (r: Option<(int, nat)>)
    ensures r.Some? ==> 1 <= r.value.0 <= 12 && 1 <= r.value.1 <= |s| && s[r.value.1 - 1] == '-'
  {
    if p + 2 < |s| && s[p] == '1' && '0' <= s[p + 1] <= '2' && s[p + 2] == '-' then
      Some((10 + DigitValue(s[p + 1]), p + 3))
    else if p + 2 < |s| && s[p] == '0' && '1' <= s[p + 1] <= '9' && s[p + 2] == '-' then
      Some((DigitValue(s[p + 1]), p + 3))
    else if p + 1 < |s| && '1' <= s[p] <= '9' && s[p + 1] == '-' then
      Some((DigitValue(s[p]), p + 2))
    else
      None
  }

  /** The %d pattern 3[01]|[12]\d|0[1-9]|[1-9]| [1-9] at p: the first alternative that matches
      gives the day and the position where the match ends. */
  function MatchDay(s: string, p: nat): (r: Option<(int, nat)>)
    ensures r.Some? ==> 1 <= r.value.0 <= 31 && p < r.value.1 <= |s|
  {
    if p + 1 < |s| && s[p] == '3' && (s[p + 1] == '0' || s[p + 1] == '1') then
      Some((30 + DigitValue(s[p + 1]), p + 2))
    else if p + 1 < |s| && (s[p] == '1' || s[p] == '2') && IsDigit(s[p + 1]) then
      Some((10 * DigitValue(s[p]) + DigitValue(s[p + 1]), p + 2))
    else if p + 1 < |s| && s[p] == '0' && '1' <= s[p + 1] <= '9' then
      Some((DigitValue(s[p + 1]), p + 2))
    else if p < |s| && '1' <= s[p] <= '9' then
      Some((DigitValue(s[p]), p + 1))
    else if p + 1 < |s| && s[p] == ' ' && '1' <= s[p + 1] <= '9' then
      Some((DigitValue(s[p + 1]), p + 2))
    else
      None
  }

  predicate FourDigitsDash(s: string) {
    |s| >= 5 && IsDigit(s[0]) && IsDigit(s[1]) && IsDigit(s[2]) && IsDigit(s[3]) && s[4] == '-'
  }

  function FourDigitValue(s: string): int
    requires |s| >= 4 && IsDigit(s[0]) && IsDigit(s[1]) && IsDigit(s[2]) && IsDigit(s[3])
  {
    1000 * DigitValue(s[0]) + 100 * DigitValue(s[1]) + 10 * DigitValue(s[2]) + DigitValue(s[3])
  }

  /** datetime.datetime.strptime(s, "%Y-%m-%d").date(); None where Python raises ValueError:
      the format's regex does not match at the start, it leaves "unconverted data" behind, or
      the numbers it read are not a calendar date. */
  function Strptime(s: string): (r: Option<Date>)
    ensures r.Some? ==> IsCalendarDate(r.value)
  {
    if !FourDigitsDash(s) then None
    else
      match MatchMonthDash(s, 5)
      case None => None
      case Some((m, q)) =>
        match MatchDay(s, q)
        case None => None
        case Some((d, e)) =>
          var date := Date(FourDigitValue(s), m, d);
          if e == |s| && IsCalendarDate(date) then Some(date) else None
  }

  /** The shape [0-9]{4}-[0-9]{2}-[0-9]{2} that the line patterns demand of a date. */
  predicate IsDateShaped(t: string) {
    |t| == 10 && IsDigit(t[0]) && IsDigit(t[1]) && IsDigit(t[2]) && IsDigit(t[3]) && t[4] == '-'
    && IsDigit(t[5]) && IsDigit(t[6]) && t[7] == '-' && IsDigit(t[8]) && IsDigit(t[9])
  }

  /** The numbers a date-shaped token spells, read digit by digit. */
  function TokenDate(t: string): Date
    requires IsDateShaped(t)
  {
    Date(FourDigitValue(t),
         10 * DigitValue(t[5]) + DigitValue(t[6]),
         10 * DigitValue(t[8]) + DigitValue(t[9]))
  }

  /** On a date-shaped token strptime is exactly the calendar check: it succeeds precisely when
      the digits spell a real date (so month 13, 30 February or year 0000 raise), and then
      returns that date. */
  lemma StrptimeOnDateToken(t: string)
    requires IsDateShaped(t)
    ensures Strptime(t).Some? <==> IsCalendarDate(TokenDate(t))
    ensures Strptime(t).Some? ==> Strptime(t).value == TokenDate(t)
  {
    var mm := MatchMonthDash(t, 5);
    var month := 10 * DigitValue(t[5]) + DigitValue(t[6]);
    if t[5] == '1' && '0' <= t[6] <= '2' {
      assert mm == Some((month, 8));
      DayOnToken(t);
    } else if t[5] == '0' && '1' <= t[6] <= '9' {
      assert mm == Some((month, 8));
      DayOnToken(t);
    } else {
      assert mm.None?;
      assert !(1 <= month <= 12);
    }
  }

  lemma DayOnToken(t: string)
    requires IsDateShaped(t)
    ensures var day := 10 * DigitValue(t[8]) + DigitValue(t[9]);
      if 1 <= day <= 31 then MatchDay(t, 8) == Some((day, 10))
      else MatchDay(t, 8).None? || MatchDay(t, 8).value.1 != 10
  {
  }

  // ---------------------------------------------------------------------------------------
  // Day numbers: what date subtraction in Python compares.

  /** Days before 1 January of year y in the proleptic Gregorian calendar. */
  function DaysBeforeYear(y: int): int
    requires y >= 1
  {
    var p := y - 1;
    p * 365 + p / 4 - p / 100 + p / 400
  }

  /** Days in year y before the first of month m (datetime's table plus the leap day). */
  function DaysBeforeMonth(y: int, m: int): int
    requires 1 <= m <= 12
  {
    [0, 0, 31, 59, 90, 120, 151, 181, 212, 243, 273, 304, 334][m] + (if m > 2 && IsLeap(y) then 1 else 0)
  }

  /** date.toordinal(): 1 January of year 1 is day 1. */
  function Ordinal(d: Date): int
    requires IsCalendarDate(d)
  {
    DaysBeforeYear(d.year) + DaysBeforeMonth(d.year, d.month) + d.day
  }

  /** The calendar's successor of a date. */
  function NextDay(d: Date): (r: Date)
    requires IsCalendarDate(d)
    ensures IsCalendarDate(r)
  {
    if d.day < DaysInMonth(d.year, d.month) then Date(d.year, d.month, d.day + 1)
    else if d.month < 12 then Date(d.year, d.month + 1, 1)
    else Date(d.year + 1, 1, 1)
  }

  /** The date n days after d. */
  function AddDays(d: Date, n: nat): (r: Date)
    requires IsCalendarDate(d)
    ensures IsCalendarDate(r)
    decreases n
  {
    if n == 0 then d else AddDays(NextDay(d), n - 1)
  }

  /** y / 4, y / 100 and y / 400 each step up by one exactly at the multiples. */
  lemma DivSteps(y: int)
    requires y >= 1
    ensures y / 4 - (y - 1) / 4 == if y % 4 == 0 then 1 else 0
    ensures y / 100 - (y - 1) / 100 == if y % 100 == 0 then 1 else 0
    ensures y / 400 - (y - 1) / 400 == if y % 400 == 0 then 1 else 0
  {
  }

  lemma MultipleFacts(y: int)
    ensures y % 400 == 0 ==> y % 100 == 0
    ensures y % 100 == 0 ==> y % 4 == 0
  {
    if y % 400 == 0 {
      var q := y / 400;
      assert y == 100 * (4 * q);
    }
    if y % 100 == 0 {
      var q := y / 100;
      assert y == 4 * (25 * q);
    }
  }

  lemma DaysInYear(y: int)
    requires y >= 1
    ensures DaysBeforeYear(y + 1) == DaysBeforeYear(y) + (if IsLeap(y) then 366 else 365)
  {
    DivSteps(y);
    MultipleFacts(y);
    var a := if y % 4 == 0 then 1 else 0;
    var b := if y % 100 == 0 then 1 else 0;
    var c := if y % 400 == 0 then 1 else 0;
    assert DaysBeforeYear(y + 1) - DaysBeforeYear(y) == 365 + a - b + c;
  }

  /** Day numbers count days: the successor of a date has the next day number. */
  lemma OrdinalNextDay(d: Date)
    requires IsCalendarDate(d)
    ensures Ordinal(NextDay(d)) == Ordinal(d) + 1
  {
    if d.day == DaysInMonth(d.year, d.month) && d.month == 12 {
      DaysInYear(d.year);
    }
  }

  /** So the day numbers of d and of the date n days later differ by exactly n. */
  lemma {:induction false} OrdinalAddDays(d: Date, n: nat)
    requires IsCalendarDate(d)
    ensures Ordinal(AddDays(d, n)) == Ordinal(d) + n
    decreases n
  {
    if n > 0 {
      OrdinalNextDay(d);
      OrdinalAddDays(NextDay(d), n - 1);
    }
  }
}
