/** The Gregorian calendar from 1970 on: days counted year by year and month by month, and the
    closed forms that sources/Base/Date.cpp uses instead. */
module Calendar {

  predicate IsLeapYear(year: nat) {
    year % 4 == 0 && (year % 100 != 0 || year % 400 == 0)
  }

  function DaysInYear(year: nat): nat {
    if IsLeapYear(year) then 366 else 365
  }

  function DaysInMonth(leap: bool, month: nat): nat
    requires 1 <= month <= 12
  {
    if month == 2 then (if leap then 29 else 28)
    else if month == 4 || month == 6 || month == 9 || month == 11 then 30
    else 31
  }

  /** The days before the year, since 1 January 1970. */
  function YearStart(year: nat): nat
    requires year >= 1970
  {
    if year == 1970 then 0 else YearStart(year - 1) + DaysInYear(year - 1)
  }

  /** The days before the month in its year. */
  function MonthStart(leap: bool, month: nat): nat
    requires 1 <= month <= 13
  {
    if month == 1 then 0 else MonthStart(leap, month - 1) + DaysInMonth(leap, month - 1)
  }

  datatype Date = Date(year: nat, month: nat, day: nat)

  predicate ValidDate(d: Date) {
    d.year >= 1970 && 1 <= d.month <= 12 && 1 <= d.day <= DaysInMonth(IsLeapYear(d.year), d.month)
  }

  /** The number of days since 1 January 1970. */
  function DayNumber(d: Date): nat
    requires ValidDate(d)
  {
    YearStart(d.year) + MonthStart(IsLeapYear(d.year), d.month) + d.day - 1
  }

  datatype Clock = Clock(hour: nat, minute: nat, second: nat, millisecond: nat)

  predicate ValidClock(c: Clock) {
    c.hour < 24 && c.minute < 60 && c.second < 60 && c.millisecond < 1000
  }

  function ClockTime(c: Clock): nat {
    c.hour * 3600000 + c.minute * 60000 + c.second * 1000 + c.millisecond
  }

  const DAY := 86400000

  /** The milliseconds since 1 January 1970. */
  function TimeOf(d: Date, c: Clock): nat
    requires ValidDate(d)
  {
    DayNumber(d) * DAY + ClockTime(c)
  }

  // ---- Uniqueness --------------------------------------------------------------------------

  lemma {:induction false} YearStartsIncrease(a: nat, b: nat)
    requires 1970 <= a < b
    ensures YearStart(a) + DaysInYear(a) <= YearStart(b)
  {
    if a < b - 1 { YearStartsIncrease(a, b - 1); }
  }

  lemma {:induction false} MonthStartsIncrease(leap: bool, a: nat, b: nat)
    requires 1 <= a < b <= 13
    ensures MonthStart(leap, a) + DaysInMonth(leap, a) <= MonthStart(leap, b)
  {
    if a < b - 1 { MonthStartsIncrease(leap, a, b - 1); }
  }

  /** The days before each month, as the library tabulates them. */
  const MonthDays: seq<seq<nat>> := [
    [0, 31, 59, 90, 120, 151, 181, 212, 243, 273, 304, 334],
    [0, 31, 60, 91, 121, 152, 182, 213, 244, 274, 305, 335]]

  lemma {:induction false} MonthDaysExact(leap: bool, month: nat)
    requires 1 <= month <= 12
    ensures MonthDays[if leap then 1 else 0][month - 1] == MonthStart(leap, month)
  {
    if month > 1 { MonthDaysExact(leap, month - 1); }
  }

  lemma YearHasItsDays(leap: bool)
    ensures MonthStart(leap, 13) == if leap then 366 else 365
  {
    MonthDaysExact(leap, 12);
  }

  lemma DayInYear(d: Date)
    requires ValidDate(d)
    ensures YearStart(d.year) <= DayNumber(d) < YearStart(d.year) + DaysInYear(d.year)
  {
    var leap := IsLeapYear(d.year);
    YearHasItsDays(leap);
    if d.month < 12 {
      MonthStartsIncrease(leap, d.month, 13);
    }
  }

  /** Two valid dates with the same day number are the same date. */
  lemma DayNumberInjective(a: Date, b: Date)
    requires ValidDate(a) && ValidDate(b) && DayNumber(a) == DayNumber(b)
    ensures a == b
  {
    DayInYear(a);
    DayInYear(b);
    if a.year < b.year { YearStartsIncrease(a.year, b.year); }
    if b.year < a.year { YearStartsIncrease(b.year, a.year); }
    var leap := IsLeapYear(a.year);
    if a.month < b.month { MonthStartsIncrease(leap, a.month, b.month); }
    if b.month < a.month { MonthStartsIncrease(leap, b.month, a.month); }
  }

  // ---- The closed form of the leap years ---------------------------------------------------

  /** The leap years after 1970, up to this one. */
  function LeapYears(year: nat): int {
    year / 4 - year / 100 + year / 400 - 477 - (if year == 0 then 1 else 0)
  }

  lemma LeapYearsStep(year: nat)
    requires year >= 2
    ensures LeapYears(year) == LeapYears(year - 1) + if IsLeapYear(year) then 1 else 0
  {
    QuotientSteps(year);
    MultiplesOfHundred(year);
  }

  lemma QuotientSteps(n: nat)
    requires n >= 1
    ensures n / 4 == (n - 1) / 4 + (if n % 4 == 0 then 1 else 0)
    ensures n / 100 == (n - 1) / 100 + (if n % 100 == 0 then 1 else 0)
    ensures n / 400 == (n - 1) / 400 + (if n % 400 == 0 then 1 else 0)
  {
  }

  lemma MultiplesOfHundred(n: nat)
    ensures n % 100 == 0 ==> n % 4 == 0
    ensures n % 400 == 0 ==> n % 100 == 0
  {
    var q, r := n / 400, n / 100;
    assert n % 100 == 0 ==> n == 4 * (25 * r);
    assert n % 400 == 0 ==> n == 100 * (4 * q);
  }

  lemma {:induction false} LeapYearsCount(year: nat)
    requires year >= 1970
    ensures YearStart(year) == (year - 1970) * 365 + LeapYears(year - 1)
    ensures 0 <= LeapYears(year) <= year - 1970
  {
    if year > 1970 {
      LeapYearsCount(year - 1);
      LeapYearsStep(year - 1);
      LeapYearsStep(year);
    }
  }

  // ---- Back to a time ----------------------------------------------------------------------

  const INT32_LIMIT := 0x8000_0000

  /** A product as 32-bit arithmetic wraps it. */
  function Wrap32(v: int): int {
    (v + INT32_LIMIT) % 0x1_0000_0000 - INT32_LIMIT
  }

  /** The formula of Date::time, whose product of the years is a 32-bit one. */
  function FormulaTime(d: Date, c: Clock): int
    requires ValidDate(d)
  {
    var days := d.day - 1 + LeapYears(d.year) - (if IsLeapYear(d.year) then 1 else 0)
      + MonthDays[if IsLeapYear(d.year) then 1 else 0][d.month - 1] + Wrap32((d.year - 1970) * 365);
    days * DAY + ClockTime(c)
  }

  /** The last year whose days a 32-bit product can count. */
  const LAST_YEAR := 5885486

  lemma WrapsPast(year: nat)
    requires year >= 1970
    ensures Wrap32((year - 1970) * 365) == (year - 1970) * 365 <==> year <= LAST_YEAR
  {
    if year <= LAST_YEAR {
      assert (year - 1970) * 365 < INT32_LIMIT;
    } else {
      assert (year - 1970) * 365 >= INT32_LIMIT;
    }
  }

  /** The formula gives the time of every valid date up to that year, and of no later one. */
  lemma FormulaExact(d: Date, c: Clock)
    requires ValidDate(d)
    ensures FormulaTime(d, c) == TimeOf(d, c) <==> d.year <= LAST_YEAR
  {
    var leap := IsLeapYear(d.year);
    MonthDaysExact(leap, d.month);
    LeapYearsCount(d.year);
    LeapYearsStep(d.year);
    WrapsPast(d.year);
    var exact := DayNumber(d);
    var formula := exact + Wrap32((d.year - 1970) * 365) - (d.year - 1970) * 365;
    assert FormulaTime(d, c) == formula * DAY + ClockTime(c);
    assert formula != exact ==> formula * DAY != exact * DAY;
  }

  /** A later date for which it fails: 1 January 5885487. */
  lemma FormulaFails()
    ensures var d := Date(LAST_YEAR + 1, 1, 1); FormulaTime(d, Clock(0, 0, 0, 0)) != TimeOf(d, Clock(0, 0, 0, 0))
  {
    FormulaExact(Date(LAST_YEAR + 1, 1, 1), Clock(0, 0, 0, 0));
  }
}
