/** The date object (sources/Base/Date.cpp) for times from 1970 on, at offset 0. */
module Dates {
  import opened Calendar

  /** The year whose days include this one, counted from 1970. */
  function YearOf(day: nat, from: nat := 1970): (year: nat)
    requires from >= 1970 && YearStart(from) <= day
    ensures year >= from && YearStart(year) <= day < YearStart(year) + DaysInYear(year)
    decreases day - YearStart(from)
  {
    if day < YearStart(from) + DaysInYear(from) then from else YearOf(day, from + 1)
  }

  /** One pass of the search of the year: from a year after 1970 to the next one. */
  function Pass(days: nat, y: nat): int {
    (days + y - LeapYears(1970 + y)) / 366
  }

  lemma {:induction false} PassMonotone(days: nat, a: nat, b: nat)
    requires a <= b
    ensures Pass(days, a) <= Pass(days, b)
  {
    if a < b {
      PassMonotone(days, a, b - 1);
      LeapYearsStep(1970 + b);
    }
  }

  /** The true year stays where it is, and no earlier year does. */
  lemma PassFixed(day: nat, y: nat)
    ensures var t := YearOf(day) - 1970;
      Pass(day + 1, t) == t && (y < t ==> Pass(day + 1, y) != y)
  {
    hide LeapYears, IsLeapYear, YearStart;
    Epoch();
    var t := YearOf(day) - 1970;
    LeapYearsCount(1970 + t);
    LeapYearsStep(1970 + t);
    LeapDay(1970 + t);
    Remainder(t, day + 1 - 365 * t - LeapYears(1970 + t));
    if y < t && Pass(day + 1, y) == y {
      LeapYearsCount(1970 + y + 1);
      if y + 1 < t { YearStartsIncrease(1970 + y + 1, 1970 + t); }
    }
  }

  /** The loop that searches the year. Every pass moves strictly towards it and never past it. */
  method FindYear(day: nat) returns (days: int, year: nat)
    ensures 1970 + year == YearOf(day)
    ensures days == day + 1 + year - LeapYears(1970 + year)
  {
    hide IsLeapYear, YearOf, LeapYears, YearStart;
    Epoch();
    ghost var t := YearOf(day) - 1970;
    days := day + 1;
    year := 0;
    var delta := 0;
    var next := days / 366;
    PassFixed(day, 0);
    PassMonotone(day + 1, 0, t);
    while next != year
      invariant year <= next <= t && next == Pass(day + 1, year)
      invariant delta == year - LeapYears(1970 + year) && days == day + 1 + delta
      decreases t - year
    {
      PassMonotone(day + 1, year, next);
      PassMonotone(day + 1, next, t);
      days := days - delta;
      delta := next - LeapYears(next + 1970);
      days := days + delta;
      year := next;
      next := days / 366;
    }
    PassFixed(day, year);
  }

  /** The month and the day in it of a day of the year, the first being 1. */
  method FindMonth(leap: bool, yearDay: nat) returns (month: nat, day: nat)
    requires 1 <= yearDay <= if leap then 366 else 365
    ensures 1 <= month <= 12 && 1 <= day <= DaysInMonth(leap, month)
    ensures MonthStart(leap, month) + day == yearDay
  {
    YearHasItsDays(leap);
    month := 1;
    var count := 0;
    while month < 12 && yearDay > MonthDays[if leap then 1 else 0][month]
      invariant 1 <= month <= 12 && count == MonthStart(leap, month) < yearDay
    {
      MonthDaysExact(leap, month + 1);
      count := MonthDays[if leap then 1 else 0][month];
      month := month + 1;
    }
    if month < 12 { MonthDaysExact(leap, month + 1); }
    day := yearDay - count;
  }

  class DateObject {
    var year: nat
    var month: nat
    var day: nat
    var weekDay: nat
    var clock: Clock
    /** Whether the fields changed since the time was computed. */
    var changed: bool
    var stored: int

    function Value(): Calendar.Date
      reads this
    {
      Calendar.Date(year, month, day)
    }

    constructor (d: Calendar.Date, c: Clock)
      requires ValidDate(d) && ValidClock(c)
      ensures Value() == d && clock == c && changed
    {
      year, month, day, clock := d.year, d.month, d.day, c;
      weekDay, changed, stored := 7, true, 0;
    }

    /** The fields of a time, in milliseconds since 1970. */
    method Update(time: nat)
      modifies this
      ensures ValidDate(Value()) && ValidClock(clock) && TimeOf(Value(), clock) == time
      ensures weekDay == (4 + DayNumber(Value())) % 7
      ensures !changed && stored == time
    {
      stored, changed := time, false;
      var today := time / DAY;
      weekDay := (today + 4) % 7;
      SetDate(today);
      SetClock(time % DAY);
    }

    method SetDate(today: nat)
      modifies this`year, this`month, this`day
      ensures ValidDate(Value()) && DayNumber(Value()) == today
    {
      hide LeapYears, YearStart, IsLeapYear, MonthStart;
      var days, y := FindYear(today);
      DayOfYear(today, y, IsLeapYear(1970 + y));
      days := days % 366;
      year := 1970 + y;
      var isLeap := IsLeapYear(year);
      if isLeap { days := days + 1; }
      LeapDay(year);
      month, day := FindMonth(isLeap, days);
    }

    method SetClock(time: nat)
      requires time < DAY
      modifies this`clock
      ensures ValidClock(clock) && ClockTime(clock) == time
    {
      var hour, left := time / 3600000, time % 3600000;
      var minute, rest := left / 60000, left % 60000;
      clock := Clock(hour, minute, rest / 1000, rest % 1000);
    }

    /** The time of the fields, computed again after a change; the formula is the one the object
        uses, with its 32-bit product. */
    method Time() returns (time: int)
      requires ValidDate(Value()) && ValidClock(clock)
      modifies this
      ensures Value() == old(Value()) && clock == old(clock) && !changed && stored == time
      ensures !old(changed) ==> time == old(stored)
      ensures old(changed) && year <= LAST_YEAR ==> time == TimeOf(Value(), clock)
      ensures old(changed) && year > LAST_YEAR ==> time != TimeOf(Value(), clock)
    {
      if !changed { return stored; }
      FormulaExact(Value(), clock);
      time := day - 1 + LeapYears(year);
      var isLeap := IsLeapYear(year);
      if isLeap { time := time - 1; }
      time := time + MonthDays[if isLeap then 1 else 0][month - 1];
      time := time + Wrap32((year - 1970) * 365);
      time := time * DAY + ClockTime(clock);
      changed, weekDay, stored := false, 7, time;
    }
  }

  /** What the search leaves is the day of the year: counted from 1, or from 0 in a leap year. */
  lemma DayOfYear(today: nat, y: nat, leap: bool)
    requires 1970 + y == YearOf(today) && leap == IsLeapYear(1970 + y)
    ensures var days := today + 1 + y - LeapYears(1970 + y);
      days % 366 + (if leap then 1 else 0) == today + 1 - YearStart(1970 + y)
  {
    hide LeapYears, IsLeapYear, YearStart;
    LeapYearsCount(1970 + y);
    LeapYearsStep(1970 + y);
    var r := today + 1 - 365 * y - LeapYears(1970 + y);
    assert 0 <= r < 366 by { LeapDay(1970 + y); }
    Remainder(y, r);
  }

  lemma Epoch()
    ensures YearStart(1970) == 0 && LeapYears(1970) == 0
  {
  }

  lemma LeapDay(year: nat)
    ensures DaysInYear(year) == if IsLeapYear(year) then 366 else 365
  {
  }

  lemma Remainder(q: nat, r: nat)
    requires r < 366
    ensures (366 * q + r) % 366 == r && (366 * q + r) / 366 == q
  {
  }

  /** Every valid date from 1970 to the last countable year is the date of its own time. */
  lemma DateOfTime(d: Calendar.Date, c: Clock, e: Calendar.Date, f: Clock)
    requires ValidDate(d) && ValidClock(c) && ValidDate(e) && ValidClock(f)
    requires TimeOf(d, c) == TimeOf(e, f)
    ensures d == e && c == f
  {
    assert DayNumber(d) == DayNumber(e) && ClockTime(c) == ClockTime(f) by { SameDay(d, c, e, f); }
    DayNumberInjective(d, e);
  }

  lemma SameDay(d: Calendar.Date, c: Clock, e: Calendar.Date, f: Clock)
    requires ValidDate(d) && ValidClock(c) && ValidDate(e) && ValidClock(f) && TimeOf(d, c) == TimeOf(e, f)
    ensures DayNumber(d) == DayNumber(e) && ClockTime(c) == ClockTime(f)
  {
    hide DayNumber;
    assert ClockTime(c) < DAY && ClockTime(f) < DAY;
  }
}
