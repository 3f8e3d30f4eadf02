/** Clock arithmetic: the epoch of a date (kernel/arch/x86_64/cmos.c) and the shift of a date by a
    time zone (kernel/core/applets.c). */
module Calendar {

  datatype Time = Time(year: int, month: int, day: int, hour: int, minute: int, second: int)

  predicate LeapYear(year: int) {
    (year % 4 == 0 && year % 100 != 0) || year % 400 == 0
  }

  const DAYS: seq<int> := [31, 28, 31, 30, 31, 30, 31, 31, 30, 31, 30, 31]

  function MonthDays(year: int, month: int): (d: int)
    requires 1 <= month <= 12
    ensures 28 <= d <= 31
  {
    if month == 2 && LeapYear(year) then 29 else DAYS[month - 1]
  }

  predicate ValidDate(t: Time) {
    1 <= t.month <= 12 && 1 <= t.day <= MonthDays(t.year, t.month)
  }

  predicate Valid(t: Time) {
    ValidDate(t) && 0 <= t.hour < 24 && 0 <= t.minute < 60
  }

  function YearDays(year: int): int {
    if LeapYear(year) then 366 else 365
  }

  // ---------------------------------------------------------------- counting days

  /** Days from the first of January 1970 to that of `year`, negative before. */
  function YearStart(year: int): int
    decreases if year >= 1970 then year - 1970 else 1970 - year
  {
    if year == 1970 then 0
    else if year > 1970 then YearStart(year - 1) + YearDays(year - 1)
    else YearStart(year + 1) - YearDays(year)
  }

  /** Days of the year before the first of `month`. */
  function MonthStart(year: int, month: int): int
    requires 1 <= month <= 13
  {
    if month == 1 then 0 else MonthStart(year, month - 1) + MonthDays(year, month - 1)
  }

  /** The number of the day, counted from the first of January 1970. */
  function DayNumber(t: Time): int
    requires 1 <= t.month <= 12
  {
    YearStart(t.year) + MonthStart(t.year, t.month) + t.day - 1
  }

  /** The minute, counted from the start of 1970. */
  function Minutes(t: Time): int
    requires 1 <= t.month <= 12
  {
    DayNumber(t) * 1440 + t.hour * 60 + t.minute
  }

  /** How many leap days there were before `year`, counted from the year 0. */
  function LeapDays(year: int): int {
    (year - 1) / 4 - (year - 1) / 100 + (year - 1) / 400
  }

  /** A year has 366 days exactly if it is divisible by 4 but not by 100, or by 400. */
  lemma YearLength(year: int)
    ensures YearStart(year + 1) - YearStart(year) ==
      if year % 400 == 0 || (year % 4 == 0 && year % 100 != 0) then 366 else 365
  {
  }

  /** The first day of a year in closed form, for all years. */
  lemma {:induction false} YearStartIs(year: int)
    ensures YearStart(year) == 365 * (year - 1970) + LeapDays(year) - 477
    decreases if year >= 1970 then year - 1970 else 1970 - year
  {
    if year > 1970 {
      YearStartIs(year - 1);
      OneLeapDay(year - 1);
      YearLength(year - 1);
    } else if year < 1970 {
      YearStartIs(year + 1);
      OneLeapDay(year);
      YearLength(year);
    }
  }

  lemma OneLeapDay(year: int)
    ensures LeapDays(year + 1) - LeapDays(year) == if year % 400 == 0 || (year % 4 == 0 && year % 100 != 0) then 1 else 0
  {
    var q4, q100, q400 := Quotient(year, 4), Quotient(year, 100), Quotient(year, 400);
    Multiples(year, 4);
    Multiples(year, 100);
    Multiples(year, 400);
    Divisors(year);
    hide Quotient;
    assert LeapDays(year + 1) == q4 - q100 + q400 by { QuotientsOf(year + 1); }
    assert LeapDays(year) == Quotient(year - 1, 4) - Quotient(year - 1, 100) + Quotient(year - 1, 400) by { QuotientsOf(year); }
  }

  function Quotient(x: int, n: int): int
    requires n > 0
  {
    x / n
  }

  lemma QuotientsOf(year: int)
    ensures LeapDays(year) == Quotient(year - 1, 4) - Quotient(year - 1, 100) + Quotient(year - 1, 400)
  {
  }

  lemma Divisors(year: int)
    ensures year % 400 == 0 ==> year % 100 == 0
    ensures year % 100 == 0 ==> year % 4 == 0
  {
  }

  lemma Multiples(year: int, n: int)
    requires n in {4, 100, 400}
    ensures Quotient(year, n) - Quotient(year - 1, n) == if year % n == 0 then 1 else 0
  {
  }

  /** The first day of each month in closed form. */
  lemma MonthStartIs(year: int, month: int)
    requires 1 <= month <= 12
    ensures MonthStart(year, month) ==
      [0, 31, 59, 90, 120, 151, 181, 212, 243, 273, 304, 334][month - 1]
      + if month > 2 && (year % 400 == 0 || (year % 4 == 0 && year % 100 != 0)) then 1 else 0
  {
    if month > 1 {
      MonthStartIs(year, month - 1);
    }
  }

  /** The number of a day in closed form. */
  lemma DayNumberIs(t: Time)
    requires 1 <= t.month <= 12
    ensures DayNumber(t) == 365 * (t.year - 1970) + (t.year - 1) / 4 - (t.year - 1) / 100 + (t.year - 1) / 400 - 477
      + [0, 31, 59, 90, 120, 151, 181, 212, 243, 273, 304, 334][t.month - 1]
      + (if t.month > 2 && (t.year % 400 == 0 || (t.year % 4 == 0 && t.year % 100 != 0)) then 1 else 0)
      + t.day - 1
  {
    hide YearStart, MonthStart;
    YearStartIs(t.year);
    MonthStartIs(t.year, t.month);
  }

  lemma YearStep(year: int)
    ensures YearStart(year + 1) == YearStart(year) + YearDays(year)
  {
  }

  lemma WholeYear(year: int)
    ensures MonthStart(year, 13) == YearDays(year)
  {
    assert MonthStart(year, 2) == MonthStart(year, 1) + MonthDays(year, 1);
    assert MonthStart(year, 3) == MonthStart(year, 2) + MonthDays(year, 2);
    assert MonthStart(year, 4) == MonthStart(year, 3) + MonthDays(year, 3);
    assert MonthStart(year, 5) == MonthStart(year, 4) + MonthDays(year, 4);
    assert MonthStart(year, 6) == MonthStart(year, 5) + MonthDays(year, 5);
    assert MonthStart(year, 7) == MonthStart(year, 6) + MonthDays(year, 6);
    assert MonthStart(year, 8) == MonthStart(year, 7) + MonthDays(year, 7);
    assert MonthStart(year, 9) == MonthStart(year, 8) + MonthDays(year, 8);
    assert MonthStart(year, 10) == MonthStart(year, 9) + MonthDays(year, 9);
    assert MonthStart(year, 11) == MonthStart(year, 10) + MonthDays(year, 10);
    assert MonthStart(year, 12) == MonthStart(year, 11) + MonthDays(year, 11);
    assert MonthStart(year, 13) == MonthStart(year, 12) + MonthDays(year, 12);
  }

  lemma {:induction false} MonthsGrow(year: int, m: int, n: int)
    requires 1 <= m <= n <= 13
    ensures MonthStart(year, m) <= MonthStart(year, n)
    ensures m < n ==> MonthStart(year, m) + MonthDays(year, m) <= MonthStart(year, n)
    decreases n - m
  {
    if m < n - 1 {
      MonthsGrow(year, m, n - 1);
    }
  }

  lemma {:induction false} YearsGrow(y: int, z: int)
    requires y <= z
    ensures YearStart(y) <= YearStart(z)
    ensures y < z ==> YearStart(y) + YearDays(y) <= YearStart(z)
    decreases z - y
  {
    if y < z {
      YearStep(z - 1);
      YearsGrow(y, z - 1);
    }
  }

  /** Every valid date falls within its year. */
  lemma WithinYear(t: Time)
    requires ValidDate(t)
    ensures YearStart(t.year) <= DayNumber(t) < YearStart(t.year) + YearDays(t.year)
  {
    MonthsGrow(t.year, 1, t.month);
    MonthsGrow(t.year, t.month, 13);
    WholeYear(t.year);
  }

  /** No two valid dates are the same day. */
  lemma DatesDiffer(t: Time, u: Time)
    requires ValidDate(t) && ValidDate(u) && DayNumber(t) == DayNumber(u)
    ensures t.year == u.year && t.month == u.month && t.day == u.day
  {
    hide MonthStart, YearStart, MonthDays, YearDays;
    WithinYear(t);
    WithinYear(u);
    if t.year < u.year {
      YearsGrow(t.year, u.year);
    } else if u.year < t.year {
      YearsGrow(u.year, t.year);
    } else if t.month < u.month {
      MonthsGrow(t.year, t.month, u.month);
    } else if u.month < t.month {
      MonthsGrow(t.year, u.month, t.month);
    }
  }

  // ---------------------------------------------------------------- the epoch

  method RtcToEpoch(t: Time) returns (epoch: int)
    requires ValidDate(t)
    ensures t.year >= 1970 ==> epoch == Minutes(t) * 60 + t.second
  {
    var days := 0;
    var y := 1970;
    while y < t.year
      invariant t.year >= 1970 ==> y <= t.year && days == YearStart(y)
    {
      YearStep(y);
      days := days + if LeapYear(y) then 366 else 365;
      y := y + 1;
    }
    var m := 1;
    while m < t.month
      invariant 1 <= m <= t.month
      invariant t.year >= 1970 ==> days == YearStart(t.year) + MonthStart(t.year, m)
    {
      days := days + MonthDays(t.year, m);
      m := m + 1;
    }
    days := days + (t.day - 1);
    epoch := days * 86400 + t.hour * 3600 + t.minute * 60 + t.second;
  }

  // ---------------------------------------------------------------- time zones

  class Clock {
    var t: Time

    constructor (time: Time)
      ensures t == time
    {
      t := time;
    }

    /** One day back. */
    method PreviousDay()
      requires ValidDate(t)
      modifies this
      ensures ValidDate(t) && DayNumber(t) == old(DayNumber(t)) - 1
      ensures t.hour == old(t.hour) && t.minute == old(t.minute) && t.second == old(t.second)
    {
      t := t.(day := t.day - 1);
      if t.day < 1 {
        t := t.(month := t.month - 1);
        if t.month < 1 {
          WholeYear(t.year - 1);
          YearStep(t.year - 1);
          t := t.(month := 12, year := t.year - 1);
        }
        t := t.(day := MonthDays(t.year, t.month));
      }
    }

    /** One day on. */
    method NextDay()
      requires ValidDate(t)
      modifies this
      ensures ValidDate(t) && DayNumber(t) == old(DayNumber(t)) + 1
      ensures t.hour == old(t.hour) && t.minute == old(t.minute) && t.second == old(t.second)
    {
      t := t.(day := t.day + 1);
      if t.day > MonthDays(t.year, t.month) {
        t := t.(day := 1, month := t.month + 1);
        if t.month > 12 {
          WholeYear(t.year);
          YearStep(t.year);
          t := t.(month := 1, year := t.year + 1);
        }
      }
    }

    /** Shift by so many minutes: the result is the valid time that many minutes away. */
    method ApplyTimezone(offset: int)
      requires Valid(t)
      modifies this
      ensures Valid(t) && Minutes(t) == old(Minutes(t)) + offset && t.second == old(t.second)
    {
      var total := t.hour * 60 + t.minute + offset;
      while total < 0
        invariant ValidDate(t) && t.second == old(t.second) && DayNumber(t) * 1440 + total == old(Minutes(t)) + offset
        decreases -total
      {
        total := total + 1440;
        PreviousDay();
      }
      while total >= 1440
        invariant 0 <= total
        invariant ValidDate(t) && t.second == old(t.second) && DayNumber(t) * 1440 + total == old(Minutes(t)) + offset
      {
        total := total - 1440;
        NextDay();
      }
      t := t.(hour := total / 60, minute := total % 60);
    }
  }

  /** Valid times are determined by their minute and second. */
  lemma TimesDiffer(t: Time, u: Time)
    requires Valid(t) && Valid(u) && Minutes(t) == Minutes(u) && t.second == u.second
    ensures t == u
  {
    hide DayNumber, MonthDays;
    assert DayNumber(t) == DayNumber(u);
    DatesDiffer(t, u);
  }

  /** The epoch of a shifted date is the epoch shifted, and shifting back restores the date. */
  method ShiftAndBack(time: Time, offset: int) returns (before: int, after: int, back: Time)
    requires Valid(time) && time.year >= 1970 && Minutes(time) + offset >= 0
    ensures after == before + 60 * offset
    ensures back == time
  {
    hide DayNumber, Minutes;
    before := RtcToEpoch(time);
    var clock := new Clock(time);
    clock.ApplyTimezone(offset);
    AfterStart(clock.t);
    after := RtcToEpoch(clock.t);
    clock.ApplyTimezone(-offset);
    back := clock.t;
    TimesDiffer(back, time);
  }

  /** A date that is not before the start of 1970 has such a year. */
  lemma AfterStart(t: Time)
    requires Valid(t)
    ensures Minutes(t) >= 0 <==> t.year >= 1970
  {
    hide MonthStart, MonthDays;
    WithinYear(t);
    if t.year < 1970 {
      YearsGrow(t.year, 1970);
    } else {
      YearsGrow(1970, t.year);
    }
  }
}
