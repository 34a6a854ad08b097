/**
 * Calendar arithmetic behind JavaScript's `new Date(year, monthIndex, day)` and
 * its `getFullYear`, `getMonth`, `getDate` and `getDay` readers, in the
 * proleptic Gregorian calendar with whole-day numbers (no time of day, no time
 * zone). Out-of-range months and days roll over into neighbouring months and
 * years, as the constructor does.
 */
module Gregorian {

  /** A calendar date; `month` is one-based (`getMonth() + 1`), `day` is `getDate()`. */
  datatype Date = Date(year: int, month: int, day: int)

  predicate IsLeapYear(y: int) {
    y % 4 == 0 && (y % 100 != 0 || y % 400 == 0)
  }

  function DaysInYear(y: int): int {
    if IsLeapYear(y) then 366 else 365
  }

  function DaysInMonth(y: int, m: int): (n: int)
    requires 1 <= m <= 12
    ensures 28 <= n <= 31
    ensures m == 2 ==> (n == 29 <==> IsLeapYear(y))
  {
    if m == 2 then (if IsLeapYear(y) then 29 else 28)
    else if m == 4 || m == 6 || m == 9 || m == 11 then 30
    else 31
  }

  predicate ValidDate(d: Date) {
    1 <= d.month <= 12 && 1 <= d.day <= DaysInMonth(d.year, d.month)
  }

  /** Days in the months of year `y` before month `m`. */
  function DaysBeforeMonth(y: int, m: int): int
    requires 1 <= m <= 12
  {
    [0, 31, 59, 90, 120, 151, 181, 212, 243, 273, 304, 334][m - 1] + (if m > 2 && IsLeapYear(y) then 1 else 0)
  }

  /** Days from 1 January of year 0 to 1 January of year `y` (negative before year 0). */
  function DaysBeforeYear(y: int): int {
    365 * y + (y + 3) / 4 - (y + 99) / 100 + (y + 399) / 400
  }

  /** The number of the day `d` in one continuous count; consecutive days get consecutive numbers. */
  function DayNumber(d: Date): int
    requires 1 <= d.month <= 12
  {
    DaysBeforeYear(d.year) + DaysBeforeMonth(d.year, d.month) + d.day - 1
  }

  lemma YearLength(y: int)
    ensures DaysBeforeYear(y + 1) == DaysBeforeYear(y) + DaysInYear(y)
  {
    CountStep4(y);
    CountStep100(y);
    CountStep400(y);
    LeapDivisors(y);
  }

  lemma CountStep4(y: int)
    ensures (y + 4) / 4 - (y + 3) / 4 == if y % 4 == 0 then 1 else 0
  {
    var q, r := y / 4, y % 4;
    assert y + 4 == 4 * (q + 1) + r;
    assert y + 3 == if r == 0 then 4 * q + 3 else 4 * (q + 1) + (r - 1);
  }

  lemma CountStep100(y: int)
    ensures (y + 100) / 100 - (y + 99) / 100 == if y % 100 == 0 then 1 else 0
  {
    var q, r := y / 100, y % 100;
    assert y + 100 == 100 * (q + 1) + r;
    assert y + 99 == if r == 0 then 100 * q + 99 else 100 * (q + 1) + (r - 1);
  }

  lemma CountStep400(y: int)
    ensures (y + 400) / 400 - (y + 399) / 400 == if y % 400 == 0 then 1 else 0
  {
    var q, r := y / 400, y % 400;
    assert y + 400 == 400 * (q + 1) + r;
    assert y + 399 == if r == 0 then 400 * q + 399 else 400 * (q + 1) + (r - 1);
  }

  lemma LeapDivisors(y: int)
    ensures y % 400 == 0 ==> y % 100 == 0
    ensures y % 100 == 0 ==> y % 4 == 0
  {
    var q400, q100, r100, q4, r4 := y / 400, y / 100, y % 100, y / 4, y % 4;
    assert y == 400 * q400 + y % 400 && y == 100 * q100 + r100 && y == 4 * q4 + r4;
    if y % 400 == 0 {
      assert r100 == 100 * (4 * q400 - q100);
    }
    if r100 == 0 {
      assert r4 == 4 * (25 * q100 - q4);
    }
  }

  lemma MonthLength(y: int, m: int)
    requires 1 <= m < 12
    ensures DaysBeforeMonth(y, m + 1) == DaysBeforeMonth(y, m) + DaysInMonth(y, m)
  {
  }

  /** The first of the month after `(y, m)` is `DaysInMonth(y, m)` days after the first of `(y, m)`. */
  lemma NextMonthStart(y: int, m: int)
    requires 1 <= m <= 12
    ensures var (ny, nm) := NextMonth(y, m);
      DayNumber(Date(ny, nm, 1)) == DayNumber(Date(y, m, 1)) + DaysInMonth(y, m)
  {
    if m == 12 {
      YearLength(y);
    } else {
      MonthLength(y, m);
    }
  }

  function NextMonth(y: int, m: int): (r: (int, int))
    requires 1 <= m <= 12
    ensures 1 <= r.1 <= 12
  {
    if m == 12 then (y + 1, 1) else (y, m + 1)
  }

  function PreviousMonth(y: int, m: int): (r: (int, int))
    requires 1 <= m <= 12
    ensures 1 <= r.1 <= 12 && NextMonth(r.0, r.1) == (y, m)
  {
    if m == 1 then (y - 1, 12) else (y, m - 1)
  }

  /**
   * Day `d` of month `(y, m)`, counted from the first of that month even when
   * `d` is not between 1 and the month's length: the rollover of `new Date`.
   */
  function Normalize(y: int, m: int, d: int): (r: Date)
    requires 1 <= m <= 12
    ensures ValidDate(r)
    decreases if d < 1 then 1 else 0, if d < 1 then -d else d
  {
    if d < 1 then
      var (py, pm) := PreviousMonth(y, m);
      Normalize(py, pm, d + DaysInMonth(py, pm))
    else if d > DaysInMonth(y, m) then
      var (ny, nm) := NextMonth(y, m);
      Normalize(ny, nm, d - DaysInMonth(y, m))
    else
      Date(y, m, d)
  }

  /** The rolled-over date is `d - 1` days after the first of month `(y, m)`. */
  lemma {:induction false} NormalizeDayNumber(y: int, m: int, d: int)
    requires 1 <= m <= 12
    ensures DayNumber(Normalize(y, m, d)) == DayNumber(Date(y, m, 1)) + d - 1
    decreases if d < 1 then 1 else 0, if d < 1 then -d else d
  {
    if d < 1 {
      var (py, pm) := PreviousMonth(y, m);
      NextMonthStart(py, pm);
      NormalizeDayNumber(py, pm, d + DaysInMonth(py, pm));
    } else if d > DaysInMonth(y, m) {
      var (ny, nm) := NextMonth(y, m);
      NextMonthStart(y, m);
      NormalizeDayNumber(ny, nm, d - DaysInMonth(y, m));
    }
  }

  /** `new Date(y, …)` reads a year from 0 to 99 as 1900 to 1999. */
  function FullYear(y: int): int {
    if 0 <= y <= 99 then 1900 + y else y
  }

  /**
   * `new Date(year, monthIndex, day)` with a zero-based month index: month and
   * day may be out of range and roll over into a valid date.
   */
  function MakeDate(year: int, monthIndex: int, day: int): (r: Date)
    ensures ValidDate(r)
  {
    Normalize(FullYear(year) + monthIndex / 12, monthIndex % 12 + 1, day)
  }

  /**
   * The date `new Date(year, monthIndex, day)` builds is `day - 1` days after the
   * first of month `monthIndex`, whole years carried out of the month index.
   */
  lemma MakeDateDayNumber(year: int, monthIndex: int, day: int)
    ensures DayNumber(MakeDate(year, monthIndex, day)) ==
      DayNumber(Date(FullYear(year) + monthIndex / 12, monthIndex % 12 + 1, 1)) + day - 1
  {
    NormalizeDayNumber(FullYear(year) + monthIndex / 12, monthIndex % 12 + 1, day);
  }

  /** `getDay()`: 0 is Sunday; day number 719528 (1 January 1970) is a Thursday. */
  function Weekday(d: Date): (w: int)
    requires 1 <= d.month <= 12
    ensures 0 <= w < 7
  {
    (DayNumber(d) - 719524) % 7
  }

  /** Valid dates are told apart by their day numbers: the day number pins the date down. */
  lemma DayNumberInjective(a: Date, b: Date)
    requires ValidDate(a) && ValidDate(b)
    requires DayNumber(a) == DayNumber(b)
    ensures a == b
  {
    SameYear(a, b);
    if a.month < b.month {
      MonthsIncrease(a.year, a.month + 1, b.month);
    } else if b.month < a.month {
      MonthsIncrease(a.year, b.month + 1, a.month);
    }
  }

  lemma SameYear(a: Date, b: Date)
    requires ValidDate(a) && ValidDate(b)
    requires DayNumber(a) == DayNumber(b)
    ensures a.year == b.year
  {
    YearBounds(a);
    YearBounds(b);
    if a.year < b.year {
      YearsIncrease(a.year + 1, b.year);
    } else if b.year < a.year {
      YearsIncrease(b.year + 1, a.year);
    }
  }

  /** A valid date's day number lies within its year. */
  lemma YearBounds(d: Date)
    requires ValidDate(d)
    ensures DaysBeforeYear(d.year) <= DayNumber(d) < DaysBeforeYear(d.year + 1)
  {
    YearLength(d.year);
  }

  lemma {:induction false} YearsIncrease(y: int, z: int)
    requires y <= z
    ensures DaysBeforeYear(y) <= DaysBeforeYear(z)
    decreases z - y
  {
    if y < z {
      YearLength(y);
      YearsIncrease(y + 1, z);
    }
  }

  lemma {:induction false} MonthsIncrease(y: int, m: int, n: int)
    requires 1 <= m <= n <= 12
    ensures DaysBeforeMonth(y, m) <= DaysBeforeMonth(y, n)
  {
  }

  /** In-range arguments need no rollover: `new Date(y, i, d)` is day `d` of month `i + 1` of year `y`. */
  lemma MakeDateInRange(year: int, monthIndex: int, day: int)
    requires year >= 100 && 0 <= monthIndex < 12 && 1 <= day <= DaysInMonth(year, monthIndex + 1)
    ensures MakeDate(year, monthIndex, day) == Date(year, monthIndex + 1, day)
  {
    assert monthIndex / 12 == 0 && monthIndex % 12 == monthIndex;
    assert FullYear(year) == year;
    MakeDateDayNumber(year, monthIndex, day);
    DayNumberInjective(MakeDate(year, monthIndex, day), Date(year, monthIndex + 1, day));
  }

  /** `new Date(y, m, 0).getDate()` is the length of month `m` (one-based), leap years included. */
  lemma LastDayOfMonth(year: int, month: int)
    requires 1 <= month <= 12
    ensures MakeDate(year, month, 0) == Date(FullYear(year), month, DaysInMonth(FullYear(year), month))
  {
    var y := FullYear(year);
    var last := Date(y, month, DaysInMonth(y, month));
    var (ny, nm) := NextMonth(y, month);
    assert (ny, nm) == (y + month / 12, month % 12 + 1);
    NextMonthStart(y, month);
    MakeDateDayNumber(year, month, 0);
    assert DayNumber(last) == DayNumber(Date(y, month, 1)) + DaysInMonth(y, month) - 1;
    DayNumberInjective(MakeDate(year, month, 0), last);
  }

  /** The first of a month needs no rollover: `new Date(y, i, 1)` is that day, in the full year. */
  lemma FirstOfMonth(year: int, monthIndex: int)
    requires 0 <= monthIndex < 12
    ensures MakeDate(year, monthIndex, 1) == Date(FullYear(year), monthIndex + 1, 1)
  {
    assert monthIndex / 12 == 0 && monthIndex % 12 == monthIndex;
    assert Normalize(FullYear(year), monthIndex + 1, 1) == Date(FullYear(year), monthIndex + 1, 1);
  }

  /** 1 January 1970 was a Thursday. */
  lemma EpochWeekday()
    ensures Weekday(Date(1970, 1, 1)) == 4
  {
    assert DaysBeforeYear(1970) == 719528;
  }

  /** The day after a valid date is one weekday later. */
  lemma WeekdayNextDay(d: Date)
    requires ValidDate(d)
    ensures Weekday(Normalize(d.year, d.month, d.day + 1)) == (Weekday(d) + 1) % 7
  {
    var next := Normalize(d.year, d.month, d.day + 1);
    NormalizeDayNumber(d.year, d.month, d.day + 1);
    var a := DayNumber(d) - 719524;
    assert DayNumber(next) - 719524 == a + 1;
    ModSeven(a);
  }

  lemma ModSeven(a: int)
    ensures (a + 1) % 7 == (a % 7 + 1) % 7
  {
    var q := a / 7;
    assert a == 7 * q + a % 7;
    if a % 7 == 6 {
      assert a + 1 == 7 * (q + 1);
    } else {
      assert a + 1 == 7 * q + (a % 7 + 1);
    }
  }
}
