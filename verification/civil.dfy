/**
  The proleptic Gregorian calendar on day numbers.

  A date is an integer counting days from 1970-01-01 (day 0), which is how a
  JavaScript `Date` built with `Date.UTC` at midnight behaves once the
  milliseconds are divided out. This module converts between day numbers and
  (year, month, day) triples and models the normalisation that `Date.UTC` and
  `setMonth` apply to out-of-range months and days (ECMAScript `MakeDay`).
 */
module Civil {

  predicate IsLeap(y: int) {
    y % 4 == 0 && (y % 100 != 0 || y % 400 == 0)
  }

  function DaysInYear(y: int): int {
    if IsLeap(y) then 366 else 365
  }

  function DaysInMonth(y: int, m: int): (n: int)
    ensures 28 <= n <= 31
  {
    if m == 2 then (if IsLeap(y) then 29 else 28)
    else if m == 4 || m == 6 || m == 9 || m == 11 then 30
    else 31
  }

  /** Days of year `y` before the first of month `m` (1..12); month 13 stands for the next January. */
  function DaysBeforeMonth(y: int, m: int): int {
    var common :=
      if m == 1 then 0 else if m == 2 then 31 else if m == 3 then 59
      else if m == 4 then 90 else if m == 5 then 120 else if m == 6 then 151
      else if m == 7 then 181 else if m == 8 then 212 else if m == 9 then 243
      else if m == 10 then 273 else if m == 11 then 304 else if m == 12 then 334
      else 365;
    common + (if m > 2 && IsLeap(y) then 1 else 0)
  }

  lemma DaysBeforeNextMonth(y: int, m: int)
    requires 1 <= m <= 12
    ensures DaysBeforeMonth(y, m + 1) == DaysBeforeMonth(y, m) + DaysInMonth(y, m)
    ensures DaysBeforeMonth(y, 13) == DaysInYear(y)
  {
  }

  /** Day number of 1 January of year `y`. */
  function YearStart(y: int): int
    decreases if y >= 1970 then y - 1970 else 1970 - y
  {
    if y == 1970 then 0
    else if y > 1970 then YearStart(y - 1) + DaysInYear(y - 1)
    else YearStart(y + 1) - DaysInYear(y)
  }

  lemma YearStartStep(y: int)
    ensures YearStart(y + 1) == YearStart(y) + DaysInYear(y)
  {
  }

  lemma {:induction false} YearStartStrictlyIncreasing(a: int, b: int)
    requires a < b
    ensures YearStart(a) + 365 * (b - a) <= YearStart(b)
    decreases b - a
  {
    YearStartStep(b - 1);
    if a < b - 1 {
      YearStartStrictlyIncreasing(a, b - 1);
    }
  }

  datatype Date = Date(year: int, month: int, day: int)

  predicate Valid(c: Date) {
    1 <= c.month <= 12 && 1 <= c.day <= DaysInMonth(c.year, c.month)
  }

  /** Day number of `d` in month `m` of year `y`; a day outside the month spills over. */
  function DaysFromCivil(y: int, m: int, d: int): int {
    YearStart(y) + DaysBeforeMonth(y, m) + d - 1
  }

  function ToDays(c: Date): int {
    DaysFromCivil(c.year, c.month, c.day)
  }

  /** The year containing day `n`. */
  function YearOf(n: int): (y: int)
    ensures YearStart(y) <= n < YearStart(y + 1)
  {
    if n >= 0 then YearFrom(n, 1970) else YearBackFrom(n, 1969)
  }

  function YearFrom(n: int, y: int): (r: int)
    requires YearStart(y) <= n
    ensures YearStart(r) <= n < YearStart(r + 1)
    decreases n - YearStart(y)
  {
    YearStartStep(y);
    if n < YearStart(y + 1) then y else YearFrom(n, y + 1)
  }

  function YearBackFrom(n: int, y: int): (r: int)
    requires n < YearStart(y + 1)
    ensures YearStart(r) <= n < YearStart(r + 1)
    decreases YearStart(y + 1) - n
  {
    YearStartStep(y);
    if YearStart(y) <= n then y else YearBackFrom(n, y - 1)
  }

  lemma YearOfUnique(n: int, y: int)
    requires YearStart(y) <= n < YearStart(y + 1)
    ensures YearOf(n) == y
  {
    var r := YearOf(n);
    if r < y {
      YearStartStrictlyIncreasing(r + 1, y);
    } else if r > y {
      YearStartStrictlyIncreasing(y + 1, r);
    }
  }

  /** The month of year `y` that contains day-of-year `doy` (0-based). */
  function MonthOf(y: int, doy: int): (m: int)
    requires 0 <= doy < DaysInYear(y)
    ensures 1 <= m <= 12 && DaysBeforeMonth(y, m) <= doy < DaysBeforeMonth(y, m + 1)
  {
    MonthFrom(y, doy, 1)
  }

  function MonthFrom(y: int, doy: int, m: int): (r: int)
    requires 1 <= m <= 12 && DaysBeforeMonth(y, m) <= doy < DaysInYear(y)
    ensures m <= r <= 12 && DaysBeforeMonth(y, r) <= doy < DaysBeforeMonth(y, r + 1)
    decreases 12 - m
  {
    DaysBeforeNextMonth(y, m);
    if doy < DaysBeforeMonth(y, m + 1) then m else MonthFrom(y, doy, m + 1)
  }

  lemma MonthOfUnique(y: int, doy: int, m: int)
    requires 1 <= m <= 12 && DaysBeforeMonth(y, m) <= doy < DaysBeforeMonth(y, m + 1)
    ensures MonthOf(y, doy) == m
  {
    DaysBeforeNextMonth(y, m);
    var r := MonthOf(y, doy);
    DaysBeforeNextMonth(y, r);
  }

  /** The calendar date of day number `n` (`getUTCFullYear`, `getUTCMonth() + 1`, `getUTCDate`). */
  function FromDays(n: int): (c: Date)
    ensures Valid(c) && ToDays(c) == n
  {
    var y := YearOf(n);
    YearStartStep(y);
    DaysBeforeNextMonth(y, 1);
    var m := MonthOf(y, n - YearStart(y));
    DaysBeforeNextMonth(y, m);
    Date(y, m, n - YearStart(y) - DaysBeforeMonth(y, m) + 1)
  }

  /** Days of the year before `c` (0-based day of the year). */
  function DayOfYear(c: Date): int {
    DaysBeforeMonth(c.year, c.month) + c.day - 1
  }

  lemma DayOfYearInMonth(c: Date)
    requires Valid(c)
    ensures DaysBeforeMonth(c.year, c.month) <= DayOfYear(c) < DaysBeforeMonth(c.year, c.month + 1)
    ensures DaysBeforeMonth(c.year, c.month + 1) <= DaysInYear(c.year)
  {
    DaysBeforeNextMonth(c.year, c.month);
  }

  lemma YearOfDate(c: Date)
    requires Valid(c)
    ensures YearOf(ToDays(c)) == c.year
  {
    DayOfYearInMonth(c);
    YearStartStep(c.year);
    YearOfUnique(ToDays(c), c.year);
  }

  lemma MonthOfDate(c: Date)
    requires Valid(c)
    ensures 0 <= DayOfYear(c) < DaysInYear(c.year)
    ensures MonthOf(c.year, DayOfYear(c)) == c.month
  {
    DayOfYearInMonth(c);
    MonthOfUnique(c.year, DayOfYear(c), c.month);
  }

  lemma CivilRoundTrip(c: Date)
    requires Valid(c)
    ensures FromDays(ToDays(c)) == c
  {
    YearOfDate(c);
    MonthOfDate(c);
    assert ToDays(c) - YearStart(c.year) == DayOfYear(c);
  }

  /**
    ECMAScript `MakeDay(year, month, date)` restricted to integers: `month` is
    0-based and may lie outside 0..11 (whole years are carried), `date` may lie
    outside the month (the excess days spill over).
   */
  function MakeDay(y: int, m0: int, d: int): int {
    DaysFromCivil(y + m0 / 12, m0 % 12 + 1, 1) + d - 1
  }

  /** The year `Date.UTC` passes to `MakeDay`: a year 0..99 means 1900..1999. */
  function UtcYear(y: int): (r: int)
    ensures 0 <= y <= 99 ==> r == 1900 + y
    ensures (y < 0 || 99 < y) ==> r == y
  {
    if 0 <= y <= 99 then 1900 + y else y
  }

  /** `Date.UTC(y, m0, d)` as a day number. */
  function UtcDay(y: int, m0: int, d: int): int {
    MakeDay(UtcYear(y), m0, d)
  }

  /** `MakeDay` with an in-range month is plain `DaysFromCivil`. */
  lemma MakeDayInMonth(y: int, m: int, d: int)
    requires 1 <= m <= 12
    ensures MakeDay(y, m - 1, d) == DaysFromCivil(y, m, d)
  {
    assert (m - 1) / 12 == 0 && (m - 1) % 12 == m - 1;
  }

  /** First day of month `m0` (0-based, normalised) of year `y` plus the month length gives the next first. */
  lemma MakeDayNextMonth(y: int, m0: int)
    ensures MakeDay(y, m0 + 1, 1) == MakeDay(y, m0, 1) + DaysInMonth(y + m0 / 12, m0 % 12 + 1)
  {
    var yy := y + m0 / 12;
    var mm := m0 % 12 + 1;
    DaysBeforeNextMonth(yy, mm);
    if mm == 12 {
      assert (m0 + 1) / 12 == m0 / 12 + 1 && (m0 + 1) % 12 == 0;
      YearStartStep(yy);
    } else {
      assert (m0 + 1) / 12 == m0 / 12 && (m0 + 1) % 12 == m0 % 12 + 1;
    }
  }

  /** Month lengths are at least 28 days, so `k` months on from a first of month is at least `28 * k` days. */
  lemma {:induction false} MakeDayMonthsApart(y: int, m0: int, k: nat)
    ensures MakeDay(y, m0 + k, 1) >= MakeDay(y, m0, 1) + 28 * k
    decreases k
  {
    if k > 0 {
      MakeDayMonthsApart(y, m0, k - 1);
      MakeDayNextMonth(y, m0 + k - 1);
    }
  }

  /** Day 0 of the month after month `m` is the last day of month `m`. */
  lemma MakeDayZero(y: int, m: int)
    requires 1 <= m <= 12
    ensures MakeDay(y, m, 0) == DaysFromCivil(y, m, DaysInMonth(y, m))
  {
    DaysBeforeNextMonth(y, m);
    if m == 12 {
      assert MakeDay(y, m, 0) == DaysFromCivil(y + 1, 1, 1) - 1;
      YearStartStep(y);
    } else {
      assert MakeDay(y, m, 0) == DaysFromCivil(y, m + 1, 1) - 1;
    }
  }

  /** 0 is Sunday and 6 is Saturday, as returned by `getUTCDay`; 1970-01-01 was a Thursday. */
  function DayOfWeek(n: int): int {
    (n + 4) % 7
  }

  predicate IsWeekday(n: int) {
    DayOfWeek(n) != 0 && DayOfWeek(n) != 6
  }

  /** Moves a Sunday forward one day and a Saturday forward two days, to the next Monday. */
  function RollOffWeekend(n: int): (r: int)
    ensures IsWeekday(r)
    ensures n <= r <= n + 2
    ensures IsWeekday(n) ==> r == n
    ensures !IsWeekday(n) ==> forall k :: n <= k < r ==> !IsWeekday(k)
  {
    if DayOfWeek(n) == 0 then n + 1
    else if DayOfWeek(n) == 6 then n + 2
    else n
  }
}
