/** Month addition and day counting of `utils.js`, on day numbers. */
module DateMath {
  import opened Civil

  function Min(a: int, b: int): int {
    if a <= b then a else b
  }

  /**
    `addMonthsUTC`: the first of the month `months` after `dt`'s month, the day
    of `dt` clamped to that month's last day, then moved off a weekend.
   */
  function AddMonthsUTC(dt: int, months: int): int {
    var c := FromDays(dt);
    RollOffWeekend(ClampIntoMonth(FromDays(MakeDay(c.year, c.month - 1 + months, 1)), c.day))
  }

  /** `Date.UTC(y, m, Math.min(d, last))` for the month whose first day is `first`. */
  function ClampIntoMonth(first: Date, d: int): int {
    MakeDay(first.year, first.month - 1, Min(d, LastDayOf(first)))
  }

  /** The last day of `first`'s month, read back as day 0 of the month after it. */
  function LastDayOf(first: Date): int {
    FromDays(MakeDay(first.year, first.month - 1 + 1, 0)).day
  }

  /** The first day of the month lying `months` after the month of `c`. */
  function TargetFirst(c: Date, months: int): (first: Date)
    ensures 1 <= first.month <= 12 && first.day == 1
  {
    var m0 := c.month - 1 + months;
    Date(c.year + m0 / 12, m0 % 12 + 1, 1)
  }

  /** Day `d` of the month starting at `first`, clamped to the month's last day. */
  function ClampedDay(first: Date, d: int): int {
    DaysFromCivil(first.year, first.month, Min(d, DaysInMonth(first.year, first.month)))
  }

  /** Where `addMonthsUTC` lands before the weekend roll: the target month, on the clamped day. */
  function ClampedTarget(dt: int, months: int): int {
    var c := FromDays(dt);
    ClampedDay(TargetFirst(c, months), c.day)
  }

  lemma TargetFirstDays(c: Date, months: int)
    ensures MakeDay(c.year, c.month - 1 + months, 1) == ToDays(TargetFirst(c, months))
  {
  }

  lemma TargetFirstIsFirstOfMonth(c: Date, months: int)
    ensures FromDays(MakeDay(c.year, c.month - 1 + months, 1)) == TargetFirst(c, months)
  {
    TargetFirstDays(c, months);
    CivilRoundTrip(TargetFirst(c, months));
  }

  lemma LastDayOfIsMonthLength(first: Date)
    requires 1 <= first.month <= 12
    ensures LastDayOf(first) == DaysInMonth(first.year, first.month)
  {
    var y := first.year;
    var m := first.month;
    MakeDayZero(y, m);
    var last := Date(y, m, DaysInMonth(y, m));
    CivilRoundTrip(last);
    assert MakeDay(y, m - 1 + 1, 0) == ToDays(last);
  }

  lemma ClampIntoMonthIsClampedDay(first: Date, d: int)
    requires 1 <= first.month <= 12
    ensures ClampIntoMonth(first, d) == ClampedDay(first, d)
  {
    LastDayOfIsMonthLength(first);
    MakeDayInMonth(first.year, first.month, Min(d, DaysInMonth(first.year, first.month)));
  }

  lemma ClampIntoFirst(n: int, first: Date, d: int)
    requires 1 <= first.month <= 12
    ensures FromDays(n) == first ==> ClampIntoMonth(FromDays(n), d) == ClampedDay(first, d)
  {
    ClampIntoMonthIsClampedDay(first, d);
  }

  /** The day `addMonthsUTC` moves off a weekend is the clamped day of the target month. */
  lemma ClampedIntoTarget(c: Date, months: int)
    ensures ClampIntoMonth(FromDays(MakeDay(c.year, c.month - 1 + months, 1)), c.day) == ClampedDay(TargetFirst(c, months), c.day)
  {
    TargetFirstIsFirstOfMonth(c, months);
    ClampIntoFirst(MakeDay(c.year, c.month - 1 + months, 1), TargetFirst(c, months), c.day);
  }

  lemma AddMonthsUTCOfDate(dt: int, months: int)
    ensures AddMonthsUTC(dt, months) ==
      RollOffWeekend(ClampIntoMonth(FromDays(MakeDay(FromDays(dt).year, FromDays(dt).month - 1 + months, 1)), FromDays(dt).day))
  {
  }

  lemma ClampedTargetOfDate(dt: int, months: int)
    ensures ClampedTarget(dt, months) == ClampedDay(TargetFirst(FromDays(dt), months), FromDays(dt).day)
  {
  }

  lemma AddMonthsUTCLandsOnClampedDay(dt: int, months: int)
    ensures AddMonthsUTC(dt, months) == RollOffWeekend(ClampedTarget(dt, months))
  {
    AddMonthsUTCOfDate(dt, months);
    ClampedTargetOfDate(dt, months);
    hide FromDays, RollOffWeekend, ClampIntoMonth, ClampedDay, TargetFirst, MakeDay;
    ClampedIntoTarget(FromDays(dt), months);
  }

  /**
    Before the weekend roll `addMonthsUTC` lands in the month `months` after
    the month of `dt`, on the day of `dt` or that month's last day, whichever
    comes first; the rolled result is a weekday.
   */
  lemma AddMonthsUTCCalendar(dt: int, months: int)
    ensures var c := FromDays(dt);
      var first := TargetFirst(c, months);
      FromDays(ClampedTarget(dt, months)) == Date(first.year, first.month, Min(c.day, DaysInMonth(first.year, first.month)))
    ensures IsWeekday(AddMonthsUTC(dt, months))
    ensures ClampedTarget(dt, months) <= AddMonthsUTC(dt, months) <= ClampedTarget(dt, months) + 2
  {
    AddMonthsUTCLandsOnClampedDay(dt, months);
    ClampedTargetOfDate(dt, months);
    hide AddMonthsUTC, ClampedTarget, TargetFirst;
    var c := FromDays(dt);
    var first := TargetFirst(c, months);
    CivilRoundTrip(Date(first.year, first.month, Min(c.day, DaysInMonth(first.year, first.month))));
  }

  /**
    `addMonthsUTC` as written: each `Date.UTC` call maps a year 0..99 to
    1900..1999, and the weekend roll rebuilds the date from its parts.
   */
  function AddMonthsUTCAsWritten(dt: int, months: int): int {
    var c := FromDays(dt);
    var tmp := FromDays(UtcDay(c.year, c.month - 1 + months, 1));
    var last := FromDays(UtcDay(tmp.year, tmp.month - 1 + 1, 0)).day;
    UtcRoll(UtcDay(tmp.year, tmp.month - 1, Min(c.day, last)))
  }

  /** The weekend roll of `addMonthsUTC`, one or two days added to the day of the month. */
  function UtcRoll(n: int): int {
    var r := FromDays(n);
    if DayOfWeek(n) == 0 then UtcDay(r.year, r.month - 1, r.day + 1)
    else if DayOfWeek(n) == 6 then UtcDay(r.year, r.month - 1, r.day + 2)
    else n
  }

  /** Outside the years 0..99 the rebuilt roll is `RollOffWeekend`. */
  lemma UtcRollAgrees(n: int)
    requires !(0 <= FromDays(n).year <= 99)
    ensures UtcRoll(n) == RollOffWeekend(n)
  {
    hide FromDays, MakeDay, DaysFromCivil;
    var r := FromDays(n);
    MakeDayInMonth(r.year, r.month, r.day + 1);
    MakeDayInMonth(r.year, r.month, r.day + 2);
    DaysFromCivilShift(r.year, r.month, r.day, 1);
    DaysFromCivilShift(r.year, r.month, r.day, 2);
  }

  lemma DaysFromCivilShift(y: int, m: int, d: int, k: int)
    ensures DaysFromCivil(y, m, d + k) == DaysFromCivil(y, m, d) + k
  {
  }

  /** `Date.UTC(y, m, 1)` for the year of `c` outside 0..99 is the first of the target month. */
  lemma UtcTargetFirst(c: Date, months: int)
    requires !(0 <= c.year <= 99)
    ensures FromDays(UtcDay(c.year, c.month - 1 + months, 1)) == TargetFirst(c, months)
  {
    assert UtcDay(c.year, c.month - 1 + months, 1) == MakeDay(c.year, c.month - 1 + months, 1);
    TargetFirstIsFirstOfMonth(c, months);
  }

  /** The clamping `Date.UTC` calls for a month outside the years 0..99 are `ClampIntoMonth`. */
  lemma UtcClamp(first: Date, d: int)
    requires !(0 <= first.year <= 99)
    ensures UtcDay(first.year, first.month - 1, Min(d, FromDays(UtcDay(first.year, first.month - 1 + 1, 0)).day))
      == ClampIntoMonth(first, d)
  {
    assert UtcYear(first.year) == first.year;
  }

  lemma AddMonthsUTCAsWrittenOfDate(dt: int, months: int)
    ensures var c := FromDays(dt);
      var tmp := FromDays(UtcDay(c.year, c.month - 1 + months, 1));
      AddMonthsUTCAsWritten(dt, months) ==
        UtcRoll(UtcDay(tmp.year, tmp.month - 1, Min(c.day, FromDays(UtcDay(tmp.year, tmp.month - 1 + 1, 0)).day)))
  {
  }

  /**
    When neither the year of `dt` nor the year of the target month lies in
    0..99, the year mapping never applies and `AddMonthsUTC` is exact.
   */
  lemma AddMonthsUTCAsWrittenAgrees(dt: int, months: int)
    requires !(0 <= FromDays(dt).year <= 99)
    requires !(0 <= TargetFirst(FromDays(dt), months).year <= 99)
    ensures AddMonthsUTCAsWritten(dt, months) == AddMonthsUTC(dt, months)
  {
    var c := FromDays(dt);
    var first := TargetFirst(c, months);
    AddMonthsUTCAsWrittenOfDate(dt, months);
    AddMonthsUTCLandsOnClampedDay(dt, months);
    AddMonthsUTCCalendar(dt, months);
    ClampedTargetOfDate(dt, months);
    hide AddMonthsUTCAsWritten, AddMonthsUTC, RollOffWeekend, UtcRoll, ClampedDay, ClampedTarget, TargetFirst,
      FromDays, UtcDay, ClampIntoMonth, MakeDay;
    UtcTargetFirst(c, months);
    UtcClamp(first, c.day);
    ClampedIntoTarget(c, months);
    TargetFirstIsFirstOfMonth(c, months);
    UtcRollAgrees(ClampedTarget(dt, months));
  }

  lemma ClampedDayBounds(first: Date, d: int)
    requires 1 <= first.month <= 12 && first.day == 1 && 1 <= d
    ensures ToDays(first) + Min(d, 28) - 1 <= ClampedDay(first, d)
    ensures ClampedDay(first, d) <= ToDays(first) + d - 1
    ensures ClampedDay(first, d) <= ToDays(first) + DaysInMonth(first.year, first.month) - 1
  {
  }

  lemma TargetFirstNext(c: Date, k: int)
    ensures ToDays(TargetFirst(c, k + 1)) == ToDays(TargetFirst(c, k)) + DaysInMonth(TargetFirst(c, k).year, TargetFirst(c, k).month)
  {
    var m0 := c.month - 1 + k;
    MakeDayNextMonth(c.year, m0);
    TargetFirstDays(c, k);
    TargetFirstDays(c, k + 1);
  }

  lemma {:induction false} TargetFirstMonthsApart(c: Date, j: int, k: int)
    requires j <= k
    ensures ToDays(TargetFirst(c, k)) >= ToDays(TargetFirst(c, j)) + 28 * (k - j)
    decreases k - j
  {
    if j < k {
      TargetFirstMonthsApart(c, j, k - 1);
      TargetFirstNext(c, k - 1);
    }
  }

  /** `addMonthsUTC(dt, k)` lies at least 26 days before the clamped day of the following month. */
  lemma AddMonthsUTCUpperBound(dt: int, k: int)
    ensures AddMonthsUTC(dt, k) + 27 <= ToDays(TargetFirst(FromDays(dt), k + 1)) + Min(FromDays(dt).day, 28)
  {
    var c := FromDays(dt);
    AddMonthsUTCLandsOnClampedDay(dt, k);
    ClampedDayBounds(TargetFirst(c, k), c.day);
    TargetFirstNext(c, k);
  }

  lemma AddMonthsUTCLowerBound(dt: int, k: int)
    ensures ToDays(TargetFirst(FromDays(dt), k)) + Min(FromDays(dt).day, 28) - 1 <= AddMonthsUTC(dt, k)
  {
    var c := FromDays(dt);
    AddMonthsUTCLandsOnClampedDay(dt, k);
    ClampedDayBounds(TargetFirst(c, k), c.day);
  }

  /** `addMonthsUTC` from a fixed start is strictly increasing in the number of months. */
  lemma AddMonthsUTCIncreasing(dt: int, j: int, k: int)
    requires j < k
    ensures AddMonthsUTC(dt, j) < AddMonthsUTC(dt, k)
  {
    var c := FromDays(dt);
    AddMonthsUTCUpperBound(dt, j);
    AddMonthsUTCLowerBound(dt, k);
    TargetFirstMonthsApart(c, j + 1, k);
  }

  /** A valid date lies `day - 1` days after the first of its month, which `TargetFirst` gives for no months. */
  lemma TargetFirstZero(c: Date)
    requires Valid(c)
    ensures ToDays(TargetFirst(c, 0)) + c.day - 1 == ToDays(c)
    ensures TargetFirst(c, 0) == Date(c.year, c.month, 1)
  {
    assert (c.month - 1) / 12 == 0 && (c.month - 1) % 12 == c.month - 1;
  }

  /** Adding `k >= 1` months moves strictly past the start, and at least `28 * k - 30` days on. */
  lemma AddMonthsUTCAfterStart(dt: int, k: int)
    requires k >= 1
    ensures dt + 28 * k - 30 <= AddMonthsUTC(dt, k)
    ensures dt < AddMonthsUTC(dt, k)
  {
    hide AddMonthsUTC, FromDays, ToDays, TargetFirst, DaysInMonth;
    var c := FromDays(dt);
    TargetFirstZero(c);
    TargetFirstNext(c, 0);
    TargetFirstMonthsApart(c, 1, k);
    AddMonthsUTCLowerBound(dt, k);
  }

  /** `actualDays`: the exact number of days from `d1` to `d2` (negative when `d2` is earlier). */
  function ActualDays(d1: int, d2: int): (n: int)
    ensures d1 + n == d2
  {
    d2 - d1
  }

  /** `yearFrac`: Actual/365 fixed. */
  function YearFrac(d1: int, d2: int): (f: real)
    ensures 365.0 * f == (d2 - d1) as real
    ensures f >= 0.0 <==> d1 <= d2
  {
    ActualDays(d1, d2) as real / 365.0
  }

  lemma YearFracAdditive(a: int, b: int, c: int)
    ensures YearFrac(a, b) + YearFrac(b, c) == YearFrac(a, c)
  {
  }
}
