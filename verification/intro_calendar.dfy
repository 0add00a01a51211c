/**
  The date helpers of the offering tab (`js/introTab.js`): `addMonths`
  (`setMonth` on the month number, so a day past the end of the target month
  spills into the next one), `subtractWorkingDays` (stepping back over
  Saturdays and Sundays), the tab's own `buildSchedule` (the month step added
  to the issue date, then a weekend date moved to the Monday after) and
  `findNextCoupon`. The tab works in local time; here local time is taken to
  be UTC, so dates are the same day numbers as elsewhere.
 */
module IntroCalendar {
  import opened Wrappers
  import opened Civil
  import opened DateMath
  import opened Anchored
  import Schedule

  /** `addMonths`: `setMonth(getMonth() + months)`, keeping the day of the month. */
  function AddMonths(dt: int, months: int): int {
    var c := FromDays(dt);
    MakeDay(c.year, c.month - 1 + months, c.day)
  }

  /** `addMonths` is the first of the target month moved on by the day of `dt`, less one. */
  lemma AddMonthsFromFirst(dt: int, months: int)
    ensures AddMonths(dt, months) == ToDays(TargetFirst(FromDays(dt), months)) + FromDays(dt).day - 1
  {
    TargetFirstDays(FromDays(dt), months);
  }

  /** Adding no months gives the date back. */
  lemma AddMonthsZero(dt: int)
    ensures AddMonths(dt, 0) == dt
  {
    AddMonthsFromFirst(dt, 0);
    hide AddMonths, FromDays, ToDays;
    TargetFirstZero(FromDays(dt));
  }

  /** Each extra month moves the result on by at least 28 days. */
  lemma AddMonthsApart(dt: int, j: int, k: int)
    requires j <= k
    ensures AddMonths(dt, j) + 28 * (k - j) <= AddMonths(dt, k)
  {
    AddMonthsFromFirst(dt, j);
    AddMonthsFromFirst(dt, k);
    TargetFirstMonthsApart(FromDays(dt), j, k);
  }

  /**
    When the day of `dt` exists in the target month, `addMonths` lands on that
    day of the target month; otherwise the excess days spill past the month's
    end into the next month.
   */
  lemma AddMonthsLands(dt: int, months: int)
    ensures var c := FromDays(dt);
      var first := TargetFirst(c, months);
      c.day <= DaysInMonth(first.year, first.month) ==>
        FromDays(AddMonths(dt, months)) == Date(first.year, first.month, c.day)
    ensures var c := FromDays(dt);
      var first := TargetFirst(c, months);
      c.day > DaysInMonth(first.year, first.month) ==>
        AddMonths(dt, months) == ToDays(TargetFirst(c, months + 1)) + c.day - DaysInMonth(first.year, first.month) - 1
  {
    AddMonthsFromFirst(dt, months);
    hide AddMonths, FromDays;
    var c := FromDays(dt);
    var first := TargetFirst(c, months);
    if c.day <= DaysInMonth(first.year, first.month) {
      CivilRoundTrip(Date(first.year, first.month, c.day));
    } else {
      TargetFirstNext(c, months);
    }
  }

  /** 31 January 2023 plus one month is 3 March 2023: February has no 31st. */
  lemma AddMonthsSpillExample()
    ensures AddMonths(ToDays(Date(2023, 1, 31)), 1) == ToDays(Date(2023, 3, 3))
  {
    CivilRoundTrip(Date(2023, 1, 31));
  }

  /** The number of weekdays among the days `a`, `a + 1`, ..., `b - 1`. */
  function WeekdayCount(a: int, b: int): (n: nat)
    ensures a <= b ==> n <= b - a
    decreases b - a
  {
    if b <= a then 0 else WeekdayCount(a, b - 1) + if IsWeekday(b - 1) then 1 else 0
  }

  lemma {:induction false} WeekdayCountSplit(a: int, b: int, c: int)
    requires a <= b <= c
    ensures WeekdayCount(a, c) == WeekdayCount(a, b) + WeekdayCount(b, c)
    decreases c - b
  {
    if b < c {
      WeekdayCountSplit(a, b, c - 1);
    }
  }

  /** The number of weekdays strictly between `e` and `dt`. */
  function WeekdaysBetween(e: int, dt: int): nat {
    WeekdayCount(e + 1, dt)
  }

  /** How many steps back from `r` it takes at most to reach the weekend's end: 2 on a Sunday, 1 on a Saturday. */
  function WeekendRun(r: int): nat {
    if DayOfWeek(r) == 0 then 2 else if DayOfWeek(r) == 6 then 1 else 3
  }

  lemma WeekendRunShrinks(r: int)
    requires !IsWeekday(r - 1)
    ensures WeekendRun(r - 1) < WeekendRun(r)
  {
    assert DayOfWeek(r) == (DayOfWeek(r - 1) + 1) % 7;
  }

  /**
    The loop of `subtractWorkingDays` from `result` with `remaining` weekdays
    still to pass: step back one day, and count it when it is a weekday.
   */
  function StepBack(result: int, remaining: int): (r: int)
    ensures remaining <= 0 ==> r == result
    ensures 0 < remaining ==> r < result && IsWeekday(r) && WeekdayCount(r, result) == remaining
    decreases remaining, WeekendRun(result)
  {
    if remaining <= 0 then result
    else if IsWeekday(result - 1) then StepBack(result - 1, remaining - 1)
    else
      WeekendRunShrinks(result);
      StepBack(result - 1, remaining)
  }

  /**
    `subtractWorkingDays(dt, days)`: the day reached by stepping back from
    `dt` over `days` weekdays, itself a weekday; `dt` itself when `days` is
    not positive.
   */
  function SubtractWorkingDays(dt: int, days: int): (r: int)
    ensures days <= 0 ==> r == dt
    ensures 0 < days ==> r < dt && IsWeekday(r) && WeekdayCount(r, dt) == days
  {
    StepBack(dt, days)
  }

  /** The loop of `subtractWorkingDays` itself. */
  method SubtractWorkingDaysLoop(dt: int, days: int) returns (result: int)
    ensures result == SubtractWorkingDays(dt, days)
  {
    result := dt;
    var remaining := days;
    while remaining > 0
      invariant StepBack(result, remaining) == StepBack(dt, days)
      decreases remaining, WeekendRun(result)
    {
      if !IsWeekday(result - 1) {
        WeekendRunShrinks(result);
      }
      result := result - 1;
      if IsWeekday(result) {
        remaining := remaining - 1;
      }
    }
  }

  /**
    A day `e` before `dt` lies on or after `subtractWorkingDays(dt, days)`
    exactly when fewer than `days` weekdays lie strictly between `e` and `dt`.
   */
  lemma RecordingWindow(dt: int, days: int, e: int)
    ensures SubtractWorkingDays(dt, days) <= e < dt <==> e < dt && WeekdaysBetween(e, dt) < days
  {
    var r := SubtractWorkingDays(dt, days);
    if 0 < days && e < dt {
      if r <= e {
        WeekdayCountSplit(r, r + 1, dt);
        WeekdayCountSplit(r + 1, e + 1, dt);
      } else {
        WeekdayCountSplit(e + 1, r, dt);
      }
    }
  }

  /** The coupon date of period `i` in the offering tab: `addMonths(issue, i * step)`, moved off a weekend. */
  function CouponDate(issue: int, step: int): int -> int {
    i => RollOffWeekend(AddMonths(issue, Schedule.Offset(i, step)))
  }

  lemma CouponDatesIncrease(issue: int, step: int)
    requires 1 <= step
    ensures Increasing(CouponDate(issue, step))
    ensures issue < CouponDate(issue, step)(1)
  {
    var f := CouponDate(issue, step);
    forall i, j | 1 <= i < j
      ensures f(i) < f(j)
    {
      Schedule.MulStrict(i, j, step);
      AddMonthsApart(issue, Schedule.Offset(i, step), Schedule.Offset(j, step));
    }
    AddMonthsZero(issue);
    AddMonthsApart(issue, 0, Schedule.Offset(1, step));
  }

  /** `buildSchedule` of the offering tab. */
  function BuildSchedule(issue: int, maturity: int, freq: int): (s: seq<int>)
    requires Schedule.ValidFrequency(freq)
    ensures |s| >= 1 && s[0] == issue
    ensures issue >= maturity ==> s == [issue]
    ensures issue < maturity ==> |s| >= 2 && s[|s| - 1] == maturity
  {
    CouponDatesIncrease(issue, 12 / freq);
    Anchored.Schedule(issue, maturity, CouponDate(issue, 12 / freq))
  }

  /** The schedule is strictly increasing. */
  lemma BuildScheduleIncreasing(issue: int, maturity: int, freq: int)
    requires Schedule.ValidFrequency(freq)
    ensures StrictlyIncreasing(BuildSchedule(issue, maturity, freq))
  {
    CouponDatesIncrease(issue, 12 / freq);
    ScheduleIncreasing(issue, maturity, CouponDate(issue, 12 / freq));
  }

  /**
    Between the issue date and maturity the schedule holds at position `k`
    the weekday on or just after `addMonths(issue, k * step)`, each before
    maturity.
   */
  lemma BuildScheduleShape(issue: int, maturity: int, freq: int)
    requires Schedule.ValidFrequency(freq) && issue < maturity
    ensures var s := BuildSchedule(issue, maturity, freq);
      forall k :: 0 < k < |s| - 1 ==>
        s[k] == RollOffWeekend(AddMonths(issue, Schedule.Offset(k, 12 / freq))) && s[k] < maturity && IsWeekday(s[k])
  {
    CouponDatesIncrease(issue, 12 / freq);
    ScheduleShape(issue, maturity, CouponDate(issue, 12 / freq));
  }

  /**
    The loop stops only once the anchored date reaches maturity: the weekday
    rolled from `addMonths(issue, (|s| - 1) * step)` is on or after maturity,
    so no coupon date before maturity is left out.
   */
  lemma BuildScheduleLastPeriod(issue: int, maturity: int, freq: int)
    requires Schedule.ValidFrequency(freq) && issue < maturity
    ensures RollOffWeekend(AddMonths(issue, Schedule.Offset(|BuildSchedule(issue, maturity, freq)| - 1, 12 / freq))) >= maturity
  {
    hide AddMonths, RollOffWeekend;
    var step := 12 / freq;
    var f := CouponDate(issue, step);
    CouponDatesIncrease(issue, step);
    assert BuildSchedule(issue, maturity, freq) == Anchored.Schedule(issue, maturity, f);
    var n := |Anchored.Schedule(issue, maturity, f)| - 1;
    assert f(n) >= maturity by {
      ScheduleShape(issue, maturity, f);
    }
  }

  /** `findNextCoupon`: the first schedule date after `start`, or `None` (`null`). */
  function FindNextCoupon(issue: int, maturity: int, freq: int, start: int): Option<int>
    requires Schedule.ValidFrequency(freq)
  {
    Schedule.FindNext(BuildSchedule(issue, maturity, freq), start)
  }

  /**
    There is a next coupon exactly when `start` lies before the last schedule
    date (maturity, or the issue date when that is not before maturity), and
    it is the earliest schedule date after `start`.
   */
  lemma FindNextCouponSpec(issue: int, maturity: int, freq: int, start: int)
    requires Schedule.ValidFrequency(freq)
    ensures issue < maturity ==> (FindNextCoupon(issue, maturity, freq, start).None? <==> maturity <= start)
    ensures maturity <= issue ==> (FindNextCoupon(issue, maturity, freq, start).None? <==> issue <= start)
    ensures var s := BuildSchedule(issue, maturity, freq);
      var next := FindNextCoupon(issue, maturity, freq, start);
      next.Some? ==>
        next.value in s && start < next.value && forall k :: 0 <= k < |s| && start < s[k] ==> next.value <= s[k]
  {
    hide BuildSchedule, CouponDate, AddMonths, RollOffWeekend, Anchored.Schedule, FromDays, MakeDay;
    var s := BuildSchedule(issue, maturity, freq);
    BuildScheduleIncreasing(issue, maturity, freq);
    Schedule.FindNextEarliest(s, start);
  }
}
