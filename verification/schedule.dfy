/**
  The coupon schedule of `utils.js` (`buildSchedule`) and the two lookups
  over it (`findPrevNext`, `getPaymentNumber`). Dates are day numbers.
 */
module Schedule {
  import opened Wrappers
  import opened DateMath
  import opened Anchored

  /** Payments per year whose month step `12 / freq` is a whole number. */
  predicate ValidFrequency(freq: int) {
    0 < freq && 12 % freq == 0
  }

  /** Months from the issue date to the coupon date of period `i`: `i * step`. */
  function Offset(i: int, step: int): int {
    i * step
  }

  /** The coupon date of period `i`: `addMonthsUTC(issue, i * step)`, anchored to the issue date. */
  function CouponDate(issue: int, step: int): int -> int {
    i => AddMonthsUTC(issue, Offset(i, step))
  }

  lemma MulStrict(i: int, j: int, step: int)
    requires i < j && 1 <= step
    ensures i * step < j * step
  {
    assert j * step - i * step == (j - i) * step;
  }

  /** The first anchored coupon date lies after the issue date. */
  lemma FirstCouponAfterIssue(issue: int, step: int)
    requires 1 <= step
    ensures issue < CouponDate(issue, step)(1)
  {
    AddMonthsUTCAfterStart(issue, Offset(1, step));
  }

  /** Anchored coupon dates grow with the period. */
  lemma CouponDatesIncrease(issue: int, step: int)
    requires 1 <= step
    ensures Increasing(CouponDate(issue, step))
  {
    var f := CouponDate(issue, step);
    forall i, j | 1 <= i < j
      ensures f(i) < f(j)
    {
      MulStrict(i, j, step);
      AddMonthsUTCIncreasing(issue, Offset(i, step), Offset(j, step));
    }
  }

  /** `buildSchedule(issue, maturity, freq)`. */
  function BuildSchedule(issue: int, maturity: int, freq: int): (s: seq<int>)
    requires ValidFrequency(freq)
    ensures |s| >= 1 && s[0] == issue
    ensures issue >= maturity ==> s == [issue]
    ensures issue < maturity ==> |s| >= 2 && s[|s| - 1] == maturity
  {
    CouponDatesIncrease(issue, 12 / freq);
    Schedule(issue, maturity, CouponDate(issue, 12 / freq))
  }

  /** The schedule is strictly increasing. */
  lemma BuildScheduleIncreasing(issue: int, maturity: int, freq: int)
    requires ValidFrequency(freq)
    ensures StrictlyIncreasing(BuildSchedule(issue, maturity, freq))
  {
    CouponDatesIncrease(issue, 12 / freq);
    FirstCouponAfterIssue(issue, 12 / freq);
    ScheduleIncreasing(issue, maturity, CouponDate(issue, 12 / freq));
  }

  /**
    Between the issue date and maturity the schedule holds
    `addMonthsUTC(issue, k * step)` at position `k`, anchored to the issue
    date, each before maturity.
   */
  lemma BuildScheduleAnchored(issue: int, maturity: int, freq: int)
    requires ValidFrequency(freq) && issue < maturity
    ensures var s := BuildSchedule(issue, maturity, freq);
      forall k :: 0 < k < |s| - 1 ==> s[k] == AddMonthsUTC(issue, Offset(k, 12 / freq)) && s[k] < maturity
  {
    CouponDatesIncrease(issue, 12 / freq);
    ScheduleShape(issue, maturity, CouponDate(issue, 12 / freq));
  }

  /** The last entry replaces the first anchored coupon date that reaches or passes maturity. */
  lemma BuildScheduleLastPeriod(issue: int, maturity: int, freq: int)
    requires ValidFrequency(freq) && issue < maturity
    ensures AddMonthsUTC(issue, Offset(|BuildSchedule(issue, maturity, freq)| - 1, 12 / freq)) >= maturity
  {
    hide AddMonthsUTC;
    var step := 12 / freq;
    var f := CouponDate(issue, step);
    CouponDatesIncrease(issue, step);
    assert BuildSchedule(issue, maturity, freq) == Schedule(issue, maturity, f);
    var n := |Schedule(issue, maturity, f)| - 1;
    assert f(n) >= maturity by {
      ScheduleShape(issue, maturity, f);
    }
  }

  /** Every coupon date strictly between the issue date and maturity is a weekday. */
  lemma BuildScheduleWeekdays(issue: int, maturity: int, freq: int)
    requires ValidFrequency(freq) && issue < maturity
    ensures var s := BuildSchedule(issue, maturity, freq);
      forall k :: 0 < k < |s| - 1 ==> Civil.IsWeekday(s[k])
  {
    BuildScheduleAnchored(issue, maturity, freq);
  }

  /** Index of the last date on or before `settle`, or -1 when there is none. */
  function LastAtOrBefore(s: seq<int>, settle: int): (r: int)
    ensures -1 <= r < |s|
    ensures 0 <= r ==> s[r] <= settle
    ensures forall j :: r < j < |s| ==> s[j] > settle
  {
    if |s| == 0 then -1
    else if s[|s| - 1] <= settle then |s| - 1
    else LastAtOrBefore(s[..|s| - 1], settle)
  }

  /** Index of the first date after `settle`, or `|s|` when there is none. */
  function FirstAfter(s: seq<int>, settle: int): (r: nat)
    ensures r <= |s|
    ensures r < |s| ==> s[r] > settle
    ensures forall j :: 0 <= j < r ==> s[j] <= settle
  {
    if |s| == 0 then 0
    else if s[0] > settle then 0
    else 1 + FirstAfter(s[1..], settle)
  }

  /** `findPrevNext`'s `prev`: the last schedule date on or before settlement. */
  function FindPrev(s: seq<int>, settle: int): Option<int> {
    var r := LastAtOrBefore(s, settle);
    if r < 0 then None else Some(s[r])
  }

  /** `findPrevNext`'s `next`: the first schedule date after settlement. */
  function FindNext(s: seq<int>, settle: int): Option<int> {
    var r := FirstAfter(s, settle);
    if r == |s| then None else Some(s[r])
  }

  /** `findPrevNext`: one forward pass remembering the latest date on or before `settle` and the first after it. */
  method FindPrevNext(s: seq<int>, settle: int) returns (prev: Option<int>, next: Option<int>)
    ensures prev == FindPrev(s, settle)
    ensures next == FindNext(s, settle)
  {
    prev, next := None, None;
    ghost var p := -1;
    ghost var n := 0;
    for k := 0 to |s|
      invariant -1 <= p < k && (p < 0 ==> prev == None) && (0 <= p ==> prev == Some(s[p]) && s[p] <= settle)
      invariant forall j :: p < j < k ==> s[j] > settle
      invariant 0 <= n <= k && (n == k ==> next == None) && (n < k ==> next == Some(s[n]) && s[n] > settle)
      invariant forall j :: 0 <= j < n ==> s[j] <= settle
    {
      var d := s[k];
      if d <= settle {
        prev := Some(d);
        p := k;
      }
      if d > settle && next.None? {
        next := Some(d);
      }
      if next.None? {
        n := k + 1;
      }
    }
    assert p == LastAtOrBefore(s, settle);
    assert n == FirstAfter(s, settle);
  }

  /** `getPaymentNumber`: the index of the first date equal to `payDate`, or the length when there is none. */
  function GetPaymentNumber(s: seq<int>, payDate: int): (n: nat)
    ensures n <= |s|
    ensures n < |s| ==> s[n] == payDate
    ensures forall j :: 0 <= j < n ==> s[j] != payDate
  {
    CountTo(s, payDate, 0)
  }

  /** The loop of `getPaymentNumber` from `count == i` on. */
  function CountTo(s: seq<int>, payDate: int, i: nat): (n: nat)
    requires i <= |s|
    ensures i <= n <= |s|
    ensures n < |s| ==> s[n] == payDate
    ensures forall j :: i <= j < n ==> s[j] != payDate
    decreases |s| - i
  {
    if i == |s| then i
    else if s[i] == payDate then i
    else CountTo(s, payDate, i + 1)
  }

  /** In a strictly increasing schedule every date's payment number is its index. */
  lemma PaymentNumberIsIndex(s: seq<int>, i: int)
    requires StrictlyIncreasing(s) && 0 <= i < |s|
    ensures GetPaymentNumber(s, s[i]) == i
  {
  }

  /**
    On an increasing schedule there is no previous date exactly when
    settlement comes before the first date, and no next date exactly when
    settlement is on or after the last.
   */
  lemma FindPrevNextBounds(s: seq<int>, settle: int)
    requires StrictlyIncreasing(s) && 0 < |s|
    ensures FindPrev(s, settle).None? <==> settle < s[0]
    ensures FindNext(s, settle).None? <==> s[|s| - 1] <= settle
  {
    var r := LastAtOrBefore(s, settle);
    if 0 <= r {
      assert s[0] <= s[r];
    }
    var f := FirstAfter(s, settle);
    if f < |s| {
      assert s[f] <= s[|s| - 1];
    }
  }

  /** A schedule from an issue date on or before maturity is increasing and runs from the issue date to maturity. */
  lemma BuildScheduleSpan(issue: int, maturity: int, freq: int)
    requires ValidFrequency(freq) && issue <= maturity
    ensures var s := BuildSchedule(issue, maturity, freq);
      StrictlyIncreasing(s) && s[0] == issue && s[|s| - 1] == maturity
  {
    BuildScheduleIncreasing(issue, maturity, freq);
  }

  /** On an increasing schedule the next date is a schedule date after `settle`, the earliest such. */
  lemma FindNextEarliest(s: seq<int>, settle: int)
    requires StrictlyIncreasing(s) && 0 < |s|
    ensures FindNext(s, settle).None? <==> s[|s| - 1] <= settle
    ensures var next := FindNext(s, settle);
      next.Some? ==>
        next.value in s && settle < next.value && forall k :: 0 <= k < |s| && settle < s[k] ==> next.value <= s[k]
  {
    FindPrevNextBounds(s, settle);
    var f := FirstAfter(s, settle);
    if f < |s| {
      forall k | 0 <= k < |s| && settle < s[k]
        ensures s[f] <= s[k]
      {
        assert f <= k;
      }
    }
  }
}
