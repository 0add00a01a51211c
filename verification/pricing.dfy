/**
  Bond pricing of `utils.js`: `priceBond` (fixed coupon) and
  `priceFloatingBond` (rate resolved per payment from an interest schedule).
  Both walk the coupon schedule, skip the dates on or before settlement, and
  for each later date pay the coupon of the period ending there (plus the
  face value at maturity), discounted to settlement.

  Amounts are exact reals. `Math.pow` is a parameter `pow`, since the model
  has no floating-point exponentiation; nothing is assumed about it.
 */
module Pricing {
  import opened Wrappers
  import opened DateMath
  import opened Anchored
  import opened Schedule
  import opened Rates

  /** `Math.pow(base, exponent)`. */
  type Pow = (real, real) -> real

  /** The arguments both pricing functions share: face value, yield (percent), payments per year, and the three dates. */
  datatype Terms = Terms(fv: real, ytm: real, freq: int, issue: int, settle: int, maturity: int)

  /** The extra fields a floating cash flow carries. */
  datatype FloatingDetail = FloatingDetail(paymentNum: nat, scheduleRate: real, baseBankRate: real)

  /** One entry of `cfs`: the payment date (a day number; the source stores its `formatDateVN` text), the period's year fraction, amount, present value and rate. */
  datatype CashFlow = CashFlow(date: int, yf: real, cf: real, pv: real, rate: real, detail: Option<FloatingDetail>)

  /** What both pricing functions return; `prev` and `next` are day numbers. */
  datatype Priced = Priced(dirty: real, clean: real, accrued: real, prev: Option<int>, next: Option<int>, cfs: seq<CashFlow>)

  /** The start of the period ending at position `k`: the previous date, or the issue date for the first (`schedule[i - 1] ?? issue`). */
  function PeriodStart(s: seq<int>, k: nat, issue: int): int
    requires k < |s|
  {
    if k == 0 then issue else s[k - 1]
  }

  /** The coupon on face value `fv` at `rate` for `yf` years. */
  function Coupon(fv: real, rate: real, yf: real): real {
    fv * rate * yf
  }

  /** The amount paid on `payDate` at `rate` for a period of `yf` years: the coupon, plus the face value at maturity. */
  function Amount(t: Terms, rate: real, yf: real, payDate: int): real {
    Coupon(t.fv, rate, yf) + if payDate == t.maturity then t.fv else 0.0
  }

  /** The positions the pricing loop does not skip: from `i` on, those whose date lies after `settle`, ascending. */
  function Due(s: seq<int>, settle: int, i: nat): (ks: seq<nat>)
    requires i <= |s|
    ensures forall n :: 0 <= n < |ks| ==> i <= ks[n] < |s| && s[ks[n]] > settle
    ensures forall n, m :: 0 <= n < m < |ks| ==> ks[n] < ks[m]
    decreases |s| - i
  {
    if i == |s| then []
    else if s[i] <= settle then Due(s, settle, i + 1)
    else [i] + Due(s, settle, i + 1)
  }

  /**
    The cash flows a pricing loop pushes: for each due position, in order,
    `flow(start of its period, its date)`.
   */
  function DueFlows(s: seq<int>, issue: int, settle: int, flow: (int, int) -> CashFlow): seq<CashFlow> {
    var ks := Due(s, settle, 0);
    seq(|ks|, n requires 0 <= n < |ks| => flow(PeriodStart(s, ks[n], issue), s[ks[n]]))
  }

  /** The sum of the present values, accumulated in order (`dirty += pv`). */
  function TotalPv(cfs: seq<CashFlow>): real {
    if |cfs| == 0 then 0.0 else TotalPv(cfs[..|cfs| - 1]) + cfs[|cfs| - 1].pv
  }

  // ---------------------------------------------------- the loop's dates

  /** Dates on or before settlement from `i` to `j` are skipped. */
  lemma {:induction false} DueSkips(s: seq<int>, settle: int, i: nat, j: nat)
    requires i <= j <= |s|
    requires forall k :: i <= k < j ==> s[k] <= settle
    ensures Due(s, settle, i) == Due(s, settle, j)
    decreases j - i
  {
    if i < j {
      DueSkips(s, settle, i + 1, j);
    }
  }

  /** When every date from `i` on lies after settlement, each position from `i` on is due, in order. */
  lemma {:induction false} DueAll(s: seq<int>, settle: int, i: nat)
    requires i <= |s|
    requires forall k :: i <= k < |s| ==> s[k] > settle
    ensures |Due(s, settle, i)| == |s| - i
    ensures forall n :: 0 <= n < |s| - i ==> Due(s, settle, i)[n] == i + n
    decreases |s| - i
  {
    if i < |s| {
      DueAll(s, settle, i + 1);
    }
  }

  /** On an increasing schedule the due positions are exactly those from the first date after settlement to the end. */
  lemma DueOfSorted(s: seq<int>, settle: int)
    requires StrictlyIncreasing(s)
    ensures |Due(s, settle, 0)| == |s| - FirstAfter(s, settle)
    ensures forall n :: 0 <= n < |Due(s, settle, 0)| ==> Due(s, settle, 0)[n] == FirstAfter(s, settle) + n
  {
    var f := FirstAfter(s, settle);
    DueSkips(s, settle, 0, f);
    DueAll(s, settle, f);
  }

  /** Whether the present values of two flow lists agree, flow by flow. */
  predicate SamePvs(a: seq<CashFlow>, b: seq<CashFlow>) {
    |a| == |b| && forall n :: 0 <= n < |a| ==> a[n].pv == b[n].pv
  }

  lemma {:induction false} TotalPvOfSamePvs(a: seq<CashFlow>, b: seq<CashFlow>)
    requires SamePvs(a, b)
    ensures TotalPv(a) == TotalPv(b)
  {
    if |a| > 0 {
      TotalPvOfSamePvs(a[..|a| - 1], b[..|b| - 1]);
    }
  }

  /**
    On an increasing schedule a pricing loop pushes one cash flow per date
    after settlement, in schedule order: flow `n` is the payment at position
    `FirstAfter + n`, for the period that ends there.
   */
  lemma DueFlowsOfSorted(s: seq<int>, issue: int, settle: int, flow: (int, int) -> CashFlow)
    requires StrictlyIncreasing(s)
    ensures |DueFlows(s, issue, settle, flow)| == |s| - FirstAfter(s, settle)
    ensures forall n :: 0 <= n < |s| - FirstAfter(s, settle) ==>
      DueFlows(s, issue, settle, flow)[n] == flow(PeriodStart(s, FirstAfter(s, settle) + n, issue), s[FirstAfter(s, settle) + n])
  {
    DueOfSorted(s, settle);
  }

  // ---------------------------------------------------------------- fixed

  /** `priceBond`'s discount factor: `(1 + ytm / 100 / freq) ^ (-freq * yf)`, `yf` counted from settlement. */
  function FixedDiscount(t: Terms, pow: Pow, payDate: int): real
    requires 0 < t.freq
  {
    pow(1.0 + t.ytm / 100.0 / t.freq as real, -(t.freq as real) * YearFrac(t.settle, payDate))
  }

  /** One iteration of `priceBond`'s loop, for the period from `start` to `payDate`. */
  function FixedFlow(t: Terms, coupon: real, pow: Pow, start: int, payDate: int): CashFlow
    requires 0 < t.freq
  {
    var yf := YearFrac(start, payDate);
    var cf := Amount(t, coupon / 100.0, yf, payDate);
    CashFlow(payDate, yf, cf, cf * FixedDiscount(t, pow, payDate), coupon / 100.0, None)
  }

  function FixedFlowOf(t: Terms, coupon: real, pow: Pow): (int, int) -> CashFlow
    requires 0 < t.freq
  {
    (start, payDate) => FixedFlow(t, coupon, pow, start, payDate)
  }

  /** The cash flows `priceBond` pushes. */
  function FixedFlows(s: seq<int>, t: Terms, coupon: real, pow: Pow): seq<CashFlow>
    requires 0 < t.freq
  {
    DueFlows(s, t.issue, t.settle, FixedFlowOf(t, coupon, pow))
  }

  /** `priceBond` on a given schedule. */
  function PriceFixedOn(s: seq<int>, t: Terms, coupon: real, pow: Pow): Priced
    requires 0 < t.freq
  {
    var prev := FindPrev(s, t.settle);
    var accrued := if prev.Some? && t.settle >= prev.value then Coupon(t.fv, coupon / 100.0, YearFrac(prev.value, t.settle)) else 0.0;
    var cfs := FixedFlows(s, t, coupon, pow);
    var dirty := TotalPv(cfs);
    Priced(dirty, dirty - accrued, accrued, prev, FindNext(s, t.settle), cfs)
  }

  /** `priceBond({fv, coupon, ytm, freq, issue, settle, maturity})`. */
  function PriceBond(t: Terms, coupon: real, pow: Pow): Priced
    requires ValidFrequency(t.freq)
  {
    PriceFixedOn(BuildSchedule(t.issue, t.maturity, t.freq), t, coupon, pow)
  }

  // ------------------------------------------------------------- floating

  /** `priceFloatingBond`'s discount factor: `(1 + ytm / 100) ^ (-yf)`, annual whatever the frequency. */
  function FloatingDiscount(t: Terms, pow: Pow, payDate: int): real {
    pow(1.0 + t.ytm / 100.0, -YearFrac(t.settle, payDate))
  }

  /** The schedule entry and effective rate for the payment falling on `payDate`. */
  function RateOn(s: seq<int>, payDate: int, sched: seq<RateEntry>, baseBankRate: real): (RateEntry, real) {
    var e := GetInterestRate(sched, GetPaymentNumber(s, payDate));
    (e, EffectiveRate(e, baseBankRate))
  }

  /** One iteration of `priceFloatingBond`'s loop, for the period from `start` to `payDate`. */
  function FloatingFlow(s: seq<int>, t: Terms, sched: seq<RateEntry>, baseBankRate: real, pow: Pow, start: int, payDate: int): CashFlow {
    var yf := YearFrac(start, payDate);
    var (e, rate) := RateOn(s, payDate, sched, baseBankRate);
    var cf := Amount(t, rate, yf, payDate);
    CashFlow(payDate, yf, cf, cf * FloatingDiscount(t, pow, payDate), rate,
      Some(FloatingDetail(GetPaymentNumber(s, payDate), e.rate, baseBankRate)))
  }

  function FloatingFlowOf(s: seq<int>, t: Terms, sched: seq<RateEntry>, baseBankRate: real, pow: Pow): (int, int) -> CashFlow {
    (start, payDate) => FloatingFlow(s, t, sched, baseBankRate, pow, start, payDate)
  }

  /** The cash flows `priceFloatingBond` pushes. */
  function FloatingFlows(s: seq<int>, t: Terms, sched: seq<RateEntry>, baseBankRate: real, pow: Pow): seq<CashFlow> {
    DueFlows(s, t.issue, t.settle, FloatingFlowOf(s, t, sched, baseBankRate, pow))
  }

  /** `priceFloatingBond` on a given schedule; accrued interest uses the rate of the payment falling on `prev`. */
  function PriceFloatingOn(s: seq<int>, t: Terms, sched: seq<RateEntry>, baseBankRate: real, pow: Pow): Priced {
    var prev := FindPrev(s, t.settle);
    var accrued :=
      if prev.Some? && t.settle >= prev.value then Coupon(t.fv, RateOn(s, prev.value, sched, baseBankRate).1, YearFrac(prev.value, t.settle))
      else 0.0;
    var cfs := FloatingFlows(s, t, sched, baseBankRate, pow);
    var dirty := TotalPv(cfs);
    Priced(dirty, dirty - accrued, accrued, prev, FindNext(s, t.settle), cfs)
  }

  /** `priceFloatingBond({fv, ytm, freq, issue, settle, maturity, interestSchedule, baseBankRate})`. */
  function PriceFloatingBond(t: Terms, sched: seq<RateEntry>, baseBankRate: real, pow: Pow): Priced
    requires ValidFrequency(t.freq)
  {
    PriceFloatingOn(BuildSchedule(t.issue, t.maturity, t.freq), t, sched, baseBankRate, pow)
  }

  // ------------------------------------------------ properties, any schedule

  /**
    On an increasing schedule `priceBond` pays one cash flow per date after
    settlement, in schedule order: flow `n` falls on the date at position
    `FirstAfter + n` and covers the period that ends there.
   */
  lemma FixedFlowsFollowSchedule(s: seq<int>, t: Terms, coupon: real, pow: Pow)
    requires StrictlyIncreasing(s) && 0 < t.freq
    ensures |FixedFlows(s, t, coupon, pow)| == |s| - FirstAfter(s, t.settle)
    ensures forall n :: 0 <= n < |s| - FirstAfter(s, t.settle) ==>
      FixedFlows(s, t, coupon, pow)[n]
        == FixedFlow(t, coupon, pow, PeriodStart(s, FirstAfter(s, t.settle) + n, t.issue), s[FirstAfter(s, t.settle) + n])
  {
    DueFlowsOfSorted(s, t.issue, t.settle, FixedFlowOf(t, coupon, pow));
  }

  /** The same for `priceFloatingBond`. */
  lemma FloatingFlowsFollowSchedule(s: seq<int>, t: Terms, sched: seq<RateEntry>, baseBankRate: real, pow: Pow)
    requires StrictlyIncreasing(s)
    ensures |FloatingFlows(s, t, sched, baseBankRate, pow)| == |s| - FirstAfter(s, t.settle)
    ensures forall n :: 0 <= n < |s| - FirstAfter(s, t.settle) ==>
      FloatingFlows(s, t, sched, baseBankRate, pow)[n]
        == FloatingFlow(s, t, sched, baseBankRate, pow, PeriodStart(s, FirstAfter(s, t.settle) + n, t.issue), s[FirstAfter(s, t.settle) + n])
  {
    DueFlowsOfSorted(s, t.issue, t.settle, FloatingFlowOf(s, t, sched, baseBankRate, pow));
  }

  /** The payment dates of a list of cash flows, in order. */
  function FlowDates(cfs: seq<CashFlow>): seq<int> {
    seq(|cfs|, n requires 0 <= n < |cfs| => cfs[n].date)
  }

  /** On an increasing schedule `priceBond` pays on exactly the schedule dates after settlement, in order. */
  lemma FixedFlowDates(s: seq<int>, t: Terms, coupon: real, pow: Pow)
    requires StrictlyIncreasing(s) && 0 < t.freq
    ensures FlowDates(FixedFlows(s, t, coupon, pow)) == s[FirstAfter(s, t.settle)..]
  {
    FixedFlowsFollowSchedule(s, t, coupon, pow);
  }

  /** The same for `priceFloatingBond`. */
  lemma FloatingFlowDates(s: seq<int>, t: Terms, sched: seq<RateEntry>, baseBankRate: real, pow: Pow)
    requires StrictlyIncreasing(s)
    ensures FlowDates(FloatingFlows(s, t, sched, baseBankRate, pow)) == s[FirstAfter(s, t.settle)..]
  {
    FloatingFlowsFollowSchedule(s, t, sched, baseBankRate, pow);
  }

  /** `next` is the date of the first cash flow, and there is none exactly when there is no `next`. */
  lemma FixedNextIsFirstFlow(s: seq<int>, t: Terms, coupon: real, pow: Pow)
    requires StrictlyIncreasing(s) && 0 < t.freq
    ensures var p := PriceFixedOn(s, t, coupon, pow);
      (p.next.None? <==> |p.cfs| == 0) && (p.next.Some? ==> p.cfs[0].date == p.next.value)
  {
    FixedFlowsFollowSchedule(s, t, coupon, pow);
  }

  lemma FloatingNextIsFirstFlow(s: seq<int>, t: Terms, sched: seq<RateEntry>, baseBankRate: real, pow: Pow)
    requires StrictlyIncreasing(s)
    ensures var p := PriceFloatingOn(s, t, sched, baseBankRate, pow);
      (p.next.None? <==> |p.cfs| == 0) && (p.next.Some? ==> p.cfs[0].date == p.next.value)
  {
    FloatingFlowsFollowSchedule(s, t, sched, baseBankRate, pow);
  }

  /**
    On an increasing schedule ending at maturity, the face value is paid with
    the last cash flow and with no other.
   */
  lemma FixedFaceValueAtMaturity(s: seq<int>, t: Terms, coupon: real, pow: Pow)
    requires StrictlyIncreasing(s) && 0 < |s| && s[|s| - 1] == t.maturity && 0 < t.freq
    ensures var cfs := FixedFlows(s, t, coupon, pow);
      forall n :: 0 <= n < |cfs| ==>
        cfs[n].cf == Coupon(t.fv, cfs[n].rate, cfs[n].yf) + if n == |cfs| - 1 then t.fv else 0.0
  {
    var cfs := FixedFlows(s, t, coupon, pow);
    var f := FirstAfter(s, t.settle);
    FixedFlowsFollowSchedule(s, t, coupon, pow);
    forall n | 0 <= n < |cfs|
      ensures cfs[n].cf == Coupon(t.fv, cfs[n].rate, cfs[n].yf) + if n == |cfs| - 1 then t.fv else 0.0
    {
      var k := f + n;
      assert s[k] == t.maturity <==> n == |cfs| - 1 by {
        if n < |cfs| - 1 {
          assert s[k] < s[|s| - 1];
        }
      }
    }
  }

  lemma FloatingFaceValueAtMaturity(s: seq<int>, t: Terms, sched: seq<RateEntry>, baseBankRate: real, pow: Pow)
    requires StrictlyIncreasing(s) && 0 < |s| && s[|s| - 1] == t.maturity
    ensures var cfs := FloatingFlows(s, t, sched, baseBankRate, pow);
      forall n :: 0 <= n < |cfs| ==>
        cfs[n].cf == Coupon(t.fv, cfs[n].rate, cfs[n].yf) + if n == |cfs| - 1 then t.fv else 0.0
  {
    var cfs := FloatingFlows(s, t, sched, baseBankRate, pow);
    var f := FirstAfter(s, t.settle);
    FloatingFlowsFollowSchedule(s, t, sched, baseBankRate, pow);
    forall n | 0 <= n < |cfs|
      ensures cfs[n].cf == Coupon(t.fv, cfs[n].rate, cfs[n].yf) + if n == |cfs| - 1 then t.fv else 0.0
    {
      var k := f + n;
      assert s[k] == t.maturity <==> n == |cfs| - 1 by {
        if n < |cfs| - 1 {
          assert s[k] < s[|s| - 1];
        }
      }
    }
  }

  /**
    Flow `n` of a floating bond is priced at payment number `FirstAfter + n`
    (its position in the schedule): it uses the effective rate of that
    payment's schedule entry.
   */
  lemma FloatingRates(s: seq<int>, t: Terms, sched: seq<RateEntry>, baseBankRate: real, pow: Pow)
    requires StrictlyIncreasing(s)
    ensures var cfs := FloatingFlows(s, t, sched, baseBankRate, pow);
      forall n :: 0 <= n < |cfs| ==>
        cfs[n].rate == EffectiveRate(GetInterestRate(sched, FirstAfter(s, t.settle) + n), baseBankRate)
  {
    forall n | 0 <= n < |FloatingFlows(s, t, sched, baseBankRate, pow)| {
      FloatingRateAt(s, t, sched, baseBankRate, pow, n);
    }
  }

  lemma FloatingRateAt(s: seq<int>, t: Terms, sched: seq<RateEntry>, baseBankRate: real, pow: Pow, n: int)
    requires StrictlyIncreasing(s) && 0 <= n < |FloatingFlows(s, t, sched, baseBankRate, pow)|
    ensures FloatingFlows(s, t, sched, baseBankRate, pow)[n].rate
      == EffectiveRate(GetInterestRate(sched, FirstAfter(s, t.settle) + n), baseBankRate)
  {
    hide FloatingFlows, FloatingFlow, FirstAfter, PeriodStart;
    var k := FirstAfter(s, t.settle) + n;
    assert FloatingFlows(s, t, sched, baseBankRate, pow)[n] == FloatingFlow(s, t, sched, baseBankRate, pow, PeriodStart(s, k, t.issue), s[k]) by {
      FloatingFlowsFollowSchedule(s, t, sched, baseBankRate, pow);
    }
    FloatingFlowAt(s, t, sched, baseBankRate, pow, PeriodStart(s, k, t.issue), k);
  }

  /**
    The flow paid on the date at position `k` of an increasing schedule is
    priced at payment number `k`, and records that number, the entry's own
    rate and the bank rate.
   */
  lemma FloatingFlowAt(s: seq<int>, t: Terms, sched: seq<RateEntry>, baseBankRate: real, pow: Pow, start: int, k: int)
    requires StrictlyIncreasing(s) && 0 <= k < |s|
    ensures var c := FloatingFlow(s, t, sched, baseBankRate, pow, start, s[k]);
      c.rate == EffectiveRate(GetInterestRate(sched, k), baseBankRate) &&
      c.detail == Some(FloatingDetail(k, GetInterestRate(sched, k).rate, baseBankRate))
  {
    PaymentNumberIsIndex(s, k);
  }

  lemma CouponNonNegative(fv: real, rate: real, yf: real)
    requires 0.0 <= fv && 0.0 <= rate && 0.0 <= yf
    ensures 0.0 <= Coupon(fv, rate, yf)
  {
    assert 0.0 <= fv * rate;
  }

  /**
    `priceBond`'s accrued interest is zero without a previous coupon date;
    otherwise it is the coupon on the span from that date to settlement,
    never negative for a non-negative face value and coupon. The clean price
    is the dirty price less it.
   */
  lemma FixedAccrued(s: seq<int>, t: Terms, coupon: real, pow: Pow)
    requires 0 < t.freq
    ensures var p := PriceFixedOn(s, t, coupon, pow);
      (p.prev.None? ==> p.accrued == 0.0) &&
      (p.prev.Some? ==> p.prev.value <= t.settle && p.accrued == Coupon(t.fv, coupon / 100.0, YearFrac(p.prev.value, t.settle))) &&
      (0.0 <= t.fv && 0.0 <= coupon ==> 0.0 <= p.accrued) &&
      p.clean == p.dirty - p.accrued
  {
    var p := PriceFixedOn(s, t, coupon, pow);
    if p.prev.Some? && 0.0 <= t.fv && 0.0 <= coupon {
      CouponNonNegative(t.fv, coupon / 100.0, YearFrac(p.prev.value, t.settle));
    }
  }

  /**
    `priceFloatingBond`'s accrued interest is zero without a previous coupon
    date; otherwise it is the coupon, at the effective rate of the payment
    falling on that date, on the span from it to settlement.
   */
  lemma FloatingAccrued(s: seq<int>, t: Terms, sched: seq<RateEntry>, baseBankRate: real, pow: Pow)
    requires StrictlyIncreasing(s)
    ensures var p := PriceFloatingOn(s, t, sched, baseBankRate, pow);
      (p.prev.None? ==> p.accrued == 0.0) &&
      (p.prev.Some? ==> p.prev.value <= t.settle) &&
      (p.prev.Some? ==>
        p.accrued == Coupon(t.fv, EffectiveRate(GetInterestRate(sched, LastAtOrBefore(s, t.settle)), baseBankRate), YearFrac(p.prev.value, t.settle))) &&
      p.clean == p.dirty - p.accrued
  {
    if 0 <= LastAtOrBefore(s, t.settle) {
      PaymentNumberIsIndex(s, LastAtOrBefore(s, t.settle));
    }
  }

  // ----------------------------------------- a fixed coupon as a floating one

  /** The one-entry floating schedule that stands for a fixed coupon. */
  function FixedSchedule(coupon: real): seq<RateEntry> {
    [RateEntry(coupon / 100.0, 0, false, None)]
  }

  lemma FixedScheduleRate(coupon: real, baseBankRate: real, p: nat)
    ensures EffectiveRate(GetInterestRate(FixedSchedule(coupon), p), baseBankRate) == coupon / 100.0
  {
  }

  /**
    Pricing the same period both ways gives the same date, period, amount
    and rate; with one payment a year the present value agrees too.
   */
  lemma FixedFlowAsFloating(s: seq<int>, t: Terms, coupon: real, baseBankRate: real, pow: Pow, start: int, payDate: int)
    requires 0 < t.freq
    ensures var a := FixedFlow(t, coupon, pow, start, payDate);
      var b := FloatingFlow(s, t, FixedSchedule(coupon), baseBankRate, pow, start, payDate);
      a.date == b.date && a.yf == b.yf && a.cf == b.cf && a.rate == b.rate && (t.freq == 1 ==> a.pv == b.pv)
  {
    FixedScheduleRate(coupon, baseBankRate, GetPaymentNumber(s, payDate));
    if t.freq == 1 {
      assert FixedDiscount(t, pow, payDate) == FloatingDiscount(t, pow, payDate);
    }
  }

  /** Flow `n` of both pricings: the same period, priced as in `FixedFlowAsFloating`. */
  lemma FixedAsFloatingAt(s: seq<int>, t: Terms, coupon: real, baseBankRate: real, pow: Pow, n: int)
    requires 0 < t.freq && 0 <= n < |FixedFlows(s, t, coupon, pow)|
    ensures |FloatingFlows(s, t, FixedSchedule(coupon), baseBankRate, pow)| == |FixedFlows(s, t, coupon, pow)|
    ensures var a := FixedFlows(s, t, coupon, pow)[n];
      var b := FloatingFlows(s, t, FixedSchedule(coupon), baseBankRate, pow)[n];
      a.date == b.date && a.yf == b.yf && a.cf == b.cf && a.rate == b.rate && (t.freq == 1 ==> a.pv == b.pv)
  {
    var ks := Due(s, t.settle, 0);
    var start := PeriodStart(s, ks[n], t.issue);
    assert FixedFlows(s, t, coupon, pow)[n] == FixedFlow(t, coupon, pow, start, s[ks[n]]);
    assert FloatingFlows(s, t, FixedSchedule(coupon), baseBankRate, pow)[n]
      == FloatingFlow(s, t, FixedSchedule(coupon), baseBankRate, pow, start, s[ks[n]]);
    FixedFlowAsFloating(s, t, coupon, baseBankRate, pow, start, s[ks[n]]);
  }

  /**
    A fixed coupon is a floating schedule of one entry, from payment 0, that
    ignores the bank rate: `priceBond` and `priceFloatingBond` then agree on
    `prev`, `next`, the accrued interest, and every cash flow's date, period,
    amount and rate. Only the discounting differs (`(1 + y / freq) ^ (-freq t)`
    against `(1 + y) ^ (-t)`), so with one payment a year the prices agree too.
   */
  lemma FixedAsFloating(s: seq<int>, t: Terms, coupon: real, baseBankRate: real, pow: Pow)
    requires 0 < t.freq
    ensures var f := PriceFixedOn(s, t, coupon, pow);
      var g := PriceFloatingOn(s, t, FixedSchedule(coupon), baseBankRate, pow);
      f.prev == g.prev && f.next == g.next && f.accrued == g.accrued && |f.cfs| == |g.cfs| &&
      forall n :: 0 <= n < |f.cfs| ==>
        f.cfs[n].date == g.cfs[n].date && f.cfs[n].yf == g.cfs[n].yf && f.cfs[n].cf == g.cfs[n].cf && f.cfs[n].rate == g.cfs[n].rate
    ensures t.freq == 1 ==>
      var f := PriceFixedOn(s, t, coupon, pow);
      var g := PriceFloatingOn(s, t, FixedSchedule(coupon), baseBankRate, pow);
      f.dirty == g.dirty && f.clean == g.clean
  {
    var f := PriceFixedOn(s, t, coupon, pow);
    var g := PriceFloatingOn(s, t, FixedSchedule(coupon), baseBankRate, pow);
    forall n | 0 <= n < |f.cfs|
      ensures f.cfs[n].date == g.cfs[n].date && f.cfs[n].yf == g.cfs[n].yf && f.cfs[n].cf == g.cfs[n].cf && f.cfs[n].rate == g.cfs[n].rate
      ensures t.freq == 1 ==> f.cfs[n].pv == g.cfs[n].pv
    {
      FixedAsFloatingAt(s, t, coupon, baseBankRate, pow, n);
    }
    if f.prev.Some? {
      FixedScheduleRate(coupon, baseBankRate, GetPaymentNumber(s, f.prev.value));
    }
    if t.freq == 1 {
      TotalPvOfSamePvs(f.cfs, g.cfs);
    }
  }

  // ------------------------------------------- properties of the bond prices

  /**
    For an issue date on or before maturity, `priceBond` has no `prev`
    exactly when settlement precedes the issue date, and no `next` exactly
    when settlement is on or after maturity.
   */
  lemma PriceBondPrevNext(t: Terms, coupon: real, pow: Pow)
    requires ValidFrequency(t.freq) && t.issue <= t.maturity
    ensures var p := PriceBond(t, coupon, pow);
      (p.prev.None? <==> t.settle < t.issue) && (p.next.None? <==> t.maturity <= t.settle)
  {
    hide BuildSchedule, FixedFlows, TotalPv;
    var s := BuildSchedule(t.issue, t.maturity, t.freq);
    BuildScheduleSpan(t.issue, t.maturity, t.freq);
    FindPrevNextBounds(s, t.settle);
  }

  /** `priceBond` pays on exactly the schedule dates after settlement, in order. */
  lemma PriceBondDates(t: Terms, coupon: real, pow: Pow)
    requires ValidFrequency(t.freq)
    ensures var s := BuildSchedule(t.issue, t.maturity, t.freq);
      FlowDates(PriceBond(t, coupon, pow).cfs) == s[FirstAfter(s, t.settle)..]
  {
    var s := BuildSchedule(t.issue, t.maturity, t.freq);
    assert PriceFixedOn(s, t, coupon, pow).cfs == FixedFlows(s, t, coupon, pow);
    assert FlowDates(FixedFlows(s, t, coupon, pow)) == s[FirstAfter(s, t.settle)..] by {
      BuildScheduleIncreasing(t.issue, t.maturity, t.freq);
      FixedFlowDates(s, t, coupon, pow);
    }
  }

  /** For an issue date on or before maturity, `priceBond` pays the face value with its last cash flow only. */
  lemma PriceBondFaceValue(t: Terms, coupon: real, pow: Pow)
    requires ValidFrequency(t.freq) && t.issue <= t.maturity
    ensures var cfs := PriceBond(t, coupon, pow).cfs;
      forall n :: 0 <= n < |cfs| ==>
        cfs[n].cf == Coupon(t.fv, cfs[n].rate, cfs[n].yf) + if n == |cfs| - 1 then t.fv else 0.0
  {
    var s := BuildSchedule(t.issue, t.maturity, t.freq);
    BuildScheduleSpan(t.issue, t.maturity, t.freq);
    FixedFaceValueAtMaturity(s, t, coupon, pow);
  }

  /** Once maturity has passed, `priceBond` has no cash flows left and a dirty price of 0. */
  lemma PriceBondAfterMaturity(t: Terms, coupon: real, pow: Pow)
    requires ValidFrequency(t.freq) && t.issue <= t.maturity <= t.settle
    ensures var p := PriceBond(t, coupon, pow);
      p.cfs == [] && p.dirty == 0.0 && p.next == None
  {
    var s := BuildSchedule(t.issue, t.maturity, t.freq);
    PriceBondPrevNext(t, coupon, pow);
    BuildScheduleIncreasing(t.issue, t.maturity, t.freq);
    FixedNextIsFirstFlow(s, t, coupon, pow);
  }

  /** The `prev` and `next` facts of `PriceBondPrevNext`, for `priceFloatingBond`. */
  lemma PriceFloatingBondPrevNext(t: Terms, sched: seq<RateEntry>, baseBankRate: real, pow: Pow)
    requires ValidFrequency(t.freq) && t.issue <= t.maturity
    ensures var p := PriceFloatingBond(t, sched, baseBankRate, pow);
      (p.prev.None? <==> t.settle < t.issue) && (p.next.None? <==> t.maturity <= t.settle)
  {
    hide BuildSchedule, FloatingFlows, TotalPv, RateOn;
    var s := BuildSchedule(t.issue, t.maturity, t.freq);
    BuildScheduleSpan(t.issue, t.maturity, t.freq);
    FindPrevNextBounds(s, t.settle);
  }

  /** `priceFloatingBond` pays on exactly the schedule dates after settlement, in order. */
  lemma PriceFloatingBondDates(t: Terms, sched: seq<RateEntry>, baseBankRate: real, pow: Pow)
    requires ValidFrequency(t.freq)
    ensures var s := BuildSchedule(t.issue, t.maturity, t.freq);
      FlowDates(PriceFloatingBond(t, sched, baseBankRate, pow).cfs) == s[FirstAfter(s, t.settle)..]
  {
    var s := BuildSchedule(t.issue, t.maturity, t.freq);
    assert PriceFloatingOn(s, t, sched, baseBankRate, pow).cfs == FloatingFlows(s, t, sched, baseBankRate, pow);
    assert FlowDates(FloatingFlows(s, t, sched, baseBankRate, pow)) == s[FirstAfter(s, t.settle)..] by {
      BuildScheduleIncreasing(t.issue, t.maturity, t.freq);
      FloatingFlowDates(s, t, sched, baseBankRate, pow);
    }
  }

  /** For an issue date on or before maturity, `priceFloatingBond` pays the face value with its last cash flow only. */
  lemma PriceFloatingBondFaceValue(t: Terms, sched: seq<RateEntry>, baseBankRate: real, pow: Pow)
    requires ValidFrequency(t.freq) && t.issue <= t.maturity
    ensures var cfs := PriceFloatingBond(t, sched, baseBankRate, pow).cfs;
      forall n :: 0 <= n < |cfs| ==>
        cfs[n].cf == Coupon(t.fv, cfs[n].rate, cfs[n].yf) + if n == |cfs| - 1 then t.fv else 0.0
  {
    var s := BuildSchedule(t.issue, t.maturity, t.freq);
    BuildScheduleSpan(t.issue, t.maturity, t.freq);
    FloatingFaceValueAtMaturity(s, t, sched, baseBankRate, pow);
  }

  /** Once maturity has passed, `priceFloatingBond` has no cash flows left and a dirty price of 0. */
  lemma PriceFloatingBondAfterMaturity(t: Terms, sched: seq<RateEntry>, baseBankRate: real, pow: Pow)
    requires ValidFrequency(t.freq) && t.issue <= t.maturity <= t.settle
    ensures var p := PriceFloatingBond(t, sched, baseBankRate, pow);
      p.cfs == [] && p.dirty == 0.0 && p.next == None
  {
    var s := BuildSchedule(t.issue, t.maturity, t.freq);
    PriceFloatingBondPrevNext(t, sched, baseBankRate, pow);
    BuildScheduleIncreasing(t.issue, t.maturity, t.freq);
    FloatingNextIsFirstFlow(s, t, sched, baseBankRate, pow);
  }

  /** `priceBond` is `priceFloatingBond` with a one-entry fixed schedule, up to discounting; exactly so with one payment a year. */
  lemma PriceBondAsFloating(t: Terms, coupon: real, baseBankRate: real, pow: Pow)
    requires ValidFrequency(t.freq)
    ensures var f := PriceBond(t, coupon, pow);
      var g := PriceFloatingBond(t, FixedSchedule(coupon), baseBankRate, pow);
      f.prev == g.prev && f.next == g.next && f.accrued == g.accrued && |f.cfs| == |g.cfs| &&
      forall n :: 0 <= n < |f.cfs| ==>
        f.cfs[n].date == g.cfs[n].date && f.cfs[n].yf == g.cfs[n].yf && f.cfs[n].cf == g.cfs[n].cf && f.cfs[n].rate == g.cfs[n].rate
    ensures t.freq == 1 ==>
      PriceBond(t, coupon, pow).dirty == PriceFloatingBond(t, FixedSchedule(coupon), baseBankRate, pow).dirty
  {
    FixedAsFloating(BuildSchedule(t.issue, t.maturity, t.freq), t, coupon, baseBankRate, pow);
  }
}
