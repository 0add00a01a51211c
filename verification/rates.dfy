/**
  Floating-rate resolution of `utils.js`: the step schedule of rates
  (`getInterestRate`), the effective rate of an entry (bank rate added to
  floating entries, raised to the floor), and the mean of the reference
  banks' rates (`calculateAverageBankRate`). Rates are exact reals.
 */
module Rates {
  import opened Wrappers

  /**
    One entry of an interest schedule: the rate, the first payment number it
    applies to, whether the bank rate is added to it, and an optional floor.
   */
  datatype RateEntry = RateEntry(rate: real, payment: int, isFloat: bool, floorRate: Option<real>)

  /** What `getInterestRate` returns for an empty schedule: `{rate: 0, payment: 0, isFloat: false}`. */
  const DefaultEntry := RateEntry(0.0, 0, false, None)

  /**
    The backward scan of `getInterestRate` over the entries before position
    `i`: the index of the last one whose payment number is at most `p`, or
    -1 when there is none.
   */
  function ScanBack(sched: seq<RateEntry>, p: int, i: int): (r: int)
    requires 0 <= i <= |sched|
    ensures -1 <= r < i
  {
    if i == 0 then -1
    else if p >= sched[i - 1].payment then i - 1
    else ScanBack(sched, p, i - 1)
  }

  /** The index `getInterestRate` settles on, or -1 when no entry applies yet. */
  function LastApplicable(sched: seq<RateEntry>, p: int): int {
    ScanBack(sched, p, |sched|)
  }

  /** `getInterestRate`. */
  function GetInterestRate(sched: seq<RateEntry>, p: int): RateEntry {
    var r := LastApplicable(sched, p);
    if 0 <= r then sched[r] else if 0 < |sched| then sched[0] else DefaultEntry
  }

  lemma {:induction false} ScanBackFindsLast(sched: seq<RateEntry>, p: int, i: int)
    requires 0 <= i <= |sched|
    ensures 0 <= ScanBack(sched, p, i) ==> sched[ScanBack(sched, p, i)].payment <= p
    ensures forall j :: ScanBack(sched, p, i) < j < i ==> sched[j].payment > p
    decreases i
  {
    if i > 0 && p < sched[i - 1].payment {
      ScanBackFindsLast(sched, p, i - 1);
    }
  }

  /**
    `getInterestRate` returns the highest-indexed entry whose payment number
    is at most `p`; when there is none, the first entry; for an empty
    schedule, the default entry.
   */
  lemma GetInterestRateSpec(sched: seq<RateEntry>, p: int)
    ensures -1 <= LastApplicable(sched, p) < |sched|
    ensures 0 <= LastApplicable(sched, p) ==>
      sched[LastApplicable(sched, p)].payment <= p && GetInterestRate(sched, p) == sched[LastApplicable(sched, p)]
    ensures forall j :: LastApplicable(sched, p) < j < |sched| ==> sched[j].payment > p
    ensures LastApplicable(sched, p) < 0 && 0 < |sched| ==> GetInterestRate(sched, p) == sched[0]
    ensures |sched| == 0 ==> GetInterestRate(sched, p) == DefaultEntry
  {
    ScanBackFindsLast(sched, p, |sched|);
  }

  /** Payment numbers strictly increase along the schedule. */
  predicate SortedByPayment(sched: seq<RateEntry>) {
    forall j, k :: 0 <= j < k < |sched| ==> sched[j].payment < sched[k].payment
  }

  /**
    On a schedule sorted by payment number, entry `i` governs exactly the
    payment numbers from its own up to (not including) the next entry's.
   */
  lemma GetInterestRateStep(sched: seq<RateEntry>, i: int, p: int)
    requires SortedByPayment(sched) && 0 <= i < |sched|
    requires sched[i].payment <= p
    requires i + 1 < |sched| ==> p < sched[i + 1].payment
    ensures GetInterestRate(sched, p) == sched[i]
  {
    GetInterestRateSpec(sched, p);
  }

  /** A later payment never falls back to an earlier entry, whether or not the schedule is sorted. */
  lemma LastApplicableMonotone(sched: seq<RateEntry>, p: int, q: int)
    requires p <= q
    ensures LastApplicable(sched, p) <= LastApplicable(sched, q)
  {
    GetInterestRateSpec(sched, p);
    GetInterestRateSpec(sched, q);
  }

  /** The rate before the floor: the entry's rate, plus the bank rate for a floating entry. */
  function RawRate(e: RateEntry, baseBankRate: real): real {
    e.rate + if e.isFloat then baseBankRate else 0.0
  }

  /** A floor takes part only when it is present and non-zero (a JavaScript truthy number). */
  predicate HasFloor(e: RateEntry) {
    e.floorRate.Some? && e.floorRate.value != 0.0
  }

  function Max(a: real, b: real): real {
    if a < b then b else a
  }

  /** The effective rate `priceFloatingBond` uses for an entry: raised to the floor when below it. */
  function EffectiveRate(e: RateEntry, baseBankRate: real): real {
    var raw := RawRate(e, baseBankRate);
    if HasFloor(e) && raw < e.floorRate.value then e.floorRate.value else raw
  }

  /**
    The effective rate never lies below the raw rate; with a floor it is the
    larger of the two, without one it is the raw rate.
   */
  lemma EffectiveRateSpec(e: RateEntry, baseBankRate: real)
    ensures EffectiveRate(e, baseBankRate) >= RawRate(e, baseBankRate)
    ensures HasFloor(e) ==> EffectiveRate(e, baseBankRate) == Max(RawRate(e, baseBankRate), e.floorRate.value)
    ensures HasFloor(e) ==> EffectiveRate(e, baseBankRate) >= e.floorRate.value
    ensures !HasFloor(e) ==> EffectiveRate(e, baseBankRate) == RawRate(e, baseBankRate)
  {
  }

  function Sum(xs: seq<real>): real {
    if |xs| == 0 then 0.0 else Sum(xs[..|xs| - 1]) + xs[|xs| - 1]
  }

  /** The arithmetic mean, 0 for no values. */
  function Mean(xs: seq<real>): real {
    if |xs| == 0 then 0.0 else Sum(xs) / |xs| as real
  }

  /** The rates of the listed banks that appear in the table, in list order (a bank listed twice counts twice). */
  function PresentRates(banks: seq<string>, bankRates: map<string, real>): (xs: seq<real>)
    ensures |xs| <= |banks|
  {
    if |banks| == 0 then []
    else
      var last := banks[|banks| - 1];
      PresentRates(banks[..|banks| - 1], bankRates) + if last in bankRates then [bankRates[last]] else []
  }

  /** When every listed bank has a rate, the present rates are exactly the listed banks' rates. */
  lemma {:induction false} PresentRatesAllListed(banks: seq<string>, bankRates: map<string, real>)
    requires forall i :: 0 <= i < |banks| ==> banks[i] in bankRates
    ensures |PresentRates(banks, bankRates)| == |banks|
    ensures forall i :: 0 <= i < |banks| ==> PresentRates(banks, bankRates)[i] == bankRates[banks[i]]
  {
    if |banks| > 0 {
      PresentRatesAllListed(banks[..|banks| - 1], bankRates);
    }
  }

  /**
    `calculateAverageBankRate`: 0 for a missing or empty list, otherwise the
    mean rate of the listed banks present in the table, 0 when none is.
   */
  method CalculateAverageBankRate(referenceBank: Option<seq<string>>, bankRates: map<string, real>)
    returns (avg: real)
    ensures referenceBank.None? ==> avg == 0.0
    ensures referenceBank.Some? ==> avg == Mean(PresentRates(referenceBank.value, bankRates))
  {
    if referenceBank.None? || |referenceBank.value| == 0 {
      return 0.0;
    }
    var banks := referenceBank.value;
    var sum := 0.0;
    var count := 0;
    for i := 0 to |banks|
      invariant sum == Sum(PresentRates(banks[..i], bankRates))
      invariant count == |PresentRates(banks[..i], bankRates)|
    {
      var prefix := PresentRates(banks[..i], bankRates);
      assert banks[..i + 1][..i] == banks[..i];
      if banks[i] in bankRates {
        var xs := prefix + [bankRates[banks[i]]];
        assert PresentRates(banks[..i + 1], bankRates) == xs;
        assert xs[..|xs| - 1] == prefix;
        assert Sum(xs) == Sum(prefix) + bankRates[banks[i]];
        sum := sum + bankRates[banks[i]];
        count := count + 1;
      } else {
        assert PresentRates(banks[..i + 1], bankRates) == prefix + [];
        assert prefix + [] == prefix;
      }
    }
    assert banks[..|banks|] == banks;
    avg := if count > 0 then sum / count as real else 0.0;
  }

  lemma {:induction false} SumBounds(xs: seq<real>, lo: real, hi: real)
    requires forall i :: 0 <= i < |xs| ==> lo <= xs[i] <= hi
    ensures |xs| as real * lo <= Sum(xs) <= |xs| as real * hi
  {
    if |xs| > 0 {
      var n := |xs| as real;
      SumBounds(xs[..|xs| - 1], lo, hi);
      assert n * lo == (n - 1.0) * lo + lo;
      assert n * hi == (n - 1.0) * hi + hi;
    }
  }

  /** The mean of rates that all lie in `[lo, hi]` lies in `[lo, hi]`. */
  lemma MeanBounds(xs: seq<real>, lo: real, hi: real)
    requires 0 < |xs|
    requires forall i :: 0 <= i < |xs| ==> lo <= xs[i] <= hi
    ensures lo <= Mean(xs) <= hi
  {
    var n := |xs| as real;
    SumBounds(xs, lo, hi);
    assert Mean(xs) - lo == (Sum(xs) - n * lo) / n;
    assert hi - Mean(xs) == (n * hi - Sum(xs)) / n;
  }
}
