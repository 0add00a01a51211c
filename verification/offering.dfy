/**
  The bond list of the offering tab (`getBondsForDuration` in
  `js/introTab.js`): for an investment of one of five durations starting on
  a given day, which bonds are offered, what is shown for each, and in which
  order. For one and two months only bonds paying no coupon during the
  period (and whose record date for the following coupon does not fall in
  it) are offered; for longer durations every live bond is, with a flag
  telling whether a coupon falls in the period. The list is sorted by the
  next coupon date, latest first, bonds without one last.
 */
module Offering {
  import opened Wrappers
  import opened Civil
  import opened IntroCalendar
  import DateText
  import Schedule

  /** The keys of `durationMonths`. */
  datatype Duration = OneMonth | TwoMonths | ThreeMonths | SixMonths | OneYear

  /** `durationMonths`: "1M", "2M", "3M", "6M", "1Y". */
  function Months(d: Duration): nat {
    match d
    case OneMonth => 1
    case TwoMonths => 2
    case ThreeMonths => 3
    case SixMonths => 6
    case OneYear => 12
  }

  /** For "1M" and "2M" only bonds without a coupon in the period are offered. */
  predicate WantsNoCoupon(d: Duration) {
    d == OneMonth || d == TwoMonths
  }

  /**
    A bond of the offering data: its code, issue and maturity dates (day
    numbers), coupons per year, and the optional number of working days of
    its record period.
   */
  datatype Bond = Bond(code: string, issue: int, maturity: int, frequency: int, recordDays: Option<int>)

  /** `bond.recordDays || 10`: a missing or zero count means 10 working days. */
  function RecordingDays(b: Bond): int {
    if b.recordDays.Some? && b.recordDays.value != 0 then b.recordDays.value else 10
  }

  /** The last day of the investment: `addMonths(startDate, durationMonths[duration])`. */
  function EndDate(start: int, d: Duration): int {
    AddMonths(start, Months(d))
  }

  /** The period runs at least four weeks per month past the start. */
  lemma EndDateAfterStart(start: int, d: Duration)
    ensures start + 28 * Months(d) <= EndDate(start, d)
  {
    AddMonthsZero(start);
    AddMonthsApart(start, 0, Months(d));
  }

  /**
    One step of the coupon scan: the coupon date falls in the period, or after
    it with the end date inside its record period (from the day `rd` working
    days before the coupon up to the day before it).
   */
  predicate CouponHits(c: int, start: int, end: int, rd: int) {
    (start < c && c <= end) || (c > end && end >= SubtractWorkingDays(c, rd) && end < c)
  }

  /** The scan for `hasCouponInPeriod` from position `i` on; it stops at the first hit. */
  function CouponInPeriodFrom(s: seq<int>, start: int, end: int, rd: int, i: nat): bool
    requires i <= |s|
    decreases |s| - i
  {
    if i == |s| then false
    else if CouponHits(s[i], start, end, rd) then true
    else CouponInPeriodFrom(s, start, end, rd, i + 1)
  }

  /** The scan from position `i` finds a hit exactly when some date from position `i` on is one. */
  lemma {:induction false} CouponInPeriodFromSpec(s: seq<int>, start: int, end: int, rd: int, i: nat)
    requires i <= |s|
    ensures CouponInPeriodFrom(s, start, end, rd, i) <==> exists k :: i <= k < |s| && CouponHits(s[k], start, end, rd)
    decreases |s| - i
  {
    if i < |s| && !CouponHits(s[i], start, end, rd) {
      CouponInPeriodFromSpec(s, start, end, rd, i + 1);
      if exists k :: i <= k < |s| && CouponHits(s[k], start, end, rd) {
        var k :| i <= k < |s| && CouponHits(s[k], start, end, rd);
        assert k != i;
      }
    }
  }

  /** `hasCouponInPeriod` for the schedule `s`. */
  function HasCouponInPeriod(s: seq<int>, start: int, end: int, rd: int): bool {
    CouponInPeriodFrom(s, start, end, rd, 0)
  }

  /**
    For a period that does not end before it starts, a coupon is flagged
    exactly when some schedule date lies after the start and either on or
    before the end, or after it with fewer than `rd` weekdays in between.
   */
  lemma HasCouponMeaning(s: seq<int>, start: int, end: int, rd: int)
    requires start <= end
    ensures HasCouponInPeriod(s, start, end, rd) <==>
      exists k :: 0 <= k < |s| && start < s[k] && (s[k] <= end || WeekdaysBetween(end, s[k]) < rd)
  {
    CouponInPeriodFromSpec(s, start, end, rd, 0);
    forall k | 0 <= k < |s|
      ensures CouponHits(s[k], start, end, rd) <==> start < s[k] && (s[k] <= end || WeekdaysBetween(end, s[k]) < rd)
    {
      RecordingWindow(s[k], rd, end);
    }
  }

  /** What the list shows for one bond. */
  datatype Listing = Listing(code: string, nextCoupon: Option<int>, nextCouponFormatted: string, hasCoupon: Option<bool>)

  /** `nextCoupon ? formatDateVN(nextCoupon) : "N/A"`. */
  function Formatted(next: Option<int>): string {
    if next.Some? then DateText.FormatDateVN(next.value) else "N/A"
  }

  function BondSchedule(b: Bond): seq<int>
    requires Schedule.ValidFrequency(b.frequency)
  {
    IntroCalendar.BuildSchedule(b.issue, b.maturity, b.frequency)
  }

  /** `hasCouponInPeriod` for bond `b`. */
  function BondHasCoupon(b: Bond, d: Duration, start: int): bool
    requires Schedule.ValidFrequency(b.frequency)
  {
    HasCouponInPeriod(BondSchedule(b), start, EndDate(start, d), RecordingDays(b))
  }

  function NextCoupon(b: Bond, start: int): Option<int>
    requires Schedule.ValidFrequency(b.frequency)
  {
    FindNextCoupon(b.issue, b.maturity, b.frequency, start)
  }

  /** The loop body for one bond: the listing it pushes, if any. */
  function Entry(b: Bond, d: Duration, start: int): Option<Listing>
    requires Schedule.ValidFrequency(b.frequency)
  {
    if b.maturity <= start then None
    else
      var has := BondHasCoupon(b, d, start);
      var next := NextCoupon(b, start);
      if WantsNoCoupon(d) && !has then Some(Listing(b.code, next, Formatted(next), None))
      else if !WantsNoCoupon(d) then Some(Listing(b.code, next, Formatted(next), Some(has)))
      else None
  }

  /** A bond is offered when it has not matured by the start and, for one or two months, pays no coupon in the period. */
  predicate Offered(b: Bond, d: Duration, start: int)
    requires Schedule.ValidFrequency(b.frequency)
  {
    start < b.maturity && (WantsNoCoupon(d) ==> !BondHasCoupon(b, d, start))
  }

  /**
    A pushed listing carries the bond's code, its next coupon and that
    date's text, and the coupon flag exactly for the longer durations.
   */
  lemma EntryFields(b: Bond, d: Duration, start: int)
    requires Schedule.ValidFrequency(b.frequency)
    ensures var e := Entry(b, d, start);
      e.Some? ==>
        e.value.code == b.code && e.value.nextCoupon == NextCoupon(b, start) &&
        e.value.nextCouponFormatted == Formatted(e.value.nextCoupon) &&
        (e.value.hasCoupon.None? <==> WantsNoCoupon(d)) &&
        (e.value.hasCoupon.Some? ==> e.value.hasCoupon.value == BondHasCoupon(b, d, start))
  {
    var next := NextCoupon(b, start);
    var text := Formatted(next);
    var has := BondHasCoupon(b, d, start);
    if start < b.maturity {
      if WantsNoCoupon(d) && !has {
        assert Entry(b, d, start) == Some(Listing(b.code, next, text, None));
      } else if !WantsNoCoupon(d) {
        assert Entry(b, d, start) == Some(Listing(b.code, next, text, Some(has)));
      }
    }
  }

  /** The loop body pushes a listing exactly for an offered bond. */
  lemma EntryOffered(b: Bond, d: Duration, start: int)
    requires Schedule.ValidFrequency(b.frequency)
    ensures Entry(b, d, start).Some? <==> Offered(b, d, start)
  {
  }

  /**
    When no coupon is flagged, every schedule date after the start lies
    after the end, with at least `rd` weekdays from the day after the end up
    to it.
   */
  lemma NoCouponMeansLater(s: seq<int>, start: int, end: int, rd: int, c: int)
    requires start <= end && !HasCouponInPeriod(s, start, end, rd)
    requires c in s && start < c
    ensures end < c && rd <= WeekdaysBetween(end, c)
  {
    HasCouponMeaning(s, start, end, rd);
  }

  /**
    For one or two months, an offered bond has its next coupon after the end of the period, with at least its
    record-period length of weekdays from the day after the end up to it.
   */
  lemma OfferedNextCouponAfterPeriod(b: Bond, d: Duration, start: int)
    requires Schedule.ValidFrequency(b.frequency)
    requires Offered(b, d, start) && WantsNoCoupon(d)
    ensures NextCoupon(b, start).Some?
    ensures EndDate(start, d) < NextCoupon(b, start).value
    ensures RecordingDays(b) <= WeekdaysBetween(EndDate(start, d), NextCoupon(b, start).value)
  {
    BondNextCoupon(b, start);
    EndDateAfterStart(start, d);
    NoCouponMeansLater(BondSchedule(b), start, EndDate(start, d), RecordingDays(b), NextCoupon(b, start).value);
  }

  /**
    A bond has a next coupon in its schedule while it is live: the last
    schedule date is maturity, or the issue date when that is later.
   */
  lemma BondNextCoupon(b: Bond, start: int)
    requires Schedule.ValidFrequency(b.frequency) && start < b.maturity
    ensures NextCoupon(b, start).Some? && NextCoupon(b, start).value in BondSchedule(b)
    ensures start < NextCoupon(b, start).value
  {
    FindNextCouponSpec(b.issue, b.maturity, b.frequency, start);
  }

  predicate AllValid(bonds: seq<Bond>) {
    forall i :: 0 <= i < |bonds| ==> Schedule.ValidFrequency(bonds[i].frequency)
  }

  /** The loop body's outcome for each bond, in bond order. */
  function Entries(bonds: seq<Bond>, d: Duration, start: int): seq<Option<Listing>>
    requires AllValid(bonds)
  {
    seq(|bonds|, i requires 0 <= i < |bonds| => Entry(bonds[i], d, start))
  }

  /** The values present in `es`, in order. */
  function Somes<T>(es: seq<Option<T>>): (xs: seq<T>)
    ensures |xs| <= |es|
  {
    if |es| == 0 then []
    else
      var e := es[|es| - 1];
      Somes(es[..|es| - 1]) + if e.Some? then [e.value] else []
  }

  lemma {:induction false} SomesSpec<T>(es: seq<Option<T>>)
    ensures forall x :: x in Somes(es) <==> exists i :: 0 <= i < |es| && es[i] == Some(x)
  {
    if |es| > 0 {
      var front := es[..|es| - 1];
      SomesSpec(front);
      forall x
        ensures x in Somes(es) <==> exists i :: 0 <= i < |es| && es[i] == Some(x)
      {
        if x in Somes(front) {
          var i :| 0 <= i < |front| && front[i] == Some(x);
          assert es[i] == Some(x);
        }
        if exists i :: 0 <= i < |es| && es[i] == Some(x) {
          var i :| 0 <= i < |es| && es[i] == Some(x);
          if i < |front| {
            assert front[i] == Some(x);
          }
        }
      }
    }
  }

  /** The listings the loop over `bonds` pushes, in bond order. */
  function Select(bonds: seq<Bond>, d: Duration, start: int): (ls: seq<Listing>)
    requires AllValid(bonds)
    ensures |ls| <= |bonds|
  {
    Somes(Entries(bonds, d, start))
  }

  /** A further bond adds at most one listing, after those of the bonds before it: its own, when it is offered. */
  lemma SelectAppend(bonds: seq<Bond>, b: Bond, d: Duration, start: int)
    requires AllValid(bonds) && Schedule.ValidFrequency(b.frequency)
    ensures AllValid(bonds + [b])
    ensures Select(bonds + [b], d, start) ==
      Select(bonds, d, start) + if Offered(b, d, start) then [Entry(b, d, start).value] else []
  {
    var es := Entries(bonds + [b], d, start);
    assert es[..|bonds|] == Entries(bonds, d, start);
    assert es[|bonds|] == Entry(b, d, start);
    EntryOffered(b, d, start);
  }

  /**
    For one or two months a live bond is listed exactly when no schedule date
    falls after the start and on or before the end, and no schedule date after
    the end has the end in its record period.
   */
  lemma ShortDurationRule(b: Bond, d: Duration, start: int)
    requires Schedule.ValidFrequency(b.frequency) && WantsNoCoupon(d)
    ensures var s := BondSchedule(b);
      var end := EndDate(start, d);
      var rd := RecordingDays(b);
      Entry(b, d, start).Some? <==>
        start < b.maturity &&
        !(exists k :: 0 <= k < |s| && start < s[k] && s[k] <= end) &&
        !(exists k :: 0 <= k < |s| && s[k] > end && SubtractWorkingDays(s[k], rd) <= end && end < s[k])
  {
    EntryOffered(b, d, start);
    hide BondSchedule, EndDate, SubtractWorkingDays, NextCoupon, Formatted, Entry;
    CouponInPeriodFromSpec(BondSchedule(b), start, EndDate(start, d), RecordingDays(b), 0);
    HitsSplit(BondSchedule(b), start, EndDate(start, d), RecordingDays(b));
  }

  lemma HitsSplit(s: seq<int>, start: int, end: int, rd: int)
    ensures (exists k :: 0 <= k < |s| && CouponHits(s[k], start, end, rd)) <==>
      (exists k :: 0 <= k < |s| && start < s[k] && s[k] <= end) ||
      (exists k :: 0 <= k < |s| && s[k] > end && SubtractWorkingDays(s[k], rd) <= end && end < s[k])
  {
  }

  /** For three months and longer every live bond is listed, its flag telling whether the period meets a coupon or a record period. */
  lemma LongDurationRule(b: Bond, d: Duration, start: int)
    requires Schedule.ValidFrequency(b.frequency) && !WantsNoCoupon(d)
    ensures Entry(b, d, start).Some? <==> start < b.maturity
    ensures var s := BondSchedule(b);
      var end := EndDate(start, d);
      var rd := RecordingDays(b);
      Entry(b, d, start).Some? ==>
        (Entry(b, d, start).value.hasCoupon == Some(true) <==>
          exists k :: 0 <= k < |s| && CouponHits(s[k], start, end, rd))
  {
    EntryOffered(b, d, start);
    EntryFields(b, d, start);
    CouponInPeriodFromSpec(BondSchedule(b), start, EndDate(start, d), RecordingDays(b), 0);
  }

  /** The pushed listings are exactly the entries of the offered bonds. */
  lemma SelectSpec(bonds: seq<Bond>, d: Duration, start: int)
    requires AllValid(bonds)
    ensures forall l :: l in Select(bonds, d, start) <==>
      exists i :: 0 <= i < |bonds| && Offered(bonds[i], d, start) && l == Entry(bonds[i], d, start).value
  {
    var es := Entries(bonds, d, start);
    SomesSpec(es);
    forall i | 0 <= i < |bonds|
      ensures es[i].Some? <==> Offered(bonds[i], d, start)
    {
      EntryOffered(bonds[i], d, start);
    }
  }

  /** The comparator of the sort: positive puts `a` after `b`. */
  function Compare(a: Listing, b: Listing): int {
    if a.nextCoupon.None? then 1
    else if b.nextCoupon.None? then -1
    else b.nextCoupon.value - a.nextCoupon.value
  }

  /** `a` belongs strictly before `b`: it has a next coupon, and `b` has none or an earlier one. */
  predicate Before(a: Listing, b: Listing) {
    a.nextCoupon.Some? && (b.nextCoupon.None? || a.nextCoupon.value > b.nextCoupon.value)
  }

  /**
    The comparator asks for `a` before `b` exactly when `a` belongs before
    `b`, and for two listings with next coupons it asks for `a` after `b`
    exactly when `b` belongs before `a`.
   */
  lemma CompareMeaning(a: Listing, b: Listing)
    ensures Compare(a, b) < 0 <==> Before(a, b)
    ensures a.nextCoupon.Some? && b.nextCoupon.Some? ==> (Compare(a, b) > 0 <==> Before(b, a))
  {
  }

  /** No listing belongs before its predecessor. */
  predicate Ordered(xs: seq<Listing>) {
    forall i :: 0 < i < |xs| ==> !Before(xs[i], xs[i - 1])
  }

  /** Inserts `x` in front of the first listing that does not belong before it. */
  function Insert(x: Listing, ys: seq<Listing>): (r: seq<Listing>)
    ensures multiset(r) == multiset(ys) + multiset{x}
    ensures |r| == |ys| + 1 && (r[0] == x || (0 < |ys| && r[0] == ys[0]))
    ensures Ordered(ys) ==> Ordered(r)
  {
    if |ys| == 0 then [x]
    else if Before(ys[0], x) then
      assert ys == [ys[0]] + ys[1..];
      [ys[0]] + Insert(x, ys[1..])
    else [x] + ys
  }

  /** The sort of the listings, stable for listings the comparator puts level. */
  function SortListings(xs: seq<Listing>): (r: seq<Listing>)
    ensures multiset(r) == multiset(xs)
    ensures Ordered(r)
  {
    if |xs| == 0 then []
    else
      assert xs == [xs[0]] + xs[1..];
      Insert(xs[0], SortListings(xs[1..]))
  }

  /**
    An ordered list runs by next coupon date, latest first: a listing with a
    next coupon is preceded only by listings with a next coupon on the same
    day or later.
   */
  lemma {:induction false} OrderedMeaning(xs: seq<Listing>)
    requires Ordered(xs)
    ensures forall i, j :: 0 <= i < j < |xs| && xs[j].nextCoupon.Some? ==>
      xs[i].nextCoupon.Some? && xs[j].nextCoupon.value <= xs[i].nextCoupon.value
  {
    if |xs| > 1 {
      var front := xs[..|xs| - 1];
      OrderedMeaning(front);
      forall i, j | 0 <= i < j < |xs| && xs[j].nextCoupon.Some?
        ensures xs[i].nextCoupon.Some? && xs[j].nextCoupon.value <= xs[i].nextCoupon.value
      {
        if j == |xs| - 1 && i < j - 1 {
          assert front[i] == xs[i] && front[j - 1] == xs[j - 1];
        } else if j < |xs| - 1 {
          assert front[i] == xs[i] && front[j] == xs[j];
        }
      }
    }
  }

  /** `getBondsForDuration`: no bond data (`bondsData` or its `bonds` missing) gives an empty list. */
  function GetBondsForDuration(bonds: Option<seq<Bond>>, d: Duration, start: int): seq<Listing>
    requires bonds.Some? ==> AllValid(bonds.value)
  {
    if bonds.None? then [] else SortListings(Select(bonds.value, d, start))
  }

  /**
    The list holds exactly the entries of the offered bonds, as many times as
    the loop pushes them; without bond data it is empty.
   */
  lemma GetBondsForDurationMembers(bonds: Option<seq<Bond>>, d: Duration, start: int)
    requires bonds.Some? ==> AllValid(bonds.value)
    ensures bonds.None? ==> GetBondsForDuration(bonds, d, start) == []
    ensures bonds.Some? ==> multiset(GetBondsForDuration(bonds, d, start)) == multiset(Select(bonds.value, d, start))
    ensures bonds.Some? ==> forall l :: l in GetBondsForDuration(bonds, d, start) <==>
      exists i :: 0 <= i < |bonds.value| && Offered(bonds.value[i], d, start) && l == Entry(bonds.value[i], d, start).value
  {
    if bonds.Some? {
      var r := GetBondsForDuration(bonds, d, start);
      var sel := Select(bonds.value, d, start);
      SelectSpec(bonds.value, d, start);
      forall l
        ensures l in r <==> l in sel
      {
        assert l in r <==> l in multiset(r);
        assert l in sel <==> l in multiset(sel);
      }
    }
  }

  /** The list runs latest next coupon first, with the listings without a next coupon last. */
  lemma GetBondsForDurationOrder(bonds: Option<seq<Bond>>, d: Duration, start: int)
    requires bonds.Some? ==> AllValid(bonds.value)
    ensures var r := GetBondsForDuration(bonds, d, start);
      forall i, j :: 0 <= i < j < |r| && r[j].nextCoupon.Some? ==>
        r[i].nextCoupon.Some? && r[j].nextCoupon.value <= r[i].nextCoupon.value
  {
    OrderedMeaning(GetBondsForDuration(bonds, d, start));
  }
}
