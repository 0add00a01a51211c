/**
  The loop shape shared by both `buildSchedule` functions (`utils.js` and
  `js/introTab.js`): start with the issue date, then push the coupon date of
  period 1, 2, ... while the previous date lies before maturity; a date that
  overshoots maturity is replaced by maturity and ends the loop.

  Every coupon date is computed from the issue date and the period number
  (anchored), never from the previous coupon. Here the coupon date of period
  `i` is the value `f(i)` of a function, so the shape is proved once for both
  callers.
 */
module Anchored {

  /** Coupon dates strictly later for each later period, from period 1 on. */
  ghost predicate Increasing(f: int -> int) {
    forall i, j :: 1 <= i < j ==> f(i) < f(j)
  }

  predicate StrictlyIncreasing(s: seq<int>) {
    forall j, k :: 0 <= j < k < |s| ==> s[j] < s[k]
  }

  /** What the loop pushes from period `i` on, once the previous date lies before maturity. */
  function Tail(maturity: int, f: int -> int, i: int): (s: seq<int>)
    requires 1 <= i && Increasing(f)
    ensures |s| >= 1 && s[|s| - 1] == maturity
    decreases if f(i) < maturity then maturity - f(i) else 0
  {
    if f(i) < maturity then [f(i)] + Tail(maturity, f, i + 1) else [maturity]
  }

  /** The whole schedule: the issue date, then the coupon dates up to and including maturity. */
  function Schedule(issue: int, maturity: int, f: int -> int): (s: seq<int>)
    requires Increasing(f)
    ensures |s| >= 1 && s[0] == issue
    ensures issue >= maturity ==> s == [issue]
    ensures issue < maturity ==> |s| >= 2 && s[|s| - 1] == maturity
  {
    [issue] + if issue < maturity then Tail(maturity, f, 1) else []
  }

  /**
    The tail from period `i` holds the coupon dates of periods `i`, `i + 1`, ...
    that fall before maturity, then maturity itself, which the next coupon
    date reaches or passes.
   */
  lemma {:induction false} TailShape(maturity: int, f: int -> int, i: int)
    requires 1 <= i && Increasing(f)
    ensures var t := Tail(maturity, f, i);
      forall k :: 0 <= k < |t| - 1 ==> t[k] == f(i + k) && f(i + k) < maturity
    ensures f(i + |Tail(maturity, f, i)| - 1) >= maturity
    decreases if f(i) < maturity then maturity - f(i) else 0
  {
    var t := Tail(maturity, f, i);
    if f(i) < maturity {
      var rest := Tail(maturity, f, i + 1);
      TailShape(maturity, f, i + 1);
      assert t == [f(i)] + rest;
      forall k | 0 <= k < |t| - 1
        ensures t[k] == f(i + k) && f(i + k) < maturity
      {
        if k > 0 {
          assert t[k] == rest[k - 1];
          assert i + 1 + (k - 1) == i + k;
        }
      }
      assert i + 1 + |rest| - 1 == i + |t| - 1;
    }
  }

  /**
    Shape of a schedule that starts before maturity: issue first, maturity
    last, the coupon date of period `k` at position `k` in between (all before
    maturity), and the period after the last coupon reaching maturity.
   */
  lemma ScheduleShape(issue: int, maturity: int, f: int -> int)
    requires Increasing(f) && issue < maturity
    ensures var s := Schedule(issue, maturity, f);
      forall k :: 0 < k < |s| - 1 ==> s[k] == f(k) && f(k) < maturity
    ensures f(|Schedule(issue, maturity, f)| - 1) >= maturity
  {
    var s := Schedule(issue, maturity, f);
    var t := Tail(maturity, f, 1);
    TailShape(maturity, f, 1);
    assert s == [issue] + t;
    forall k | 0 < k < |s| - 1
      ensures s[k] == f(k) && f(k) < maturity
    {
      assert s[k] == t[k - 1];
    }
  }

  /** When the first coupon date lies after the issue date, the schedule is strictly increasing. */
  lemma ScheduleIncreasing(issue: int, maturity: int, f: int -> int)
    requires Increasing(f) && issue < f(1)
    ensures StrictlyIncreasing(Schedule(issue, maturity, f))
  {
    var s := Schedule(issue, maturity, f);
    if issue < maturity {
      ScheduleShape(issue, maturity, f);
      forall j, k | 0 <= j < k < |s|
        ensures s[j] < s[k]
      {
        if 0 < j {
          assert s[j] == f(j);
        }
        if k < |s| - 1 {
          assert s[k] == f(k);
        }
      }
    }
  }

  /** The schedule loop itself, with the overshoot replaced by maturity. */
  method BuildLoop(issue: int, maturity: int, f: int -> int) returns (dates: seq<int>)
    requires Increasing(f)
    ensures dates == Schedule(issue, maturity, f)
  {
    var cur := issue;
    dates := [cur];
    var i := 1;
    while cur < maturity
      invariant 1 <= i
      invariant dates + (if cur < maturity then Tail(maturity, f, i) else []) == Schedule(issue, maturity, f)
      decreases |Schedule(issue, maturity, f)| - |dates|
    {
      ghost var before := dates;
      ghost var rest := Tail(maturity, f, i);
      assert before + rest == Schedule(issue, maturity, f);
      cur := f(i);
      dates := dates + [cur];
      i := i + 1;
      if cur > maturity {
        assert rest == [maturity];
        dates := dates[|dates| - 1 := maturity];
        assert dates == before + [maturity];
        break;
      } else if cur < maturity {
        assert rest == [cur] + Tail(maturity, f, i);
        assert dates + Tail(maturity, f, i) == before + rest;
      } else {
        assert rest == [maturity];
      }
    }
  }
}
