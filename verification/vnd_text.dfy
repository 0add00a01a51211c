/**
  Face-value text of `utils.js`: `formatVNDInput` keeps the digits of what
  was typed and groups them in threes with "."; `parseVNDInput` drops "."
  and "," and reads the rest with `Number`.
 */
module VndText {
  import opened Wrappers
  import opened Digits

  /** The characters of `s` that `keep` accepts, in order (a global `replace` of the others by ""). */
  function Filter(s: string, keep: char -> bool): (r: string)
    ensures |r| <= |s|
    ensures forall i :: 0 <= i < |r| ==> keep(r[i])
  {
    if |s| == 0 then "" else (if keep(s[0]) then [s[0]] else []) + Filter(s[1..], keep)
  }

  lemma {:induction false} FilterAppend(a: string, b: string, keep: char -> bool)
    ensures Filter(a + b, keep) == Filter(a, keep) + Filter(b, keep)
    decreases |a|
  {
    if |a| > 0 {
      assert (a + b)[1..] == a[1..] + b;
      FilterAppend(a[1..], b, keep);
    } else {
      assert a + b == b;
    }
  }

  /** Filtering keeps a string whose every character is accepted. */
  lemma {:induction false} FilterKeepsAll(s: string, keep: char -> bool)
    requires forall i :: 0 <= i < |s| ==> keep(s[i])
    ensures Filter(s, keep) == s
    decreases |s|
  {
    if |s| > 0 {
      FilterKeepsAll(s[1..], keep);
      assert [s[0]] + s[1..] == s;
    }
  }

  predicate IsNotSeparator(ch: char) {
    ch != '.' && ch != ','
  }

  /**
    The digits with a "." in front of every full group of three counted from
    the right (the `\B(?=(\d{3})+(?!\d))` replacement).
   */
  function Group(d: string): string
    decreases |d|
  {
    if |d| <= 3 then d else Group(d[..|d| - 3]) + "." + d[|d| - 3..]
  }

  /** `formatVNDInput`. */
  function FormatVNDInput(value: string): string {
    Group(Filter(value, IsDigit))
  }

  /** `parseVNDInput`: `None` stands for NaN. */
  function ParseVNDInput(value: string): (r: Option<nat>)
    ensures r.Some? <==> AllDigits(Filter(value, IsNotSeparator))
  {
    Number(Filter(value, IsNotSeparator))
  }

  lemma {:induction false} GroupDigitsAndDots(d: string)
    requires AllDigits(d)
    ensures forall i :: 0 <= i < |Group(d)| ==> Group(d)[i] == '.' || IsDigit(Group(d)[i])
    decreases |d|
  {
    if |d| > 3 {
      GroupDigitsAndDots(d[..|d| - 3]);
    }
  }

  /**
    The dots of a grouping sit exactly at the positions that lie a positive
    multiple of four characters before the end, never first.
   */
  lemma {:induction false} GroupDots(d: string)
    requires AllDigits(d)
    ensures forall i :: 0 <= i < |Group(d)| ==> (Group(d)[i] == '.' <==> 0 < i && (|Group(d)| - i) % 4 == 0)
    decreases |d|
  {
    var r := Group(d);
    if |d| > 3 {
      var g := Group(d[..|d| - 3]);
      GroupDots(d[..|d| - 3]);
      assert r == g + "." + d[|d| - 3..];
      assert |g| >= 1 && |r| == |g| + 4;
      forall i | 0 <= i < |r|
        ensures r[i] == '.' <==> 0 < i && (|r| - i) % 4 == 0
      {
        if i < |g| {
          assert r[i] == g[i];
          assert (|r| - i) % 4 == (|g| - i) % 4;
        } else if i == |g| {
          assert r[i] == '.';
        } else {
          assert r[i] == d[|d| - 3 + (i - |g| - 1)];
          assert IsDigit(r[i]);
          assert 0 < |r| - i < 4;
        }
      }
    }
  }

  /** A filter that keeps digits and drops dots. */
  predicate DropsOnlyDots(keep: char -> bool) {
    !keep('.') && forall ch :: IsDigit(ch) ==> keep(ch)
  }

  lemma FilterAroundDot(g: string, back: string, keep: char -> bool)
    requires AllDigits(back) && DropsOnlyDots(keep)
    ensures Filter(g + "." + back, keep) == Filter(g, keep) + back
  {
    assert Filter(".", keep) == "" by {
      assert "."[1..] == "";
    }
    FilterKeepsAll(back, keep);
    FilterAppend(g, ".", keep);
    FilterAppend(g + ".", back, keep);
  }

  /** Grouping only inserts dots: a filter that drops the dots and keeps the digits gives `d` back. */
  lemma {:induction false} GroupFilter(d: string, keep: char -> bool)
    requires AllDigits(d) && DropsOnlyDots(keep)
    ensures Filter(Group(d), keep) == d
    decreases |d|
  {
    if |d| <= 3 {
      FilterKeepsAll(d, keep);
    } else {
      var front := d[..|d| - 3];
      var back := d[|d| - 3..];
      GroupFilter(front, keep);
      FilterAroundDot(Group(front), back, keep);
      assert front + back == d;
    }
  }

  /** `formatVNDInput` keeps exactly the digits of its input and puts the dots between groups of three. */
  lemma FormatVNDInputShape(value: string)
    ensures var r := FormatVNDInput(value);
      Filter(r, IsDigit) == Filter(value, IsDigit) &&
      (forall i :: 0 <= i < |r| ==> r[i] == '.' || IsDigit(r[i])) &&
      forall i :: 0 <= i < |r| ==> (r[i] == '.' <==> 0 < i && (|r| - i) % 4 == 0)
  {
    GroupDigitsAndDots(Filter(value, IsDigit));
    GroupDots(Filter(value, IsDigit));
    GroupFilter(Filter(value, IsDigit), IsDigit);
  }

  /** Reading back formatted text gives the number its digits spell, 0 when it has none. */
  lemma FormatThenParse(value: string)
    ensures ParseVNDInput(FormatVNDInput(value)) == Some(Value(Filter(value, IsDigit)))
  {
    GroupFilter(Filter(value, IsDigit), IsNotSeparator);
  }
}
