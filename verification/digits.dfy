/**
  Decimal digit strings, as JavaScript's `Number(text)` reads them and
  `String(n)` writes them, restricted to plain runs of the ASCII digits.
 */
module Digits {
  import opened Wrappers

  predicate IsDigit(ch: char) {
    '0' <= ch <= '9'
  }

  predicate AllDigits(s: string) {
    forall i :: 0 <= i < |s| ==> IsDigit(s[i])
  }

  function DigitValue(ch: char): (d: nat)
    requires IsDigit(ch)
    ensures d < 10
  {
    ch as int - '0' as int
  }

  function DigitChar(d: nat): (ch: char)
    requires d < 10
    ensures IsDigit(ch) && DigitValue(ch) == d
  {
    ('0' as int + d) as char
  }

  /** The number a digit string spells, most significant digit first; the empty string spells 0. */
  function Value(s: string): nat
    requires AllDigits(s)
  {
    if |s| == 0 then 0 else Value(s[..|s| - 1]) * 10 + DigitValue(s[|s| - 1])
  }

  /** `String(n)` for a natural number: no leading zeros, "0" for zero. */
  function ToText(n: nat): (s: string)
    ensures AllDigits(s) && 1 <= |s|
    ensures n < 10 <==> |s| == 1
  {
    if n < 10 then [DigitChar(n)] else ToText(n / 10) + [DigitChar(n % 10)]
  }

  /**
    `Number(text)` on the forms modelled here: a run of digits (the empty run
    reads as 0) gives its value; any other text is NaN, written `None`.
   */
  function Number(s: string): (r: Option<nat>)
    ensures r.Some? <==> AllDigits(s)
    ensures r.Some? ==> r.value == Value(s)
  {
    if AllDigits(s) then Some(Value(s)) else None
  }

  /** `padStart(2, "0")`. */
  function Pad2(s: string): (p: string)
    ensures |p| == if |s| >= 2 then |s| else 2
    ensures |s| <= 2 ==> p[2 - |s|..] == s
  {
    if |s| >= 2 then s else if |s| == 1 then "0" + s else "00"
  }

  lemma {:induction false} ValueOfToText(n: nat)
    ensures Value(ToText(n)) == n
    decreases n
  {
    if n >= 10 {
      var s := ToText(n / 10);
      var t := ToText(n);
      assert t[..|t| - 1] == s;
      ValueOfToText(n / 10);
    }
  }

  lemma {:induction false} ValueOfLeadingZero(s: string)
    requires AllDigits(s)
    ensures AllDigits("0" + s) && Value("0" + s) == Value(s)
    decreases |s|
  {
    var t := "0" + s;
    if |s| > 0 {
      assert t[..|t| - 1] == "0" + s[..|s| - 1];
      ValueOfLeadingZero(s[..|s| - 1]);
    }
  }

  /** Zero padding does not change the number a digit string spells. */
  lemma ValueOfPad2(s: string)
    requires AllDigits(s) && 1 <= |s|
    ensures AllDigits(Pad2(s)) && Value(Pad2(s)) == Value(s)
  {
    if |s| == 1 {
      ValueOfLeadingZero(s);
    }
  }

  /** `String(n)` has exactly four digits for the years 1000..9999 and two at most below 100. */
  lemma {:induction false} ToTextLength(n: nat)
    ensures n < 100 ==> |ToText(n)| <= 2
    ensures 1000 <= n < 10000 ==> |ToText(n)| == 4
  {
    if n >= 10 {
      ToTextLength(n / 10);
    }
  }
}
