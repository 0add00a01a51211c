/**
  Date text of `utils.js`: `parseDateVN` reads "DD/MM/YYYY" (or the fallback
  "YYYY-MM-DD") and `formatDateVN` writes "DD/MM/YYYY".
 */
module DateText {
  import opened Wrappers
  import opened Civil
  import opened Digits

  /** What `parseDateVN` returns: `null`, an Invalid Date, or a date (as a day number). */
  datatype Parsed = NoDate | InvalidDate | ValidDate(day: int)

  /** `text.split(sep)`: the pieces between separators, empty pieces kept, at least one piece. */
  function Split(s: string, sep: char): (parts: seq<string>)
    ensures |parts| >= 1
    ensures sep !in s ==> parts == [s]
  {
    if |s| == 0 then [""]
    else
      var rest := Split(s[1..], sep);
      assert [s[0]] + s[1..] == s;
      if s[0] == sep then [""] + rest else [[s[0]] + rest[0]] + rest[1..]
  }

  /** A separator after a separator-free first piece splits exactly there. */
  lemma {:induction false} SplitAt(a: string, sep: char, b: string)
    requires sep !in a
    ensures Split(a + [sep] + b, sep) == [a] + Split(b, sep)
    decreases |a|
  {
    var s := a + [sep] + b;
    if |a| > 0 {
      assert s[1..] == a[1..] + [sep] + b;
      SplitAt(a[1..], sep, b);
      assert [a[0]] + a[1..] == a;
    } else {
      assert s[1..] == b;
    }
  }

  /** `new Date(Date.UTC(y, m - 1, d))` from three `Number` results; a NaN or missing part gives an Invalid Date. */
  function UtcDate(y: Option<nat>, m: Option<nat>, d: Option<nat>): (r: Parsed)
    ensures r != NoDate
    ensures r.ValidDate? <==> y.Some? && m.Some? && d.Some?
  {
    if y.Some? && m.Some? && d.Some? then ValidDate(UtcDay(y.value, m.value - 1, d.value))
    else InvalidDate
  }

  /** Part `i` of a split, read by `Number`; a part past the end is `undefined`, which reads as NaN. */
  function Part(parts: seq<string>, i: nat): Option<nat> {
    if i < |parts| then Number(parts[i]) else None
  }

  /** `parseDateVN`. */
  function ParseDateVN(s: string): (r: Parsed)
    ensures r == NoDate <==> |s| == 0 || ('/' !in s && '-' !in s)
  {
    if |s| == 0 then NoDate
    else if '/' in s then
      var p := Split(s, '/');
      UtcDate(Part(p, 2), Part(p, 1), Part(p, 0))
    else if '-' in s then
      var p := Split(s, '-');
      UtcDate(Part(p, 0), Part(p, 1), Part(p, 2))
    else NoDate
  }

  /** `String(year)`: a minus sign in front of a negative year. */
  function YearText(y: int): (s: string)
    ensures 0 <= y ==> s == ToText(y)
    ensures y < 0 ==> s == "-" + ToText(-y)
  {
    if 0 <= y then ToText(y) else "-" + ToText(-y)
  }

  /** The "DD/MM/YYYY" text of a calendar date. */
  function Layout(c: Date): string
    requires Valid(c)
  {
    Pad2(ToText(c.day)) + "/" + Pad2(ToText(c.month)) + "/" + YearText(c.year)
  }

  /** The "YYYY-MM-DD" text of a calendar date, the fallback layout `parseDateVN` accepts. */
  function IsoLayout(c: Date): string
    requires Valid(c)
  {
    YearText(c.year) + "-" + Pad2(ToText(c.month)) + "-" + Pad2(ToText(c.day))
  }

  /** `formatDateVN`. */
  function FormatDateVN(n: int): string {
    Layout(FromDays(n))
  }

  lemma SplitThree(a: string, b: string, c: string, sep: char)
    requires sep !in a && sep !in b && sep !in c
    ensures Split(a + [sep] + b + [sep] + c, sep) == [a, b, c]
  {
    assert a + [sep] + b + [sep] + c == a + [sep] + (b + [sep] + c);
    SplitAt(a, sep, b + [sep] + c);
    SplitAt(b, sep, c);
  }

  /** A zero-padded day or month reads back as its number, and holds no separator. */
  lemma PaddedNumber(n: nat)
    ensures Number(Pad2(ToText(n))) == Some(n)
    ensures '/' !in Pad2(ToText(n)) && '-' !in Pad2(ToText(n))
  {
    ValueOfPad2(ToText(n));
    ValueOfToText(n);
    var p := Pad2(ToText(n));
    assert forall i :: 0 <= i < |p| ==> p[i] != '/' && p[i] != '-';
  }

  lemma YearNumber(y: nat)
    ensures Number(ToText(y)) == Some(y)
    ensures '/' !in ToText(y) && '-' !in ToText(y)
  {
    ValueOfToText(y);
    var t := ToText(y);
    assert forall i :: 0 <= i < |t| ==> t[i] != '/' && t[i] != '-';
  }

  /**
    Any text of three slash-free parts joined by "/" takes the "/" branch,
    whatever '-' the parts hold, and reads as day, month and year.
   */
  lemma SlashFirst(d: string, m: string, y: string)
    requires '/' !in d && '/' !in m && '/' !in y
    ensures ParseDateVN(d + "/" + m + "/" + y) == UtcDate(Number(y), Number(m), Number(d))
  {
    var t := d + "/" + m + "/" + y;
    assert t[|d|] == '/';
    SplitThree(d, m, y, '/');
  }

  /** A text with no "/" and three dash-free parts joined by "-" reads as year, month and day. */
  lemma DashFallback(y: string, m: string, d: string)
    requires '/' !in y && '/' !in m && '/' !in d
    requires '-' !in y && '-' !in m && '-' !in d
    ensures ParseDateVN(y + "-" + m + "-" + d) == UtcDate(Number(y), Number(m), Number(d))
  {
    var t := y + "-" + m + "-" + d;
    assert t[|y|] == '-';
    assert '/' !in t;
    SplitThree(y, m, d, '-');
  }

  /** The pieces of a layout. */
  lemma LayoutParts(c: Date)
    requires Valid(c) && 0 <= c.year
    ensures Split(Layout(c), '/') == [Pad2(ToText(c.day)), Pad2(ToText(c.month)), ToText(c.year)]
  {
    PaddedNumber(c.day);
    PaddedNumber(c.month);
    YearNumber(c.year);
    SplitThree(Pad2(ToText(c.day)), Pad2(ToText(c.month)), ToText(c.year), '/');
  }

  /** Parsing the layout of a date from year 100 onwards gives that date back. */
  lemma ParseLayout(c: Date)
    requires Valid(c) && 100 <= c.year
    ensures ParseDateVN(Layout(c)) == ValidDate(ToDays(c))
  {
    var t := Layout(c);
    var p := Split(t, '/');
    assert '/' in t by {
      assert t[|Pad2(ToText(c.day))|] == '/';
    }
    assert ParseDateVN(t) == UtcDate(Part(p, 2), Part(p, 1), Part(p, 0));
    LayoutParts(c);
    PaddedNumber(c.day);
    PaddedNumber(c.month);
    YearNumber(c.year);
    assert UtcYear(c.year) == c.year;
    MakeDayInMonth(c.year, c.month, c.day);
  }

  /** Parsing the "YYYY-MM-DD" text of a date from year 100 onwards gives that date. */
  lemma ParseIsoLayout(c: Date)
    requires Valid(c) && 100 <= c.year
    ensures ParseDateVN(IsoLayout(c)) == ValidDate(ToDays(c))
  {
    hide Split, Number, Pad2, ToText, MakeDay, DaysFromCivil;
    var t := IsoLayout(c);
    PaddedNumber(c.day);
    PaddedNumber(c.month);
    YearNumber(c.year);
    assert '/' !in t;
    assert '-' in t by {
      assert t[|ToText(c.year)|] == '-';
    }
    var p := Split(t, '-');
    assert ParseDateVN(t) == UtcDate(Part(p, 0), Part(p, 1), Part(p, 2));
    SplitThree(ToText(c.year), Pad2(ToText(c.month)), Pad2(ToText(c.day)), '-');
    assert UtcYear(c.year) == c.year;
    MakeDayInMonth(c.year, c.month, c.day);
  }

  /** `parseDateVN(formatDateVN(d))` is `d` for every date from year 100 onwards. */
  lemma FormatThenParse(n: int)
    requires 100 <= FromDays(n).year
    ensures ParseDateVN(FormatDateVN(n)) == ValidDate(n)
  {
    ParseLayout(FromDays(n));
  }

  /**
    For a valid date with a four-digit year, parsing its zero-padded
    "DD/MM/YYYY" text and formatting the result gives the same text back.
   */
  lemma ParseThenFormat(c: Date)
    requires Valid(c) && 1000 <= c.year <= 9999
    ensures ParseDateVN(Layout(c)) == ValidDate(ToDays(c))
    ensures FormatDateVN(ParseDateVN(Layout(c)).day) == Layout(c)
    ensures |Layout(c)| == 10
  {
    ParseLayout(c);
    CivilRoundTrip(c);
    ToTextLength(c.day);
    ToTextLength(c.month);
    ToTextLength(c.year);
  }
}
