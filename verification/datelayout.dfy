/**
  Formatting a date with a Go reference-time layout, restricted to the three
  layout elements the adapter's layout "20060102" is made of: "2006" (the year,
  at least four digits, with a leading '-' before year 0), "01" (the month, two
  digits) and "02" (the day of the month, two digits).  Every other character of
  a layout is copied literally.

  `ParseStamp` reads a formatted date back; it exists to prove that the
  "20060102" stamp loses nothing: distinct dates give distinct stamps.
 */
module DateLayout {
  import opened Calendar
  import opened Options

  /** The layout the adapter formats partition days with. */
  const DayLayout: string := "20060102"

  // ---------------------------------------------------------------------------
  // Decimal digits
  // ---------------------------------------------------------------------------

  predicate IsDigit(c: char) {
    '0' <= c <= '9'
  }

  predicate AllDigits(s: string) {
    forall i :: 0 <= i < |s| ==> IsDigit(s[i])
  }

  function DigitChar(d: int): char
    requires 0 <= d <= 9
  {
    ('0' as int + d) as char
  }

  /** The shortest decimal numeral of `n`. */
  function Decimal(n: nat): (s: string)
    ensures 1 <= |s|
    ensures AllDigits(s)
    ensures n < 10 ==> |s| == 1
    ensures n < 100 ==> |s| <= 2
    ensures n < 10000 ==> |s| <= 4
  {
    if n < 10 then [DigitChar(n)] else Decimal(n / 10) + [DigitChar(n % 10)]
  }

  function Zeros(k: nat): (s: string)
    ensures |s| == k
    ensures forall i :: 0 <= i < k ==> s[i] == '0'
  {
    if k == 0 then "" else "0" + Zeros(k - 1)
  }

  /** Go's `appendInt(b, x, width)`: a '-' for a negative `x`, then the decimal numeral of
      its magnitude, padded on the left with zeros to at least `width` digits.  The text is
      at least `width` long, reading it as a signed integer gives back `x`, and its digits
      start with a '0' only where that zero is needed to reach the width. */
  function PadInt(x: int, width: nat): (s: string)
    ensures width <= |s|
    ensures 0 <= x ==> AllDigits(s)
    ensures x < 0 ==> width < |s| && s[0] == '-' && AllDigits(s[1..])
    ensures ParseInt(s) == Some(x)
    ensures 1 <= width ==> var ds := if x < 0 then s[1..] else s; |ds| <= width || ds[0] != '0'
  {
    if x < 0 then
      ParseNegative(-x, width);
      var s := "-" + Padded(-x, width);
      assert s[1..] == Padded(-x, width);
      PaddedHasNoExtraZero(-x, width);
      s
    else
      ParseNonNegative(x, width);
      PaddedHasNoExtraZero(x, width);
      Padded(x, width)
  }

  /** Padding adds zeros only up to the width: a padded numeral longer than the width is the
      bare numeral, which does not start with '0'. */
  lemma PaddedHasNoExtraZero(n: nat, width: nat)
    ensures 1 <= width ==> |Padded(n, width)| <= width || Padded(n, width)[0] != '0'
  {
    if 1 <= width && n >= 1 && width <= |Decimal(n)| {
      DecimalLeadingDigit(n);
    }
  }

  /** The shortest numeral of a positive number has no leading zero. */
  lemma {:induction false} DecimalLeadingDigit(n: nat)
    requires 1 <= n
    ensures Decimal(n)[0] != '0'
  {
    if n >= 10 {
      DecimalLeadingDigit(n / 10);
      assert Decimal(n)[0] == Decimal(n / 10)[0];
    }
  }

  /** The decimal numeral of `n`, padded on the left with zeros to at least `width` digits. */
  function Padded(n: nat, width: nat): string
  {
    var digits := Decimal(n);
    if |digits| < width then Zeros(width - |digits|) + digits else digits
  }

  /** The value of a string of decimal digits (0 for the empty string). */
  function ParseDecimal(s: string): nat
    requires AllDigits(s)
  {
    if s == [] then 0
    else 10 * ParseDecimal(s[..|s| - 1]) + (s[|s| - 1] as int - '0' as int)
  }

  // ---------------------------------------------------------------------------
  // Layouts
  // ---------------------------------------------------------------------------

  datatype LayoutElement = LongYear | ZeroMonth | ZeroDay | Literal(c: char)

  /** Splits a layout into its elements, reading "2006", "01" and "02" where they start. */
  function Elements(layout: string): seq<LayoutElement>
  {
    if layout == [] then []
    else if |layout| >= 4 && layout[..4] == "2006" then [LongYear] + Elements(layout[4..])
    else if |layout| >= 2 && layout[..2] == "01" then [ZeroMonth] + Elements(layout[2..])
    else if |layout| >= 2 && layout[..2] == "02" then [ZeroDay] + Elements(layout[2..])
    else [Literal(layout[0])] + Elements(layout[1..])
  }

  function FormatElement(e: LayoutElement, d: Date): string {
    match e
    case LongYear => PadInt(d.year, 4)
    case ZeroMonth => PadInt(d.month, 2)
    case ZeroDay => PadInt(d.day, 2)
    case Literal(c) => [c]
  }

  function FormatElements(es: seq<LayoutElement>, d: Date): string {
    if es == [] then "" else FormatElement(es[0], d) + FormatElements(es[1..], d)
  }

  /** `Date.Format(layout)` for layouts built from the elements above.  The adapter's layout
      "20060102" reads as year, month, day: the year padded to four digits, then the month and
      the day padded to two. */
  function Format(d: Date, layout: string): (s: string)
    ensures layout == DayLayout ==> s == PadInt(d.year, 4) + PadInt(d.month, 2) + PadInt(d.day, 2)
  {
    DayLayoutElements();
    DayLayoutFormat(d);
    FormatElements(Elements(layout), d)
  }

  /** The day stamp: the date formatted with "20060102". */
  function DayStamp(d: Date): (s: string)
    requires IsValid(d)
    ensures s == PadInt(d.year, 4) + PadInt(d.month, 2) + PadInt(d.day, 2)
    ensures 8 <= |s|
    ensures 0 <= d.year ==> AllDigits(s)
    ensures 0 <= d.year <= 9999 ==> |s| == 8
  {
    PadIntLength(d.month, 2);
    PadIntLength(d.day, 2);
    var s := Format(d, DayLayout);
    DigitsConcat(PadInt(d.year, 4), PadInt(d.month, 2), PadInt(d.day, 2));
    if 0 <= d.year <= 9999 then PadIntLength(d.year, 4); s else s
  }

  /** Three runs of digits make one run of digits. */
  lemma DigitsConcat(a: string, b: string, c: string)
    ensures AllDigits(a) && AllDigits(b) && AllDigits(c) ==> AllDigits(a + b + c)
  {
    if AllDigits(a) && AllDigits(b) && AllDigits(c) {
      forall i | 0 <= i < |a + b + c| ensures IsDigit((a + b + c)[i]) {
        if i < |a| { assert (a + b + c)[i] == a[i]; }
        else if i < |a| + |b| { assert (a + b + c)[i] == b[i - |a|]; }
        else { assert (a + b + c)[i] == c[i - |a| - |b|]; }
      }
    }
  }

  lemma DayLayoutFormat(d: Date)
    ensures FormatElements([LongYear, ZeroMonth, ZeroDay], d) == PadInt(d.year, 4) + PadInt(d.month, 2) + PadInt(d.day, 2)
  {
    var es := [LongYear, ZeroMonth, ZeroDay];
    assert es[1..] == [ZeroMonth, ZeroDay] && es[1..][1..] == [ZeroDay] && es[1..][1..][1..] == [];
    assert FormatElements(es[1..][1..], d) == PadInt(d.day, 2) + FormatElements([], d);
    assert FormatElements(es[1..], d) == PadInt(d.month, 2) + FormatElements(es[1..][1..], d);
    assert FormatElements(es, d) == PadInt(d.year, 4) + FormatElements(es[1..], d);
  }

  lemma DayLayoutElements()
    ensures Elements(DayLayout) == [LongYear, ZeroMonth, ZeroDay]
  {
    var l := DayLayout;
    assert l[..4] == "2006";
    var rest := l[4..];
    assert rest == "0102" && rest[..2] == "01";
    assert rest[..4][0] == '0';
    var last := rest[2..];
    assert last == "02" && last[..2] == "02" && last[..2] != "01";
    assert last[2..] == [];
    assert Elements(last) == [ZeroDay] + Elements([]);
    assert Elements(rest) == [ZeroMonth] + Elements(last);
    assert Elements(l) == [LongYear] + Elements(rest);
  }

  /** A non-negative number whose numeral fits the width is padded to exactly the width. */
  lemma PadIntLength(x: int, width: nat)
    requires 0 <= x && |Decimal(x)| <= width
    ensures |PadInt(x, width)| == width
  {
  }

  // ---------------------------------------------------------------------------
  // Reading a stamp back
  // ---------------------------------------------------------------------------

  /** Reads an optionally '-'-signed run of digits. */
  function ParseInt(s: string): (r: Option<int>)
  {
    if |s| >= 2 && s[0] == '-' && AllDigits(s[1..]) then Some(0 - ParseDecimal(s[1..]))
    else if |s| >= 1 && AllDigits(s) then Some(ParseDecimal(s))
    else None
  }

  /** Reads a "20060102" stamp: the last four characters are the month and day, everything
      before them the year. */
  function ParseStamp(s: string): Option<Date>
  {
    if |s| < 8 then None
    else
      var y := ParseInt(s[..|s| - 4]);
      var m := ParseInt(s[|s| - 4..|s| - 2]);
      var d := ParseInt(s[|s| - 2..]);
      if y.Some? && m.Some? && d.Some? then Some(Date(y.value, m.value, d.value)) else None
  }

  lemma {:induction false} ParseDecimalOfDecimal(n: nat)
    ensures ParseDecimal(Decimal(n)) == n
  {
    if n >= 10 {
      var s := Decimal(n);
      assert s[..|s| - 1] == Decimal(n / 10);
      ParseDecimalOfDecimal(n / 10);
    }
  }

  lemma {:induction false} LeadingZerosIgnored(k: nat, s: string)
    requires AllDigits(s)
    ensures AllDigits(Zeros(k) + s)
    ensures ParseDecimal(Zeros(k) + s) == ParseDecimal(s)
    decreases |s|, k
  {
    var t := Zeros(k) + s;
    assert forall i :: 0 <= i < |t| ==> IsDigit(t[i]);
    if s == [] {
      assert t == Zeros(k);
      if k > 0 {
        assert t[..|t| - 1] == Zeros(k - 1) + [];
        LeadingZerosIgnored(k - 1, []);
      }
    } else {
      assert t[..|t| - 1] == Zeros(k) + s[..|s| - 1];
      LeadingZerosIgnored(k, s[..|s| - 1]);
    }
  }

  /** The zero-padded numeral of `n` reads back as `n`. */
  lemma ParsePadded(n: nat, width: nat)
    ensures 1 <= |Padded(n, width)| && AllDigits(Padded(n, width))
    ensures ParseDecimal(Padded(n, width)) == n
  {
    var digits := Decimal(n);
    ParseDecimalOfDecimal(n);
    if |digits| < width {
      LeadingZerosIgnored(width - |digits|, digits);
    }
  }

  lemma ParseNonNegative(n: nat, width: nat)
    ensures width <= |Padded(n, width)| && AllDigits(Padded(n, width))
    ensures ParseInt(Padded(n, width)) == Some(n)
  {
    var padded := Padded(n, width);
    ParsePadded(n, width);
    assert IsDigit(padded[0]);
  }

  lemma ParseNegative(n: nat, width: nat)
    ensures width <= |Padded(n, width)|
    ensures ParseInt("-" + Padded(n, width)) == Some(0 - n)
  {
    var padded := Padded(n, width);
    ParsePadded(n, width);
    var s := "-" + padded;
    assert s[1..] == padded;
    assert ParseInt(s) == Some(0 - n);
  }

  /** The stamp of a valid date reads back as that date. */
  lemma StampRoundTrip(d: Date)
    requires IsValid(d)
    ensures ParseStamp(DayStamp(d)) == Some(d)
  {
    PadIntLength(d.month, 2);
    PadIntLength(d.day, 2);
    ParseStampOfParts(PadInt(d.year, 4), PadInt(d.month, 2), PadInt(d.day, 2), d);
  }

  /** A year field of at least four characters and two two-character fields read back as
      the date they denote. */
  lemma ParseStampOfParts(year: string, month: string, day: string, d: Date)
    requires 4 <= |year| && |month| == 2 && |day| == 2
    requires ParseInt(year) == Some(d.year) && ParseInt(month) == Some(d.month) && ParseInt(day) == Some(d.day)
    ensures ParseStamp(year + month + day) == Some(d)
  {
    SplitStamp(year, month, day);
  }

  /** A stamp ending in two two-character fields splits back into its three parts. */
  lemma SplitStamp(year: string, month: string, day: string)
    requires |month| == 2 && |day| == 2
    ensures var s := year + month + day;
            s[..|s| - 4] == year && s[|s| - 4..|s| - 2] == month && s[|s| - 2..] == day
  {
  }

  /** Distinct valid dates have distinct stamps. */
  lemma StampInjective(d1: Date, d2: Date)
    requires IsValid(d1) && IsValid(d2)
    ensures DayStamp(d1) == DayStamp(d2) <==> d1 == d2
  {
    if DayStamp(d1) == DayStamp(d2) {
      StampRoundTrip(d1);
      StampRoundTrip(d2);
    }
  }
}
