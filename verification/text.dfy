/** Decimal rendering and parsing of numbers, and joining/splitting of
    strings on a separator character: the pieces of Python's `%d`, `%s`,
    `strftime` field padding and `','.join` that the session relies on. */
module Text {

  predicate IsDigit(c: char) {
    '0' <= c <= '9'
  }

  predicate AllDigits(s: string) {
    forall i | 0 <= i < |s| :: IsDigit(s[i])
  }

  function Pow10(n: nat): (r: nat)
    ensures r >= 1
  {
    if n == 0 then 1 else 10 * Pow10(n - 1)
  }

  function DigitChar(d: nat): (c: char)
    requires d < 10
    ensures IsDigit(c) && c as int - '0' as int == d
  {
    ('0' as int + d) as char
  }

  /** The `w` least significant decimal digits of `n`, zero padded, most
      significant first (what `%0wd` prints when `n < 10^w`). */
  function PadDigits(n: nat, w: nat): (s: string)
    ensures |s| == w && AllDigits(s)
  {
    if w == 0 then "" else PadDigits(n / 10, w - 1) + [DigitChar(n % 10)]
  }

  /** The number a string of decimal digits denotes. */
  function DigitValue(s: string): (n: nat)
    requires AllDigits(s)
    ensures n < Pow10(|s|)
  {
    if |s| == 0 then 0
    else
      var p := s[..|s| - 1];
      assert AllDigits(p);
      var d := s[|s| - 1] as int - '0' as int;
      assert DigitValue(p) <= Pow10(|p|) - 1;
      10 * DigitValue(p) + d
  }

  lemma {:induction false} DigitValueOfPad(n: nat, w: nat)
    requires n < Pow10(w)
    ensures DigitValue(PadDigits(n, w)) == n
  {
    if w > 0 {
      var s := PadDigits(n, w);
      var p := PadDigits(n / 10, w - 1);
      assert s[..|s| - 1] == p;
      DigitValueOfPad(n / 10, w - 1);
    }
  }

  lemma {:induction false} PadOfDigitValue(s: string)
    requires AllDigits(s)
    ensures PadDigits(DigitValue(s), |s|) == s
  {
    if |s| > 0 {
      var p := s[..|s| - 1];
      var d := s[|s| - 1] as int - '0' as int;
      var n := DigitValue(s);
      assert n == 10 * DigitValue(p) + d;
      assert n / 10 == DigitValue(p) && n % 10 == d;
      PadOfDigitValue(p);
      assert s == p + [s[|s| - 1]];
    }
  }

  /** Number of decimal digits Python prints for `n` (at least one). */
  function Width(n: nat): (w: nat)
    ensures w >= 1 && n < Pow10(w)
    ensures w == 1 || Pow10(w - 1) <= n
  {
    if n < 10 then 1 else 1 + Width(n / 10)
  }

  /** The width is fixed by its bounds: `Width` counts no leading zero. */
  lemma {:induction false} WidthOfBounds(n: nat, w: nat)
    requires w >= 1 && n < Pow10(w)
    requires w == 1 || Pow10(w - 1) <= n
    ensures Width(n) == w
  {
    if n >= 10 {
      assert w > 1;
      if w - 1 == 1 {
        assert n / 10 < 10;
      } else {
        assert Pow10(w - 1) == 10 * Pow10(w - 2);
        assert Pow10(w - 2) <= n / 10;
      }
      assert n / 10 < Pow10(w - 1);
      WidthOfBounds(n / 10, w - 1);
    }
  }

  /** `str(n)` for a natural number: no padding, no sign. */
  function DecimalString(n: nat): string {
    PadDigits(n, Width(n))
  }

  /** `'%s' % i` / `'%d' % i` for an integer. */
  function IntToString(i: int): string {
    if i < 0 then "-" + DecimalString(-i) else DecimalString(i)
  }

  /** The texts `IntToString` can print: an optional minus sign followed by digits. */
  predicate IsIntText(s: string) {
    if |s| > 0 && s[0] == '-' then |s| > 1 && AllDigits(s[1..])
    else |s| > 0 && AllDigits(s)
  }

  /** The integer such a text denotes. */
  function IntValue(s: string): int
    requires IsIntText(s)
  {
    if s[0] == '-' then 0 - DigitValue(s[1..]) as int else DigitValue(s)
  }

  /** The texts Python's `str(int)` prints: an optional minus sign and a
      digit string with no leading zero, where zero itself is unsigned. */
  predicate IsCanonicalIntText(s: string) {
    && IsIntText(s)
    && var d := if s[0] == '-' then s[1..] else s;
    && (d[0] != '0' || d == "0")
    && s != "-0"
  }

  /** A digit string with no leading zero denotes at least `10^(|s| - 1)`. */
  lemma {:induction false} LeadingDigitBound(s: string)
    requires |s| > 0 && AllDigits(s) && s[0] != '0'
    ensures Pow10(|s| - 1) <= DigitValue(s)
  {
    if |s| > 1 {
      var p := s[..|s| - 1];
      assert p[0] == s[0];
      LeadingDigitBound(p);
      assert DigitValue(s) >= 10 * DigitValue(p);
    }
  }

  /** `str(n)` starts with a nonzero digit unless `n` is zero. */
  lemma {:induction false} DecimalStringLeadingDigit(n: nat)
    ensures DecimalString(n)[0] != '0' || n == 0
  {
    if n >= 10 {
      assert DecimalString(n) == DecimalString(n / 10) + [DigitChar(n % 10)];
      DecimalStringLeadingDigit(n / 10);
    } else {
      assert DecimalString(n) == [DigitChar(n)];
    }
  }

  /** A digit string with no leading zero is `str` of the number it denotes. */
  lemma DecimalStringOfDigitValue(d: string)
    requires |d| > 0 && AllDigits(d) && (d[0] != '0' || d == "0")
    ensures DecimalString(DigitValue(d)) == d
  {
    if d[0] != '0' {
      LeadingDigitBound(d);
    }
    WidthOfBounds(DigitValue(d), |d|);
    PadOfDigitValue(d);
  }

  /** `str(int)` prints only canonical texts, and every canonical text is
      printed for exactly the integer it denotes. */
  lemma CanonicalIntText(i: int, s: string)
    ensures IsCanonicalIntText(IntToString(i))
    ensures IsCanonicalIntText(s) ==> IntToString(IntValue(s)) == s
  {
    IntToStringIsCanonical(i);
    if IsCanonicalIntText(s) {
      CanonicalTextIsPrinted(s);
    }
  }

  lemma IntToStringIsCanonical(i: int)
    ensures IsCanonicalIntText(IntToString(i))
  {
    IntToStringRoundTrip(i);
    var n := if i < 0 then -i else i;
    DecimalStringLeadingDigit(n);
    if i < 0 {
      assert IntToString(i)[1..] == DecimalString(n);
    }
  }

  lemma CanonicalTextIsPrinted(s: string)
    requires IsCanonicalIntText(s)
    ensures IntToString(IntValue(s)) == s
  {
    if s[0] == '-' {
      var d := s[1..];
      DecimalStringOfDigitValue(d);
      assert d != "0";
      assert DigitValue(d) > 0;
      assert IntToString(IntValue(s)) == "-" + DecimalString(DigitValue(d));
      assert s == "-" + d;
    } else {
      DecimalStringOfDigitValue(s);
    }
  }

  lemma IntToStringRoundTrip(i: int)
    ensures IsIntText(IntToString(i)) && IntValue(IntToString(i)) == i
  {
    var n := if i < 0 then -i else i;
    DigitValueOfPad(n, Width(n));
    var s := IntToString(i);
    if i < 0 {
      assert s[1..] == DecimalString(n);
    } else {
      assert IsDigit(s[0]);
    }
  }

  /** `sep.join(parts)`. */
  function Join(parts: seq<string>, sep: char): string {
    if |parts| == 0 then ""
    else if |parts| == 1 then parts[0]
    else parts[0] + [sep] + Join(parts[1..], sep)
  }

  /** `s.split(sep)`: always at least one piece. */
  function Split(s: string, sep: char): (r: seq<string>)
    ensures |r| >= 1
  {
    if |s| == 0 then [""]
    else
      var rest := Split(s[1..], sep);
      if s[0] == sep then [""] + rest else [[s[0]] + rest[0]] + rest[1..]
  }

  lemma {:induction false} SplitWithoutSep(a: string, sep: char)
    requires sep !in a
    ensures Split(a, sep) == [a]
  {
    if |a| > 0 {
      SplitWithoutSep(a[1..], sep);
      assert [a[0]] + a[1..] == a;
    }
  }

  lemma {:induction false} SplitAtFirstSep(a: string, b: string, sep: char)
    requires sep !in a
    ensures Split(a + [sep] + b, sep) == [a] + Split(b, sep)
  {
    var s := a + [sep] + b;
    if |a| == 0 {
      assert s[1..] == b;
    } else {
      assert s[1..] == a[1..] + [sep] + b;
      SplitAtFirstSep(a[1..], b, sep);
      assert [a[0]] + a[1..] == a;
    }
  }

  /** Joining pieces that do not contain the separator and splitting the
      result gives the pieces back. */
  lemma {:induction false} SplitJoin(parts: seq<string>, sep: char)
    requires |parts| > 0
    requires forall i | 0 <= i < |parts| :: sep !in parts[i]
    ensures Split(Join(parts, sep), sep) == parts
  {
    if |parts| == 1 {
      SplitWithoutSep(parts[0], sep);
    } else {
      SplitJoin(parts[1..], sep);
      SplitAtFirstSep(parts[0], Join(parts[1..], sep), sep);
      assert [parts[0]] + parts[1..] == parts;
    }
  }
}
