/** Decimal text: the `{}` and `{:.0f}` formatting the library applies to child counts,
    counters and integral numbers, and std::to_string's fixed six-decimal text of a double. */
module Text {

  predicate IsDigit(c: char) {
    '0' <= c <= '9'
  }

  predicate AllDigits(s: string) {
    forall i | 0 <= i < |s| :: IsDigit(s[i])
  }

  function DigitChar(d: nat): (c: char)
    requires d < 10
    ensures IsDigit(c)
  {
    ('0' as int + d) as char
  }

  function DigitValue(c: char): (d: nat)
    requires IsDigit(c)
    ensures d < 10
  {
    c as int - '0' as int
  }

  /** Shortest decimal text of `n`: digits only, no leading zero. */
  function NatToString(n: nat): (s: string)
    ensures |s| > 0 && AllDigits(s)
    ensures |s| > 1 ==> s[0] != '0'
    decreases n
  {
    if n < 10 then [DigitChar(n)] else NatToString(n / 10) + [DigitChar(n % 10)]
  }

  /** Reads a run of decimal digits, most significant first. */
  function ParseNat(s: string): nat
    requires AllDigits(s)
  {
    if s == [] then 0 else ParseNat(s[..|s| - 1]) * 10 + DigitValue(s[|s| - 1])
  }

  /** The decimal text of a natural number reads back as that number. */
  lemma {:induction false} NatRoundTrip(n: nat)
    ensures ParseNat(NatToString(n)) == n
  {
    var s := NatToString(n);
    if n >= 10 {
      NatRoundTrip(n / 10);
      assert s[..|s| - 1] == NatToString(n / 10);
    }
  }

  /** Different numbers have different decimal texts. */
  lemma NatToStringInjective(m: nat, n: nat)
    ensures NatToString(m) == NatToString(n) ==> m == n
  {
    NatRoundTrip(m);
    NatRoundTrip(n);
  }

  /** Decimal text of an integer, with a leading '-' when negative. */
  function IntToString(i: int): (s: string)
    ensures |s| > 0 && (s[0] == '-' || IsDigit(s[0]))
    ensures i >= 0 <==> AllDigits(s)
  {
    if i < 0 then "-" + NatToString(-i) else NatToString(i)
  }

  predicate IsIntText(s: string) {
    (|s| > 1 && s[0] == '-' && AllDigits(s[1..])) || (|s| > 0 && AllDigits(s))
  }

  function ParseInt(s: string): int
    requires IsIntText(s)
  {
    if s[0] == '-' then -(ParseNat(s[1..]) as int) else ParseNat(s)
  }

  /** The decimal text of an integer is well formed and reads back as that integer. */
  lemma IntRoundTrip(i: int)
    ensures IsIntText(IntToString(i)) && ParseInt(IntToString(i)) == i
  {
    var s := IntToString(i);
    if i < 0 {
      assert s[1..] == NatToString(-i);
      NatRoundTrip(-i);
    } else {
      NatRoundTrip(i);
    }
  }

  function Pow10(k: nat): (p: nat)
    ensures p >= 1
  {
    if k == 0 then 1 else 10 * Pow10(k - 1)
  }

  /** `n` written with exactly `width` digits, leading zeros included. */
  function Padded(n: nat, width: nat): (s: string)
    requires n < Pow10(width)
    ensures |s| == width && AllDigits(s)
    decreases width
  {
    if width == 0 then "" else Padded(n / 10, width - 1) + [DigitChar(n % 10)]
  }

  /** Zero-padded digits read back as the number. */
  lemma {:induction false} PaddedRoundTrip(n: nat, width: nat)
    requires n < Pow10(width)
    ensures ParseNat(Padded(n, width)) == n
    decreases width
  {
    if width > 0 {
      var s := Padded(n, width);
      PaddedRoundTrip(n / 10, width - 1);
      assert s[..|s| - 1] == Padded(n / 10, width - 1);
    }
  }

  /** The integer nearest to `y`, ties going to the even neighbour (the default rounding
      mode of printf-style formatting). */
  function RoundHalfEven(y: real): (k: int)
    ensures -0.5 <= k as real - y <= 0.5
    ensures y >= 0.0 ==> k >= 0
  {
    var f := y.Floor;
    var d := y - f as real;
    if d < 0.5 then f
    else if d > 0.5 then f + 1
    else if f % 2 == 0 then f else f + 1
  }

  function Abs(x: real): (a: real)
    ensures a >= 0.0 && (a == x || a == -x)
  {
    if x < 0.0 then -x else x
  }

  /** The magnitude of `x` in millionths, rounded as printf rounds it. */
  function Millionths(x: real): nat {
    RoundHalfEven(Abs(x) * 1000000.0)
  }

  /** A count of millionths as integer digits, a point and six decimals. */
  function UnsignedFixed(k: nat): string {
    NatToString(k / 1000000) + "." + Padded(k % 1000000, 6)
  }

  /** std::to_string of a double: a '-' for a negative value, the integer part, a point and
      exactly six decimals, the value scaled by 10^6 and rounded to the nearest integer. */
  function FixedSix(x: real): (s: string)
    ensures |s| > 0 && (s[0] == '-' || IsDigit(s[0]))
    ensures '.' in s
  {
    (if x < 0.0 then "-" else "") + UnsignedFixed(Millionths(x))
  }

  lemma UnsignedFixedParts(k: nat)
    ensures var u := UnsignedFixed(k);
      |u| >= 8 && u[|u| - 7] == '.'
      && u[..|u| - 7] == NatToString(k / 1000000) && u[|u| - 6..] == Padded(k % 1000000, 6)
  {
    var ip, fp := NatToString(k / 1000000), Padded(k % 1000000, 6);
    var u := UnsignedFixed(k);
    assert u == ip + ("." + fp);
  }

  /** Where the parts of the six-decimal text sit. */
  lemma FixedSixParts(x: real)
    ensures var s := FixedSix(x);
      var sign := if x < 0.0 then 1 else 0;
      var p := |s| - 7;
      sign < p && s[p] == '.' && (x < 0.0 <==> s[0] == '-')
      && s[sign..p] == NatToString(Millionths(x) / 1000000)
      && s[p + 1..] == Padded(Millionths(x) % 1000000, 6)
  {
    var u := UnsignedFixed(Millionths(x));
    UnsignedFixedParts(Millionths(x));
    var s := FixedSix(x);
    if x < 0.0 {
      assert s == "-" + u;
      assert s[1..|s| - 7] == u[..|u| - 7];
      assert s[|s| - 6..] == u[|u| - 6..];
    } else {
      assert s == u;
    }
  }

  /** The six-decimal text is an optional sign, the integer digits, a point and six digits;
      read back, it is within half a millionth of the number. */
  lemma FixedSixReadsBack(x: real)
    ensures var s := FixedSix(x);
      var sign := if x < 0.0 then 1 else 0;
      var p := |s| - 7;
      sign < p && s[p] == '.'
      && (x < 0.0 <==> s[0] == '-')
      && AllDigits(s[sign..p]) && AllDigits(s[p + 1..])
      && var back := ParseNat(s[sign..p]) * 1000000 + ParseNat(s[p + 1..]);
         -0.5 <= back as real - Abs(x) * 1000000.0 <= 0.5
  {
    var k := Millionths(x);
    FixedSixParts(x);
    NatRoundTrip(k / 1000000);
    PaddedRoundTrip(k % 1000000, 6);
  }
}
