/**
 * Decimal rendering of 64-bit integers, as Go's `strconv.FormatInt(x, 10)`
 * produces it, together with its inverse. The allow-list compares tweet IDs
 * through this rendering, so its exactness is what makes the allow-list exact.
 */
module Strconv {

  const MinInt64: int := -0x8000_0000_0000_0000
  const MaxInt64: int := 0x7fff_ffff_ffff_ffff

  /** Go's `int64`. */
  type Int64 = x: int | MinInt64 <= x <= MaxInt64

  predicate IsDigit(c: char) {
    '0' <= c <= '9'
  }

  predicate AllDigits(s: string) {
    forall i :: 0 <= i < |s| ==> IsDigit(s[i])
  }

  function DigitValue(c: char): (d: int)
    requires IsDigit(c)
    ensures 0 <= d < 10
  {
    c as int - '0' as int
  }

  function DigitChar(d: int): (c: char)
    requires 0 <= d < 10
    ensures IsDigit(c) && DigitValue(c) == d
  {
    ('0' as int + d) as char
  }

  /** A non-empty digit string without a superfluous leading zero. */
  predicate IsUnsignedDecimal(s: string) {
    |s| >= 1 && AllDigits(s) && (s[0] == '0' ==> |s| == 1)
  }

  /**
   * The only shape `FormatInt` ever produces: an unsigned decimal, or a minus
   * sign followed by an unsigned decimal that is not zero. No '+' sign, no
   * padding zeros, no white space.
   */
  predicate IsCanonicalDecimal(s: string) {
    || IsUnsignedDecimal(s)
    || (|s| >= 2 && s[0] == '-' && s[1] != '0' && IsUnsignedDecimal(s[1..]))
  }

  /** The base-10 digits of `n`, most significant first. */
  function Digits(n: nat): (s: string)
    ensures IsUnsignedDecimal(s)
    ensures s[0] == '0' <==> n == 0
    decreases n
  {
    if n < 10 then [DigitChar(n)] else Digits(n / 10) + [DigitChar(n % 10)]
  }

  /** The number a digit string denotes. */
  function DecimalValue(s: string): (n: nat)
    requires AllDigits(s)
    decreases |s|
  {
    if |s| == 0 then 0 else DecimalValue(s[..|s| - 1]) * 10 + DigitValue(s[|s| - 1])
  }

  /** `strconv.FormatInt(x, 10)`. */
  function FormatInt(x: int): (s: string)
    ensures IsCanonicalDecimal(s)
    ensures s[0] == '-' <==> x < 0
  {
    if x < 0 then "-" + Digits(-x) else Digits(x)
  }

  /** The integer a canonical decimal denotes: the inverse of `FormatInt`. */
  function DecimalToInt(s: string): int
    requires IsCanonicalDecimal(s)
  {
    if s[0] == '-' then -(DecimalValue(s[1..]) as int) else DecimalValue(s)
  }

  lemma {:induction false} DigitsRoundTrip(n: nat)
    ensures DecimalValue(Digits(n)) == n
    decreases n
  {
    if n >= 10 {
      var s := Digits(n);
      assert s[..|s| - 1] == Digits(n / 10);
      DigitsRoundTrip(n / 10);
    }
  }

  /** A digit string that does not start with '0' denotes a positive number. */
  lemma {:induction false} LeadingNonZeroIsPositive(s: string)
    requires |s| >= 1 && AllDigits(s) && s[0] != '0'
    ensures DecimalValue(s) >= 1
    decreases |s|
  {
    if |s| > 1 {
      var pre := s[..|s| - 1];
      assert pre[0] == s[0];
      LeadingNonZeroIsPositive(pre);
    }
  }

  lemma {:induction false} UnsignedRoundTrip(s: string)
    requires IsUnsignedDecimal(s)
    ensures Digits(DecimalValue(s)) == s
    decreases |s|
  {
    var c := s[|s| - 1];
    if |s| == 1 {
      assert DecimalValue(s) == DigitValue(c);
      assert DigitChar(DigitValue(c)) == c;
    } else {
      var pre := s[..|s| - 1];
      assert pre[0] == s[0];
      LeadingNonZeroIsPositive(pre);
      UnsignedRoundTrip(pre);
      var n := DecimalValue(s);
      assert n / 10 == DecimalValue(pre) && n % 10 == DigitValue(c);
      assert DigitChar(DigitValue(c)) == c;
      assert s == pre + [c];
    }
  }

  /** Parsing what `FormatInt` rendered gives the number back. */
  lemma FormatIntRoundTrip(x: int)
    ensures DecimalToInt(FormatInt(x)) == x
  {
    if x < 0 {
      assert FormatInt(x)[1..] == Digits(-x);
      DigitsRoundTrip(-x);
    } else {
      DigitsRoundTrip(x);
    }
  }

  /** Every canonical decimal is the rendering of the number it denotes. */
  lemma CanonicalRoundTrip(s: string)
    requires IsCanonicalDecimal(s)
    ensures FormatInt(DecimalToInt(s)) == s
  {
    if s[0] == '-' {
      var u := s[1..];
      LeadingNonZeroIsPositive(u);
      UnsignedRoundTrip(u);
      assert s == "-" + u;
    } else {
      UnsignedRoundTrip(s);
    }
  }

  /** Distinct integers have distinct renderings. */
  lemma FormatIntInjective(a: int, b: int)
    ensures FormatInt(a) == FormatInt(b) <==> a == b
  {
    if FormatInt(a) == FormatInt(b) {
      FormatIntRoundTrip(a);
      FormatIntRoundTrip(b);
    }
  }
}
