/**
 * Decimal numerals: Python's `str(n)` for integers, the `:0Nd` zero-padded
 * format, and a plain decimal grammar standing for what `float()` accepts.
 * Numbers are exact (`int`, `real`), never floating point.
 */
module Numerals {
  import opened Wrappers
  import opened Text

  predicate IsDigit(c: char) {
    '0' <= c <= '9'
  }

  predicate AllDigits(s: string) {
    forall k :: 0 <= k < |s| ==> IsDigit(s[k])
  }

  function DigitValue(c: char): (d: nat)
    requires IsDigit(c)
    ensures d < 10
  {
    (c as int) - ('0' as int)
  }

  function DigitChar(d: nat): (c: char)
    requires d < 10
    ensures IsDigit(c) && DigitValue(c) == d
  {
    ('0' as int + d) as char
  }

  /** The value of a string of decimal digits, most significant first. */
  function DigitsValue(s: string): nat
    requires AllDigits(s)
  {
    if s == [] then 0 else DigitsValue(s[..|s| - 1]) * 10 + DigitValue(s[|s| - 1])
  }

  function Pow10(k: nat): (p: nat)
    ensures p >= 1
  {
    if k == 0 then 1 else 10 * Pow10(k - 1)
  }

  /** Python's `str(n)` for `n >= 0`: the digits of `n`, without leading zeros. */
  function NatToString(n: nat): (s: string)
    ensures 1 <= |s| && AllDigits(s)
    ensures |s| > 1 ==> s[0] != '0'
  {
    if n < 10 then [DigitChar(n)] else NatToString(n / 10) + [DigitChar(n % 10)]
  }

  /** Reading back what `NatToString` wrote gives the number. */
  lemma {:induction false} NatToStringRoundTrip(n: nat)
    ensures DigitsValue(NatToString(n)) == n
  {
    if n >= 10 {
      var s := NatToString(n / 10) + [DigitChar(n % 10)];
      assert s[..|s| - 1] == NatToString(n / 10);
      NatToStringRoundTrip(n / 10);
    }
  }

  /** Python's `str(i)` for any integer. */
  function IntToString(i: int): (s: string)
    ensures i >= 0 ==> s == NatToString(i)
    ensures i < 0 ==> s == "-" + NatToString(-i)
  {
    if i < 0 then "-" + NatToString(-i) else NatToString(i)
  }

  /** Different naturals are written differently. */
  lemma NatToStringInjective(m: nat, n: nat)
    requires NatToString(m) == NatToString(n)
    ensures m == n
  {
    NatToStringRoundTrip(m);
    NatToStringRoundTrip(n);
  }

  /** Different integers are written differently. */
  lemma IntToStringInjective(a: int, b: int)
    requires IntToString(a) == IntToString(b)
    ensures a == b
  {
    var s := IntToString(a);
    assert (a < 0) == (s[0] == '-') by {
      if a >= 0 { assert IsDigit(NatToString(a)[0]); }
    }
    assert (b < 0) == (s[0] == '-') by {
      if b >= 0 { assert IsDigit(NatToString(b)[0]); }
    }
    if a >= 0 {
      NatToStringInjective(a, b);
    } else {
      assert NatToString(-a) == s[1..] == NatToString(-b);
      NatToStringInjective(-a, -b);
    }
  }

  /**
   * Python's `f'{n:0{w}d}'` for `n < 10^w`: exactly `w` digits, zero-padded
   * on the left.
   */
  function Pad(n: nat, w: nat): (s: string)
    requires n < Pow10(w)
    ensures |s| == w && AllDigits(s)
  {
    if w == 0 then [] else Pad(n / 10, w - 1) + [DigitChar(n % 10)]
  }

  /** Reading back a zero-padded numeral gives the number. */
  lemma {:induction false} PadRoundTrip(n: nat, w: nat)
    requires n < Pow10(w)
    ensures DigitsValue(Pad(n, w)) == n
  {
    if w > 0 {
      var s := Pad(n / 10, w - 1) + [DigitChar(n % 10)];
      assert s[..|s| - 1] == Pad(n / 10, w - 1);
      PadRoundTrip(n / 10, w - 1);
    }
  }

  /** A string of digits holds no decimal point. */
  lemma NoDotInDigits(s: string)
    requires AllDigits(s)
    ensures '.' !in s
  {
    forall k | 0 <= k < |s| ensures s[k] != '.' {
      assert IsDigit(s[k]);
    }
  }

  /** The value of `whole.frac` with `frac` read as a decimal fraction. */
  function FixedValue(whole: string, frac: string): real
    requires AllDigits(whole) && AllDigits(frac)
  {
    DigitsValue(whole) as real + DigitsValue(frac) as real / Pow10(|frac|) as real
  }

  /**
   * An unsigned decimal: `digits`, `digits.`, `digits.digits` or `.digits`
   * (at least one digit in all).
   */
  function ParseUnsigned(s: string): (r: Option<real>)
    ensures r.Some? ==> r.value >= 0.0
    ensures r.Some? ==> s != [] && forall k :: 0 <= k < |s| ==> IsDigit(s[k]) || s[k] == '.'
    ensures AllDigits(s) && s != [] ==> r == Some(DigitsValue(s) as real)
  {
    var i := IndexOf(s, '.');
    var whole := s[..i];
    var frac := if i < |s| then s[i + 1..] else [];
    assert i == |s| ==> whole == s;
    assert forall k :: 0 <= k < i ==> s[k] == whole[k];
    assert forall k :: i < k < |s| ==> s[k] == frac[k - i - 1];
    assert AllDigits(s) ==> '.' !in s by {
      if AllDigits(s) {
        NoDotInDigits(s);
      }
    }
    if i == |s| then
      if AllDigits(s) && s != [] then Some(DigitsValue(s) as real) else None
    else if AllDigits(whole) && AllDigits(frac) && |whole| + |frac| > 0 then
      Some(FixedValue(whole, frac))
    else
      None
  }

  /**
   * The decimal grammar `sign? unsigned` that stands for Python's `float()`
   * here; the text is already stripped by every caller.
   */
  function ParseDecimal(s: string): (r: Option<real>)
    ensures r.Some? ==> s != []
    ensures r.Some? ==> forall k :: 0 <= k < |s| ==>
      IsDigit(s[k]) || s[k] == '.' || (k == 0 && (s[k] == '+' || s[k] == '-'))
    ensures AllDigits(s) && s != [] ==> r == Some(DigitsValue(s) as real)
  {
    if s != [] && (s[0] == '+' || s[0] == '-') then
      assert forall k :: 1 <= k < |s| ==> s[k] == s[1..][k - 1];
      match ParseUnsigned(s[1..])
      case Some(v) => Some(if s[0] == '-' then -v else v)
      case None => None
    else
      ParseUnsigned(s)
  }

  /** `d` dollars and `m` cents written `d.mm`, the way prices appear in the catalog. */
  function FormatDollars(d: nat, m: nat): string
    requires m < 100
  {
    NatToString(d) + "." + Pad(m, 2)
  }

  /** The decimal grammar reads `d.mm` back as exactly `d + m / 100`. */
  lemma ParseFormatDollars(d: nat, m: nat, usd: real)
    requires m < 100 && usd == d as real + m as real / 100.0
    ensures ParseDecimal(FormatDollars(d, m)) == Some(usd)
  {
    FixedDollarsCents(d, m);
    ParseFixed(NatToString(d), Pad(m, 2), usd);
  }

  lemma FixedDollarsCents(d: nat, m: nat)
    requires m < 100
    ensures FixedValue(NatToString(d), Pad(m, 2)) == d as real + m as real / 100.0
  {
    NatToStringRoundTrip(d);
    PadRoundTrip(m, 2);
    assert Pow10(2) == 100;
  }

  /** Digits, a point and digits read as the fixed-point value `v` they spell. */
  lemma ParseFixed(whole: string, frac: string, v: real)
    requires whole != [] && AllDigits(whole) && AllDigits(frac) && FixedValue(whole, frac) == v
    ensures ParseDecimal(whole + "." + frac) == Some(v)
  {
    var s := whole + "." + frac;
    assert s[0] == whole[0];
    NoDotInDigits(whole);
    assert s[|whole|] == '.';
    assert s[..|whole|] == whole;
    assert IndexOf(s, '.') == |whole|;
    assert s[|whole| + 1..] == frac;
  }
}
