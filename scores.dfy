/** The token-score record shared by every component, and the numeric
    helpers the components repeat: `clamp01`, `Math.round`, `toFixed`. */
module Scores {
  import opened Wrappers
  import opened Text

  /** `{ token, score }` with `score: number | null`. */
  datatype TokenScore = TokenScore(token: string, score: Option<real>)

  function Tokens(ts: seq<TokenScore>): (r: seq<string>)
    ensures |r| == |ts|
    ensures forall i :: 0 <= i < |ts| ==> r[i] == ts[i].token
  {
    seq(|ts|, i requires 0 <= i < |ts| => ts[i].token)
  }

  function Abs(x: real): real {
    if x < 0.0 then -x else x
  }

  function Dist(a: real, b: real): real {
    Abs(a - b)
  }

  /** `clamp01`: the point of [0,1] nearest to `v`. (Parsed numbers are
      never NaN, so the NaN branch of the source has no counterpart.) */
  function Clamp01(v: real): (r: real)
    ensures 0.0 <= r <= 1.0
    ensures 0.0 <= v <= 1.0 ==> r == v
    ensures forall y :: 0.0 <= y <= 1.0 ==> Dist(v, r) <= Dist(v, y)
  {
    if v < 0.0 then 0.0 else if v > 1.0 then 1.0 else v
  }

  lemma Clamp01Idempotent(v: real)
    ensures Clamp01(Clamp01(v)) == Clamp01(v)
  {
  }

  lemma Clamp01Monotone(a: real, b: real)
    requires a <= b
    ensures Clamp01(a) <= Clamp01(b)
  {
  }

  /** `Math.round(x)`: the nearest integer, halves rounded up. */
  function JsRound(x: real): (r: int)
    ensures r as real - 0.5 <= x < r as real + 0.5
    ensures 0.0 <= x ==> 0 <= r
  {
    (x + 0.5).Floor
  }

  lemma JsRoundMonotone(a: real, b: real)
    requires a <= b
    ensures JsRound(a) <= JsRound(b)
  {
  }

  lemma JsRoundOfInt(n: int)
    ensures JsRound(n as real) == n
  {
  }

  function Zeros(n: nat): (r: string)
    ensures |r| == n
    ensures forall c :: c in r ==> c == '0'
  {
    if n == 0 then "" else "0" + Zeros(n - 1)
  }

  predicate AllDigits(s: string) {
    forall c :: c in s ==> IsDigit(c)
  }

  /** Digits as `Number.prototype.toString` writes an integer part: at least
      one, and no leading zero unless the part is the single digit 0. */
  predicate IsNumeral(s: string) {
    |s| >= 1 && AllDigits(s) && (|s| == 1 || s[0] != '0')
  }

  /** `r` is the numeral for `n / 10^digits` with exactly `digits` decimals:
      an integer part, and for `digits > 0` one point followed by exactly
      `digits` digits; the digits without the point read as `n`. */
  predicate WritesScaled(r: string, n: nat, digits: nat) {
    if digits == 0 then IsNumeral(r) && DigitsValue(r) == n
    else
      && |r| >= digits + 2
      && r[|r| - digits - 1] == '.'
      && IsNumeral(r[..|r| - digits - 1])
      && AllDigits(r[|r| - digits..])
      && DigitsValue(r[..|r| - digits - 1]) * Pow10(digits) + DigitsValue(r[|r| - digits..]) == n
  }

  /** The decimal digits of `n`, zero padded on the left to `digits + 1`
      characters when shorter. */
  function PadDigits(n: nat, digits: nat): (r: string)
    ensures |r| > digits
    ensures AllDigits(r)
  {
    var s := NatToString(n);
    if |s| > digits then s
    else Zeros(digits + 1 - |s|) + s
  }

  /** The padded digits read back as `n`, and only padding can put a
      leading zero in front of them. */
  lemma PadDigitsValue(n: nat, digits: nat)
    ensures DigitsValue(PadDigits(n, digits)) == n
    ensures |PadDigits(n, digits)| == digits + 1 || PadDigits(n, digits)[0] != '0'
  {
    var s := NatToString(n);
    NatToStringValue(n);
    if |s| <= digits {
      var z := Zeros(digits + 1 - |s|);
      assert PadDigits(n, digits) == z + s;
      DigitsValueAppend(z, s);
      ZerosValue(z);
    } else {
      assert PadDigits(n, digits) == s;
    }
  }

  /** The integer `n` written as `n / 10^digits` with `digits` decimals:
      its padded digits with a point before the last `digits` of them. */
  function DecimalString(n: nat, digits: nat): (r: string)
    ensures |r| > digits
    ensures forall c :: c in r ==> IsDigit(c) || c == '.'
  {
    var s := PadDigits(n, digits);
    if digits == 0 then s
    else
      var ip, fp := s[..|s| - digits], s[|s| - digits..];
      SliceDigits(s, 0, |s| - digits);
      SliceDigits(s, |s| - digits, |s|);
      PointedChars(ip, fp);
      ip + "." + fp
  }

  /** Read back, `DecimalString(n, digits)` is a numeral with exactly
      `digits` decimals whose value is `n / 10^digits`. */
  lemma DecimalStringValue(n: nat, digits: nat)
    ensures WritesScaled(DecimalString(n, digits), n, digits)
  {
    var s := PadDigits(n, digits);
    PadDigitsValue(n, digits);
    if digits == 0 {
      assert DecimalString(n, digits) == s;
    } else {
      var ip, fp := s[..|s| - digits], s[|s| - digits..];
      assert DecimalString(n, digits) == ip + "." + fp;
      SplitDigits(s, digits);
      PointInserted(ip, fp, n);
    }
  }

  /** Cutting the padded digits before the last `digits` of them gives an
      integer part and `digits` decimals that together read as the number. */
  lemma SplitDigits(s: string, digits: nat)
    requires 0 < digits < |s| && AllDigits(s)
    requires |s| == digits + 1 || s[0] != '0'
    ensures var ip, fp := s[..|s| - digits], s[|s| - digits..];
      && IsNumeral(ip) && AllDigits(fp) && |fp| == digits
      && DigitsValue(ip) * Pow10(digits) + DigitsValue(fp) == DigitsValue(s)
  {
    var k := |s| - digits;
    var ip, fp := s[..k], s[k..];
    SliceDigits(s, 0, k);
    SliceDigits(s, k, |s|);
    assert s[0..k] == ip && s[k..|s|] == fp;
    assert ip + fp == s;
    DigitsValueAppend(ip, fp);
  }

  /** Putting the point between an integer part and its decimals. */
  lemma PointInserted(ip: string, fp: string, n: nat)
    requires IsNumeral(ip) && AllDigits(fp) && |fp| > 0
    requires DigitsValue(ip) * Pow10(|fp|) + DigitsValue(fp) == n
    ensures WritesScaled(ip + "." + fp, n, |fp|)
  {
    var r := ip + "." + fp;
    assert r[..|ip|] == ip;
    assert r[|ip| + 1..] == fp;
    assert |r| - |fp| - 1 == |ip|;
  }

  lemma SliceDigits(s: string, a: nat, b: nat)
    requires a <= b <= |s| && AllDigits(s)
    ensures AllDigits(s[a..b])
  {
    forall c | c in s[a..b]
      ensures IsDigit(c)
    {
      var i :| a <= i < b && s[i] == c;
      assert s[i] in s;
    }
  }

  lemma PointedChars(ip: string, fp: string)
    requires AllDigits(ip) && AllDigits(fp)
    ensures forall c :: c in ip + "." + fp ==> IsDigit(c) || c == '.'
  {
  }

  /** `x.toFixed(digits)` for 0 <= x: the integer n nearest to x * 10^digits
      (the larger one on a tie), written with `digits` decimals. */
  function FixedNonNegative(x: real, digits: nat): (r: string)
    requires 0.0 <= x
    ensures |r| > digits
    ensures forall c :: c in r ==> IsDigit(c) || c == '.'
  {
    DecimalString(JsRound(Scaled(x, digits)), digits)
  }

  /** `x * 10^digits` for 0 <= x, one factor of ten at a time. */
  function Scaled(x: real, digits: nat): (s: real)
    requires 0.0 <= x
    ensures 0.0 <= s
  {
    if digits == 0 then x else 10.0 * Scaled(x, digits - 1)
  }

  lemma {:induction false} ScaledIsProduct(x: real, digits: nat)
    requires 0.0 <= x
    ensures Scaled(x, digits) == x * Pow10(digits) as real
  {
    if digits > 0 {
      ScaledIsProduct(x, digits - 1);
      assert Pow10(digits) as real == 10.0 * Pow10(digits - 1) as real;
    }
  }

  /** Read back, `x.toFixed(digits)` for 0 <= x is the nearest whole number
      of `10^-digits` units, written with exactly `digits` decimals. */
  lemma FixedNonNegativeValue(x: real, digits: nat)
    requires 0.0 <= x
    ensures WritesScaled(FixedNonNegative(x, digits), JsRound(Scaled(x, digits)), digits)
  {
    DecimalStringValue(JsRound(Scaled(x, digits)), digits);
  }

  lemma NonNegativeProduct(a: real, b: real)
    requires 0.0 <= a && 0.0 <= b
    ensures 0.0 <= a * b
  {
  }

  /** `x.toFixed(digits)`: a negative number is written as `-` followed by
      its magnitude (so a small negative number gives `-0.00`). */
  function Fixed(x: real, digits: nat): (r: string)
    ensures forall c :: c in r ==> IsDigit(c) || c == '.' || c == '-'
    ensures |r| >= 1 && (r[0] == '-' <==> x < 0.0)
  {
    if x < 0.0 then "-" + FixedNonNegative(Abs(x), digits)
    else
      var r := FixedNonNegative(x, digits);
      assert r[0] in r;
      r
  }

  /** Read back, `x.toFixed(digits)` is the nearest whole number of
      `10^-digits` units to `x`, with the sign written in front. */
  lemma FixedValue(x: real, digits: nat)
    ensures 0.0 <= x ==> WritesScaled(Fixed(x, digits), JsRound(Scaled(x, digits)), digits)
    ensures x < 0.0 ==> Fixed(x, digits) == "-" + FixedNonNegative(Abs(x), digits)
    ensures x < 0.0 ==> WritesScaled(FixedNonNegative(Abs(x), digits), JsRound(Scaled(Abs(x), digits)), digits)
  {
    FixedNonNegativeValue(Abs(x), digits);
    if 0.0 <= x {
      assert Fixed(x, digits) == FixedNonNegative(x, digits);
      assert Abs(x) == x;
    }
  }

  /** `Number(x.toFixed(3))`: `x` rounded to a whole number of thousandths. */
  function RoundTo3(x: real): (r: real)
    ensures Abs(r - x) <= 0.0005
    ensures (r * 1000.0).Floor as real == r * 1000.0
    ensures 0.0 <= x < 1.0 ==> 0.0 <= r <= 1.0
  {
    JsRound(x * 1000.0) as real / 1000.0
  }

  /** The hue `120 - Math.round(clamp01(score) * 120)` the webviews paint a
      score with: 120 (green) for no risk, 0 (red) for the highest. */
  function Hue(score: real): (h: nat)
    ensures h <= 120
    ensures score <= 0.0 ==> h == 120
    ensures score >= 1.0 ==> h == 0
  {
    var c := Clamp01(score);
    assert 0 <= JsRound(c * 120.0) <= 120;
    120 - JsRound(c * 120.0)
  }

  /** A higher score never gets a greener hue. */
  lemma HueNonIncreasing(a: real, b: real)
    requires a <= b
    ensures Hue(b) <= Hue(a)
  {
    Clamp01Monotone(a, b);
    JsRoundMonotone(Clamp01(a) * 120.0, Clamp01(b) * 120.0);
  }
}
