/** Floating-point payloads as exact reals.

Every `f32`/`f64` value of the interpreters is modelled by a `real`. Addition,
subtraction, multiplication and comparison are exact. IEEE results that have no
real counterpart (infinities and NaN from a zero divisor, roots from a fractional
power, rounding) are not modelled: those operations yield 0.0 here.
 */
module Floats {
  import opened Wrappers
  import Ints

  /** `a / b`; a zero divisor yields 0.0 instead of an infinity or NaN. */
  function Div(a: real, b: real): real {
    if b == 0.0 then 0.0 else a / b
  }

  /** The real truncated toward zero, as `as i64` would before saturation. */
  function Trunc(x: real): (r: int)
    ensures 0.0 <= x ==> 0 <= r && r as real <= x < r as real + 1.0
    ensures x < 0.0 ==> r <= 0 && r as real - 1.0 < x <= r as real
  {
    if x >= 0.0 then x.Floor else -((-x).Floor)
  }

  /** `a % b` (fmod: the remainder after a quotient truncated toward zero). */
  function Rem(a: real, b: real): real {
    if b == 0.0 then 0.0 else a - b * (Trunc(a / b) as real)
  }

  /** `a` raised to a natural power. */
  function PowNat(a: real, e: nat): (r: real)
    decreases e
    ensures a > 0.0 ==> r > 0.0
  {
    if e == 0 then 1.0 else a * PowNat(a, e - 1)
  }

  /** `powf`, modelled exactly for natural exponents only. */
  function Pow(a: real, b: real): real {
    if b >= 0.0 && b.Floor as real == b then PowNat(a, b.Floor) else 0.0
  }

  /** Rust's `x as i32`: truncation toward zero, saturating at the bounds of the range. */
  function ToI32(x: real): (r: int)
    ensures Ints.IsI32(r)
    ensures 0.0 <= x < (Ints.I32_MAX + 1) as real ==> r as real <= x < r as real + 1.0
    ensures (Ints.I32_MIN - 1) as real < x < 0.0 ==> r as real - 1.0 < x <= r as real
    ensures x >= (Ints.I32_MAX + 1) as real ==> r == Ints.I32_MAX
    ensures x <= (Ints.I32_MIN - 1) as real ==> r == Ints.I32_MIN
  {
    var t := Trunc(x);
    if t < Ints.I32_MIN then Ints.I32_MIN else if t > Ints.I32_MAX then Ints.I32_MAX else t
  }

  /** Decimal text: digits with at most one '.', at least one digit. */
  predicate IsDecimalText(s: string) {
    (exists k :: 0 <= k < |s| && Ints.IsDigit(s[k]))
    && (forall k :: 0 <= k < |s| ==> Ints.IsDigit(s[k]) || s[k] == '.')
    && DotCount(s) <= 1
  }

  function DotCount(s: string): nat
    decreases |s|
  {
    if |s| == 0 then 0 else DotCount(s[..|s| - 1]) + (if s[|s| - 1] == '.' then 1 else 0)
  }

  /** The exact value of unsigned decimal text with at most one point. */
  function DecimalValue(s: string): real
    requires forall k :: 0 <= k < |s| ==> Ints.IsDigit(s[k]) || s[k] == '.'
  {
    var p := DotPosition(s, 0);
    if p == |s| then
      Ints.DigitsValue(s) as real
    else
      var whole := s[..p];
      var frac := s[p + 1..];
      if Ints.AllDigits(whole) && Ints.AllDigits(frac) then
        Ints.DigitsValue(whole) as real + Ints.DigitsValue(frac) as real / PowNat(10.0, |frac|)
      else 0.0
  }

  /** The index of the first '.' at or after `from`, or |s| if there is none. */
  function DotPosition(s: string, from: nat): (p: nat)
    requires from <= |s|
    decreases |s| - from
    ensures from <= p <= |s|
    ensures p < |s| ==> s[p] == '.'
    ensures forall k :: from <= k < p ==> s[k] != '.'
  {
    if from == |s| || s[from] == '.' then from else DotPosition(s, from + 1)
  }

  /** `str::parse::<f32>()` on decimal text with an optional sign (exponents, "inf" and
      "nan" are not modelled, and rounding to the nearest float is not modelled). */
  function ParseFloat(s: string): (r: Option<real>)
    ensures r.Some? ==> |s| > 0 && exists k :: 0 <= k < |s| && Ints.IsDigit(s[k])
    ensures r.Some? ==> forall k :: 0 < k < |s| ==> Ints.IsDigit(s[k]) || s[k] == '.'
    ensures IsDecimalText(s) ==> r.Some? && r.value >= 0.0
  {
    if |s| == 0 then None
    else
      var neg := s[0] == '-';
      var body := if s[0] == '+' || s[0] == '-' then s[1..] else s;
      if IsDecimalText(body) then
        var v := DecimalValue(body);
        Some(if neg then -v else v)
      else None
  }

  /** Unsigned decimal text reads back as its value, and negated after a '-'. */
  lemma ParseSigned(t: string, x: real)
    requires IsDecimalText(t) && DecimalValue(t) == x
    ensures ParseFloat(t) == Some(x)
    ensures ParseFloat("-" + t) == Some(-x)
  {
    assert ("-" + t)[1..] == t;
  }

  /** A whole number in decimal reads back as itself, and negated after a '-'. */
  lemma ParseWhole(n: nat)
    ensures ParseFloat(Ints.NatToDecimal(n)) == Some(n as real)
    ensures ParseFloat("-" + Ints.NatToDecimal(n)) == Some(-(n as real))
  {
    WholeValue(n);
    ParseSigned(Ints.NatToDecimal(n), n as real);
  }

  /** The spelling of a whole number is decimal text of its value. */
  lemma WholeValue(n: nat)
    ensures IsDecimalText(Ints.NatToDecimal(n))
    ensures DecimalValue(Ints.NatToDecimal(n)) == n as real
  {
    var w := Ints.NatToDecimal(n);
    Ints.NatToDecimalValue(n);
    DigitsAreDecimal(w);
    assert Ints.IsDigit(w[0]);
  }

  /** The spelling `n.d` of a whole number `n` and one digit `d`. */
  function OneDecimal(n: nat, d: nat): string
    requires d < 10
  {
    Ints.NatToDecimal(n) + "." + [Ints.DigitChar(d)]
  }

  /** `n.d` reads back as n + d/10, and negated after a '-'. */
  lemma ParseOneDecimal(n: nat, d: nat)
    requires d < 10
    ensures ParseFloat(OneDecimal(n, d)) == Some(n as real + d as real / 10.0)
    ensures ParseFloat("-" + OneDecimal(n, d)) == Some(-(n as real + d as real / 10.0))
  {
    OneDecimalValue(n, d);
    ParseSigned(OneDecimal(n, d), n as real + d as real / 10.0);
  }

  /** The text `n.d` is decimal text of value n + d/10. */
  lemma OneDecimalValue(n: nat, d: nat)
    requires d < 10
    ensures IsDecimalText(OneDecimal(n, d)) && DotCount(OneDecimal(n, d)) == 1
    ensures DecimalValue(OneDecimal(n, d)) == n as real + d as real / 10.0
  {
    var w := Ints.NatToDecimal(n);
    var f := [Ints.DigitChar(d)];
    var t := w + "." + f;
    Ints.NatToDecimalValue(n);
    assert Ints.DigitsValue(f) == d by {
      assert f[..0] == [];
    }
    DigitsAreDecimal(w);
    PointAfterDigits(w, f);
    assert t[..|w|] == w && t[|w| + 1..] == f;
    assert DotCount(t) == 1 by {
      assert t[..|t| - 1] == w + ".";
      assert (w + ".")[..|w|] == w;
    }
    assert Ints.IsDigit(t[0]);
  }

  /** Digits alone contain no point. */
  lemma {:induction false} DigitsAreDecimal(w: string)
    requires Ints.AllDigits(w)
    ensures DotCount(w) == 0 && DotPosition(w, 0) == |w|
    decreases |w|
  {
    if |w| > 0 {
      DigitsAreDecimal(w[..|w| - 1]);
    }
  }

  /** The first point of `w + "." + f`, for digits `w`, is the one after `w`. */
  lemma PointAfterDigits(w: string, f: string)
    requires Ints.AllDigits(w)
    ensures DotPosition(w + "." + f, 0) == |w|
  {
    assert (w + "." + f)[|w|] == '.';
  }
}
