/** Rust's fixed-width integer arithmetic, written out over Dafny's unbounded `int`.

Rust's `/` and `%` truncate toward zero (Dafny's are Euclidean), its `checked_*`
operations return `None` on overflow, and an unchecked operation that overflows
panics in a debug build; each of these is spelled out here.
 */
module Ints {
  import opened Wrappers

  const I32_MIN: int := -0x8000_0000
  const I32_MAX: int := 0x7fff_ffff
  const I64_MIN: int := -0x8000_0000_0000_0000
  const I64_MAX: int := 0x7fff_ffff_ffff_ffff
  const U32_MODULUS: int := 0x1_0000_0000

  predicate IsI32(x: int) {
    I32_MIN <= x <= I32_MAX
  }

  predicate IsI64(x: int) {
    I64_MIN <= x <= I64_MAX
  }

  function Abs(x: int): nat {
    if x < 0 then -x else x
  }

  /** Rust's integer `/`: the quotient rounded toward zero. */
  function Quot(a: int, b: int): int
    requires b != 0
  {
    if (a >= 0) == (b > 0) then Abs(a) / Abs(b) else -(Abs(a) / Abs(b))
  }

  /** Rust's integer `%`: the remainder that goes with `Quot`. */
  function Rem(a: int, b: int): int
    requires b != 0
  {
    a - b * Quot(a, b)
  }

  /** Truncating division and remainder reassemble the dividend, the remainder is
      smaller than the divisor and carries the dividend's sign. */
  lemma {:induction false} QuotRem(a: int, b: int)
    requires b != 0
    ensures a == b * Quot(a, b) + Rem(a, b)
    ensures Abs(Rem(a, b)) < Abs(b)
    ensures a >= 0 ==> Rem(a, b) >= 0
    ensures a <= 0 ==> Rem(a, b) <= 0
  {
    var q := Abs(a) / Abs(b);
    var r := Abs(a) % Abs(b);
    assert Abs(a) == Abs(b) * q + r;
    if a >= 0 && b > 0 {
      assert Rem(a, b) == r;
    } else if a >= 0 && b < 0 {
      assert Quot(a, b) == -q;
      assert b * Quot(a, b) == Abs(b) * q;
      assert Rem(a, b) == r;
    } else if a < 0 && b > 0 {
      assert Quot(a, b) == -q;
      assert b * Quot(a, b) == -(Abs(b) * q);
      assert Rem(a, b) == -r;
    } else {
      assert Quot(a, b) == q;
      assert b * Quot(a, b) == -(Abs(b) * q);
      assert Rem(a, b) == -r;
    }
  }

  /** `i64::checked_div` / `i32::checked_div` on a range [lo, hi]: `None` for a zero
      divisor and for the one quotient that leaves the range. */
  function CheckedQuot(a: int, b: int, lo: int, hi: int): Option<int> {
    if b == 0 then None
    else if lo <= Quot(a, b) <= hi then Some(Quot(a, b))
    else None
  }

  /** `checked_rem`: `None` for a zero divisor and for MIN % -1, whose quotient overflows. */
  function CheckedRem(a: int, b: int, lo: int): Option<int> {
    if b == 0 || (a == lo && b == -1) then None else Some(Rem(a, b))
  }

  /** The quotient of two in-range values leaves the range exactly for MIN / -1. */
  lemma {:induction false} CheckedQuotFails(a: int, b: int, lo: int, hi: int)
    requires lo < 0 < hi && hi == -lo - 1
    requires lo <= a <= hi && lo <= b <= hi
    ensures CheckedQuot(a, b, lo, hi).None? <==> b == 0 || (a == lo && b == -1)
  {
    if b != 0 {
      var q := Quot(a, b);
      if b == -1 || b == 1 {
        assert Abs(q) == Abs(a);
      } else {
        assert Abs(b) >= 2;
        DivShrinks(Abs(a), Abs(b));
      }
    }
  }

  lemma DivShrinks(n: nat, d: nat)
    requires d >= 2
    ensures n / d <= n
  {
  }

  /** Overflow-checked addition, subtraction and multiplication on [lo, hi]. */
  function Checked(x: int, lo: int, hi: int): Option<int> {
    if lo <= x <= hi then Some(x) else None
  }

  /** `n` to the power `e`. */
  function Power(n: int, e: nat): int
    decreases e
  {
    if e == 0 then 1 else n * Power(n, e - 1)
  }

  /** The decimal digit character for a digit value. */
  function DigitChar(d: nat): (c: char)
    requires d < 10
    ensures '0' <= c <= '9'
    ensures c as int - '0' as int == d
  {
    ('0' as int + d) as char
  }

  predicate IsDigit(c: char) {
    '0' <= c <= '9'
  }

  predicate AllDigits(s: string) {
    forall k :: 0 <= k < |s| ==> IsDigit(s[k])
  }

  /** Rust's `to_string` of a non-negative integer: its shortest decimal form. */
  function NatToDecimal(n: nat): (s: string)
    decreases n
    ensures |s| >= 1 && AllDigits(s)
    ensures |s| > 1 ==> s[0] != '0'
  {
    if n < 10 then [DigitChar(n)] else NatToDecimal(n / 10) + [DigitChar(n % 10)]
  }

  /** Rust's `to_string` of any integer: a minus sign for negatives, then the digits. */
  function IntToDecimal(x: int): string {
    if x < 0 then "-" + NatToDecimal(-x) else NatToDecimal(x)
  }

  /** The value of a string of decimal digits. */
  function DigitsValue(s: string): nat
    requires AllDigits(s)
    decreases |s|
  {
    if |s| == 0 then 0
    else 10 * DigitsValue(s[..|s| - 1]) + (s[|s| - 1] as int - '0' as int)
  }

  lemma {:induction false} NatToDecimalValue(n: nat)
    ensures DigitsValue(NatToDecimal(n)) == n
    decreases n
  {
    var s := NatToDecimal(n);
    if n >= 10 {
      NatToDecimalValue(n / 10);
      assert s[..|s| - 1] == NatToDecimal(n / 10);
    }
  }

  /** Rust's `str::parse::<i32>()` (and `i64` with the other bounds): an optional sign,
      then one or more decimal digits, whose value must fit the range. */
  function ParseInt(s: string, lo: int, hi: int): (r: Option<int>)
    ensures r.Some? ==> lo <= r.value <= hi
  {
    if |s| == 0 then None
    else if (s[0] == '+' || s[0] == '-') && |s| == 1 then None
    else
      var neg := s[0] == '-';
      var digits := if s[0] == '+' || s[0] == '-' then s[1..] else s;
      if !AllDigits(digits) then None
      else
        var d: int := DigitsValue(digits);
        var v := if neg then -d else d;
        if lo <= v <= hi then Some(v) else None
  }

  /** Rendering an in-range integer and parsing it back gives the integer. */
  lemma {:induction false} ParseIntRoundTrip(x: int, lo: int, hi: int)
    requires lo <= x <= hi
    ensures ParseInt(IntToDecimal(x), lo, hi) == Some(x)
  {
    var s := IntToDecimal(x);
    if x < 0 {
      var n := NatToDecimal(-x);
      NatToDecimalValue(-x);
      assert s[0] == '-' && |s| > 1;
      assert s[1..] == n;
      assert DigitsValue(s[1..]) == -x;
    } else {
      NatToDecimalValue(x);
      assert IsDigit(s[0]);
      assert DigitsValue(s) == x;
    }
  }

  /** `str::repeat`: `n` copies of `s` one after another. */
  function Repeat(s: string, n: nat): (r: string)
    decreases n
    ensures |r| == |s| * n
  {
    if n == 0 then "" else s + Repeat(s, n - 1)
  }

  /** `str.repeat(num as usize)`: a negative count becomes a huge `usize`, which
      only an empty string survives (any other string overflows its capacity). */
  function RepeatString(s: string, num: int): (r: Result<string>)
    ensures num >= 0 ==> r == Ok(Repeat(s, num))
    ensures num < 0 ==> (r.Ok? <==> s == [])
    ensures r.Ok? ==> (r.value == [] <==> s == [] || num == 0)
  {
    if num >= 0 then
      (if s == [] || num == 0 then assert Repeat(s, num) == []; Ok(Repeat(s, num))
       else Ok(Repeat(s, num)))
    else if s == [] then Ok([])
    else Err("capacity overflow")
  }

  lemma ModStep(k: int, m: int)
    requires m > 0 && k >= m
    ensures (k - m) % m == k % m
  {
    var q, r := k / m, k % m;
    assert k == m * q + r;
    assert k - m == m * (q - 1) + r;
    ModUnique(k - m, m, q - 1, r);
  }

  /** Euclidean division is unique: x == m * a + b with 0 <= b < m fixes x % m. */
  lemma ModUnique(x: int, m: int, a: int, b: int)
    requires m > 0 && 0 <= b < m && x == m * a + b
    ensures x % m == b
  {
    var q, r := x / m, x % m;
    assert x == m * q + r;
    Distribute(m, a, q);
    assert m * (a - q) == r - b;
    if a > q {
      MulAtLeast(m, a - q);
    } else if a < q {
      Distribute(m, q, a);
      MulAtLeast(m, q - a);
    }
  }

  lemma Distribute(m: int, a: int, b: int)
    ensures m * (a - b) == m * a - m * b
  {
  }

  lemma MulAtLeast(m: int, d: int)
    requires m > 0 && d >= 1
    ensures m * d >= m
  {
  }

  /** Character `k` of a repetition is character `k mod |s|` of `s`. */
  lemma {:induction false} RepeatAt(s: string, n: nat, k: nat)
    requires k < |Repeat(s, n)|
    ensures |s| > 0 && Repeat(s, n)[k] == s[k % |s|]
    decreases n
  {
    if k >= |s| {
      RepeatAt(s, n - 1, k - |s|);
      ModStep(k, |s|);
    }
  }
}
