/** The binary value operations of the third-generation machine (`operate` and
the functions it dispatches to). The same code, on 32-bit integers, is repeated
under `src/vm/value/`; both are this module, with the integer width as a
parameter.

Integer results are checked: a result outside the width's range raises an
overflow error instead of wrapping. Floats are exact reals (see Floats).
 */
module VmArithmetic {
  import opened Wrappers
  import Ints
  import Floats
  import opened VmOpcode
  import VmCommon

  /** The width of `Integer`: `i64` in the machine, `i32` under `src/vm/value/`. */
  datatype Width = W32 | W64 {
    function Lo(): int {
      if W32? then Ints.I32_MIN else Ints.I64_MIN
    }

    function Hi(): int {
      if W32? then Ints.I32_MAX else Ints.I64_MAX
    }

    predicate Fits(x: int) {
      Lo() <= x <= Hi()
    }
  }

  /** The opcodes `operate` is called with. */
  datatype BinOp =
    | Add | Sub | Mul | Div | Mod | Pow | LShift | RShift
    | Equal | NotEqual | More | Less | MoreOrEqual | LessOrEqual

  /** Why an operation raised: operand kinds it does not accept (with the
      operator text of the message), a result out of range, or an opcode
      `operate` does not handle (internal error 0012). */
  datatype Fault = Unsupported(a: Value, b: Value, op: string) | Overflow(msg: string) | UnknownOpcode

  datatype Answer = Done(v: Value) | Raised(fault: Fault)

  const ADD_OVERFLOW := "Integer addition resulted in overflow"
  const SUB_OVERFLOW := "Integer subtraction resulted in overflow"
  const MUL_OVERFLOW := "Integer multiplication resulted in overflow"
  const DIV_OVERFLOW := "Integer division resulted in overflow"
  const REM_OVERFLOW := "Integer remainder resulted in overflow"
  const POW_OVERFLOW := "Integer exponentiation resulted in overflow"

  predicate IsNumber(v: Value) {
    v.Integer? || v.Float?
  }

  /** A number as a real (`as f64` / `as f32` on an integer). */
  function AsReal(v: Value): real
    requires IsNumber(v)
  {
    if v.Integer? then v.n as real else v.x
  }

  /** An integer result of the width, or an overflow error. */
  function CheckedInteger(x: int, w: Width, msg: string): (r: Answer)
    ensures r.Done? <==> w.Fits(x)
    ensures r.Done? ==> r.v == Integer(x)
    ensures r.Raised? ==> r.fault == Overflow(msg)
  {
    if w.Fits(x) then Done(Integer(x)) else Raised(Overflow(msg))
  }

  /** `add`: strings concatenate, two integers add with an overflow check, and
      any pair with a float adds as floats. */
  function Add(a: Value, b: Value, w: Width): (r: Answer)
    ensures r.Done? <==>
      (a.String? && b.String?) || (IsNumber(a) && IsNumber(b) && (a.Integer? && b.Integer? ==> w.Fits(a.n + b.n)))
    ensures a.String? && b.String? ==> r == Done(String(a.s + b.s))
    ensures IsNumber(a) && IsNumber(b) && (a.Float? || b.Float?) ==> r == Done(Float(AsReal(a) + AsReal(b)))
    ensures r.Raised? && !(a.Integer? && b.Integer?) ==> r.fault == Unsupported(a, b, "+")
  {
    match (a, b)
    case (String(x), String(y)) => Done(String(x + y))
    case (Integer(x), Integer(y)) => CheckedInteger(x + y, w, ADD_OVERFLOW)
    case (Integer(x), Float(y)) => Done(Float(x as real + y))
    case (Float(x), Float(y)) => Done(Float(x + y))
    case (Float(x), Integer(y)) => Done(Float(x + y as real))
    case _ => Raised(Unsupported(a, b, "+"))
  }

  /** `sub`: numbers only. */
  function Sub(a: Value, b: Value, w: Width): (r: Answer)
    ensures r.Done? <==> IsNumber(a) && IsNumber(b) && (a.Integer? && b.Integer? ==> w.Fits(a.n - b.n))
    ensures IsNumber(a) && IsNumber(b) && (a.Float? || b.Float?) ==> r == Done(Float(AsReal(a) - AsReal(b)))
    ensures r.Raised? && !(a.Integer? && b.Integer?) ==> r.fault == Unsupported(a, b, "-")
  {
    match (a, b)
    case (Integer(x), Integer(y)) => CheckedInteger(x - y, w, SUB_OVERFLOW)
    case (Integer(x), Float(y)) => Done(Float(x as real - y))
    case (Float(x), Float(y)) => Done(Float(x - y))
    case (Float(x), Integer(y)) => Done(Float(x - y as real))
    case _ => Raised(Unsupported(a, b, "-"))
  }

  /** `mul`: numbers, and a string times an integer repeats the string (the
      count is cast to `usize`, so a negative count fails unless the string is
      empty). An integer times a string is unsupported. */
  function Mul(a: Value, b: Value, w: Width): (r: Answer)
    ensures r.Done? ==> (IsNumber(a) && IsNumber(b)) || (a.String? && b.Integer?)
    ensures a.Integer? && b.Integer? ==> (r.Done? <==> w.Fits(a.n * b.n))
    ensures IsNumber(a) && IsNumber(b) && (a.Float? || b.Float?) ==> r == Done(Float(AsReal(a) * AsReal(b)))
    ensures a.String? && b.Integer? && b.n >= 0 ==> r == Done(String(Ints.Repeat(a.s, b.n)))
    ensures a.Integer? && b.String? ==> r == Raised(Unsupported(a, b, "*"))
  {
    if a.String? && b.Integer? then
      match Ints.RepeatString(a.s, b.n)
      case Ok(t) => Done(String(t))
      case Err(e) => Raised(Overflow(e))
    else if a.Integer? && b.Integer? then CheckedInteger(a.n * b.n, w, MUL_OVERFLOW)
    else if IsNumber(a) && IsNumber(b) then Done(Float(AsReal(a) * AsReal(b)))
    else Raised(Unsupported(a, b, "*"))
  }

  /** `div`: integer division truncates toward zero and fails on a zero divisor
      and on the one quotient out of range; float division is `Floats.Div`. */
  function Div(a: Value, b: Value, w: Width): (r: Answer)
    ensures r.Done? ==> IsNumber(a) && IsNumber(b)
    ensures a.Integer? && b.Integer? ==>
      (r.Done? <==> b.n != 0 && w.Fits(Ints.Quot(a.n, b.n)))
      && (r.Done? ==> r.v == Integer(Ints.Quot(a.n, b.n)))
    ensures IsNumber(a) && IsNumber(b) && (a.Float? || b.Float?) ==> r == Done(Float(Floats.Div(AsReal(a), AsReal(b))))
  {
    match (a, b)
    case (Integer(x), Integer(y)) =>
      (match Ints.CheckedQuot(x, y, w.Lo(), w.Hi())
       case Some(q) => Done(Integer(q))
       case None => Raised(Overflow(DIV_OVERFLOW)))
    case (Integer(x), Float(y)) => Done(Float(Floats.Div(x as real, y)))
    case (Float(x), Float(y)) => Done(Float(Floats.Div(x, y)))
    case (Float(x), Integer(y)) => Done(Float(Floats.Div(x, y as real)))
    case _ => Raised(Unsupported(a, b, "/"))
  }

  /** `rem`: the truncating remainder; it fails on a zero divisor and on MIN % -1. */
  function Rem(a: Value, b: Value, w: Width): (r: Answer)
    ensures r.Done? ==> IsNumber(a) && IsNumber(b)
    ensures a.Integer? && b.Integer? ==>
      (r.Done? <==> b.n != 0 && !(a.n == w.Lo() && b.n == -1))
      && (r.Done? ==> r.v == Integer(Ints.Rem(a.n, b.n)))
    ensures IsNumber(a) && IsNumber(b) && (a.Float? || b.Float?) ==> r == Done(Float(Floats.Rem(AsReal(a), AsReal(b))))
  {
    match (a, b)
    case (Integer(x), Integer(y)) =>
      (match Ints.CheckedRem(x, y, w.Lo())
       case Some(m) => Done(Integer(m))
       case None => Raised(Overflow(REM_OVERFLOW)))
    case (Integer(x), Float(y)) => Done(Float(Floats.Rem(x as real, y)))
    case (Float(x), Float(y)) => Done(Float(Floats.Rem(x, y)))
    case (Float(x), Integer(y)) => Done(Float(Floats.Rem(x, y as real)))
    case _ => Raised(Unsupported(a, b, "%"))
  }

  /** `pow`: integers only, through `exponentiate`; every other pairing is
      reported with the operator text "%". */
  function Pow(a: Value, b: Value, w: Width): (r: Answer)
    ensures r.Done? ==> a.Integer? && b.Integer?
    ensures !(a.Integer? && b.Integer?) ==> r == Raised(Unsupported(a, b, "%"))
    ensures a.Integer? && b.Integer? && b.n <= 1 ==> r == Done(a)
  {
    match (a, b)
    case (Integer(x), Integer(y)) =>
      (match VmCommon.Exponentiate(x, y, w.Lo(), w.Hi())
       case Some(p) => Done(Integer(p))
       case None => Raised(Overflow(POW_OVERFLOW)))
    case _ => Raised(Unsupported(a, b, "%"))
  }

  /** `eq`: structural equality, defined on every pair. */
  function Eq(a: Value, b: Value): (r: Answer)
    ensures r.Done? && r.v.Bool? && (r.v.b <==> a == b)
  {
    Done(Bool(a == b))
  }

  /** `neq`: structural inequality, defined on every pair. */
  function Neq(a: Value, b: Value): (r: Answer)
    ensures r.Done? && r.v.Bool? && (r.v.b <==> a != b)
  {
    Done(Bool(a != b))
  }

  /** An ordering on numbers; any other pairing is unsupported. */
  function Compare(a: Value, b: Value, o: string, holds: (real, real) -> bool): (r: Answer)
    ensures r.Done? <==> IsNumber(a) && IsNumber(b)
    ensures r.Done? ==> r.v == Bool(holds(AsReal(a), AsReal(b)))
    ensures r.Raised? ==> r.fault == Unsupported(a, b, o)
  {
    if IsNumber(a) && IsNumber(b) then Done(Bool(holds(AsReal(a), AsReal(b))))
    else Raised(Unsupported(a, b, o))
  }

  /** `more`: a > b. */
  function More(a: Value, b: Value): (r: Answer)
    ensures r.Done? <==> IsNumber(a) && IsNumber(b)
    ensures r.Done? ==> r.v == Bool(AsReal(a) > AsReal(b))
  {
    Compare(a, b, ">", (x: real, y: real) => x > y)
  }

  /** `less`: a < b. */
  function Less(a: Value, b: Value): (r: Answer)
    ensures r.Done? <==> IsNumber(a) && IsNumber(b)
    ensures r.Done? ==> r.v == Bool(AsReal(a) < AsReal(b))
  {
    Compare(a, b, "<", (x: real, y: real) => x < y)
  }

  /** `more_than`: despite its name, a >= b. */
  function MoreThan(a: Value, b: Value): (r: Answer)
    ensures r.Done? <==> IsNumber(a) && IsNumber(b)
    ensures r.Done? ==> r.v == Bool(AsReal(a) >= AsReal(b))
  {
    Compare(a, b, ">=", (x: real, y: real) => x >= y)
  }

  /** `less_than`: despite its name, a <= b. */
  function LessThan(a: Value, b: Value): (r: Answer)
    ensures r.Done? <==> IsNumber(a) && IsNumber(b)
    ensures r.Done? ==> r.v == Bool(AsReal(a) <= AsReal(b))
  {
    Compare(a, b, "<=", (x: real, y: real) => x <= y)
  }

  /** `operate`: the twelve handled opcodes; the shifts are internal error 0012. */
  function Operate(a: Value, b: Value, op: BinOp, w: Width): (r: Answer)
    ensures r == Raised(UnknownOpcode) <==> op.LShift? || op.RShift?
  {
    match op
    case Add => Add(a, b, w)
    case Sub => Sub(a, b, w)
    case Mul => Mul(a, b, w)
    case Div => Div(a, b, w)
    case Mod => Rem(a, b, w)
    case Pow => Pow(a, b, w)
    case Equal => Eq(a, b)
    case NotEqual => Neq(a, b)
    case More => More(a, b)
    case Less => Less(a, b)
    case MoreOrEqual => MoreThan(a, b)
    case LessOrEqual => LessThan(a, b)
    case LShift => Raised(UnknownOpcode)
    case RShift => Raised(UnknownOpcode)
  }

  // ------------------------------------------------------------------ properties

  /** Subtracting the addend again gives back the integer an addition started from. */
  lemma AddThenSub(x: int, y: int, w: Width)
    requires w.Fits(x)
    requires Add(Integer(x), Integer(y), w).Done?
    ensures Sub(Add(Integer(x), Integer(y), w).v, Integer(y), w) == Done(Integer(x))
  {
  }

  /** Number addition commutes; string addition is concatenation, which does not. */
  lemma AddCommutes(a: Value, b: Value, w: Width)
    ensures IsNumber(a) && IsNumber(b) ==> Add(a, b, w) == Add(b, a, w)
    ensures Add(String("a"), String("b"), w) != Add(String("b"), String("a"), w)
  {
    assert "a" + "b" != "b" + "a" by {
      assert ("a" + "b")[0] == 'a';
    }
  }

  /** When quotient and remainder both exist they reassemble the dividend, and the
      remainder is smaller than the divisor and has the dividend's sign. */
  lemma DivRemReassemble(x: int, y: int, w: Width)
    requires Div(Integer(x), Integer(y), w).Done? && Rem(Integer(x), Integer(y), w).Done?
    ensures var q := Div(Integer(x), Integer(y), w).v.n;
      var m := Rem(Integer(x), Integer(y), w).v.n;
      x == y * q + m && Ints.Abs(m) < Ints.Abs(y) && (x >= 0 ==> m >= 0) && (x <= 0 ==> m <= 0)
  {
    Ints.QuotRem(x, y);
  }

  /** For in-range operands, integer division fails exactly on a zero divisor and
      on MIN / -1, the same two cases in which the remainder fails. */
  lemma DivFailsExactly(x: int, y: int, w: Width)
    requires w.Fits(x) && w.Fits(y)
    ensures Div(Integer(x), Integer(y), w).Raised? <==> y == 0 || (x == w.Lo() && y == -1)
    ensures Div(Integer(x), Integer(y), w).Raised? <==> Rem(Integer(x), Integer(y), w).Raised?
  {
    Ints.CheckedQuotFails(x, y, w.Lo(), w.Hi());
  }

  /** A string times a count is the string count times over; character k of the
      result is character k mod |s| of the string. */
  lemma MulRepeats(s: string, count: int, w: Width)
    requires count >= 0
    ensures var r := Mul(String(s), Integer(count), w);
      r.Done? && r.v.String? && |r.v.s| == |s| * count
      && forall k :: 0 <= k < |r.v.s| ==> r.v.s[k] == s[k % |s|]
  {
    var r := Mul(String(s), Integer(count), w);
    forall k | 0 <= k < |r.v.s| ensures r.v.s[k] == s[k % |s|] {
      Ints.RepeatAt(s, count, k);
    }
  }

  /** Raising to e + 1 is raising to e and multiplying once more by the base:
      it overflows exactly when that multiplication does (with its own message). */
  lemma PowIsRepeatedMul(x: int, e: int, w: Width)
    requires e >= 1
    requires Pow(Integer(x), Integer(e), w).Done?
    ensures var m := Mul(Pow(Integer(x), Integer(e), w).v, Integer(x), w);
      Pow(Integer(x), Integer(e + 1), w).Done? == m.Done? && (m.Done? ==> Pow(Integer(x), Integer(e + 1), w) == m)
  {
    var lo, hi := w.Lo(), w.Hi();
    var p := VmCommon.Exponentiate(x, e, lo, hi).value;
    VmCommon.ExponentiateStep(x, e, lo, hi);
    var q := VmCommon.Exponentiate(x, e + 1, lo, hi);
    assert Pow(Integer(x), Integer(e), w) == Done(Integer(p));
    assert Pow(Integer(x), Integer(e + 1), w) == (if q.Some? then Done(Integer(q.value)) else Raised(Overflow(POW_OVERFLOW)));
    assert Mul(Integer(p), Integer(x), w) == CheckedInteger(p * x, w, MUL_OVERFLOW);
  }

  /** Equality and inequality never raise and always disagree. */
  lemma EqNeqComplement(a: Value, b: Value)
    ensures Eq(a, b).Done? && Neq(a, b).Done?
    ensures Eq(a, b).v.b == !Neq(a, b).v.b
  {
  }

  /** On the numbers of this model (no NaN), `more_than` is the negation of `less`
      and `less_than` the negation of `more`; `more` and `less` are mirror images.
      With a NaN operand the source's comparisons are all false, so the first two
      dualities hold there only for operands that are not NaN. */
  lemma OrderingDuality(a: Value, b: Value)
    requires IsNumber(a) && IsNumber(b)
    ensures MoreThan(a, b).v.b == !Less(a, b).v.b
    ensures LessThan(a, b).v.b == !More(a, b).v.b
    ensures More(a, b) == Less(b, a)
    ensures MoreThan(a, b) == LessThan(b, a)
  {
  }

  /** No ordering accepts a string, a list, a bool or none on either side. */
  lemma OrderingOnNumbersOnly(a: Value, b: Value, op: BinOp, w: Width)
    requires op.More? || op.Less? || op.MoreOrEqual? || op.LessOrEqual?
    requires !IsNumber(a) || !IsNumber(b)
    ensures Operate(a, b, op, w).Raised? && Operate(a, b, op, w).fault.Unsupported?
  {
  }
}
