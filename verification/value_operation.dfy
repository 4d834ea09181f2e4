/** The 32-bit copy of the value operations under `src/vm/value/`: the same
operations as VmArithmetic at width `W32`, with errors worded by the kind names
of ValueException.
 */
module ValueOperation {
  import opened Wrappers
  import Ints
  import opened VmOpcode
  import VmCommon
  import A = VmArithmetic
  import ValueException

  /** The `i32` `exponentiate`: `num` for every exponent up to 1, otherwise
      num^exp when every partial product fits in `i32`, and `None` otherwise. */
  function Exponentiate(num: int, exp: int): (r: Option<int>)
    ensures exp <= 1 ==> r == Some(num)
    ensures exp >= 1 ==> (r.Some? <==> VmCommon.PowersFit(num, 1, exp, Ints.I32_MIN, Ints.I32_MAX))
    ensures exp >= 1 && r.Some? ==> r.value == Ints.Power(num, exp)
  {
    VmCommon.Exponentiate(num, exp, Ints.I32_MIN, Ints.I32_MAX)
  }

  /** The text an operation raises with; the unhandled opcodes reach `panic!("")`. */
  function Message(f: A.Fault): string {
    match f
    case Unsupported(a, b, o) => ValueException.UnsupportedOperation(a, b, o)
    case Overflow(m) => m
    case UnknownOpcode => ""
  }

  /** `operate` of this file. */
  function Operate(a: Value, b: Value, op: A.BinOp): (r: Result<Value>)
    ensures r.Ok? <==> A.Operate(a, b, op, A.W32).Done?
    ensures r.Ok? ==> r.value == A.Operate(a, b, op, A.W32).v
    ensures r.Err? ==> r.msg == Message(A.Operate(a, b, op, A.W32).fault)
  {
    match A.Operate(a, b, op, A.W32)
    case Done(v) => Ok(v)
    case Raised(f) => Err(Message(f))
  }

  /** Integers that fit `i32` are values of this file. */
  predicate Fits32(v: Value) {
    v.Integer? ==> Ints.IsI32(v.n)
  }

  /** Whatever the 32-bit operations compute, the machine's 64-bit ones compute too,
      with the same result: the narrower width only adds overflow errors. */
  lemma WidthsAgree(a: Value, b: Value, op: A.BinOp)
    requires Fits32(a) && Fits32(b)
    requires A.Operate(a, b, op, A.W32).Done?
    ensures A.Operate(a, b, op, A.W64) == A.Operate(a, b, op, A.W32)
  {
    if op.Pow? && a.Integer? && b.Integer? && b.n >= 1 {
      assert VmCommon.PowersFit(a.n, 1, b.n, Ints.I32_MIN, Ints.I32_MAX);
      assert VmCommon.PowersFit(a.n, 1, b.n, Ints.I64_MIN, Ints.I64_MAX);
    }
  }

  /** The largest `i32` plus one overflows here but not in the machine. */
  lemma NarrowOverflow()
    ensures Operate(Integer(Ints.I32_MAX), Integer(1), A.BinOp.Add) == Err(A.ADD_OVERFLOW)
    ensures A.Operate(Integer(Ints.I32_MAX), Integer(1), A.BinOp.Add, A.W64) == A.Done(Integer(0x8000_0000))
  {
  }

  /** A string plus a number is reported with this file's kind names. */
  lemma UnsupportedWording()
    ensures Operate(String("a"), Integer(1), A.BinOp.Add) == Err("Unsupported operation [String + Int]")
  {
  }
}
