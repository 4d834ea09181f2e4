/** The bytecode of the second-generation compiler.

`BinaryXor`, `LogicalAnd` and `LogicalOr` are executed by the `lace` virtual
machine but are missing from the compiler's enum; they are added here so that the
machine can be modelled. Operand indices are `usize` in the source and `nat` here.
 */
module LacecInstruction {
  datatype Instruction =
    | LoadConstant(index: nat)
    | LoadVariable(index: nat)
    | AssignVariable(index: nat)
    | CallFunction(argc: nat)
    | CallPrimitiveFunction(argc: nat, nameIndex: nat)
    | Return
    | ReturnNone
    | LogicalNot
    | Negate
    | Typeof
    | Add | Sub | Mul | Div | Mod | Pow | LeftShift | RightShift
    | BinaryOr | BinaryAnd
    | More | Less | MoreEq | LessEq | Eq | UnEq
    | Jump(target: nat)
      /** Pops, and jumps when the value is truthy. */
    | JumpT(target: nat)
      /** Pops, and jumps when the value is falsy. */
    | JumpF(target: nat)
    | BinaryXor | LogicalAnd | LogicalOr
}

/** Values, syntax tree nodes and the value operations of the second generation.

A `Number` holds an `i32` and a `Byte` an `i8`; both are unbounded integers here,
and every operation that produces one checks the range the way a debug build of
the source does (an overflowing `+`, `-`, `*`, `/`, `%`, `pow`, shift or negation
panics). A `Float`'s `f32` is a real (see the `Floats` module), and `as f32`
conversions of a `Number` are exact. Every `panic!` becomes `Err`.
 */
module LacecCommon {
  import opened Wrappers
  import Ints
  import Floats
  import I = LacecInstruction
  import LacecToken

  datatype UnaryOp = Typeof | Negate | LogicalNot

  /** A type annotation. The compiler does not read annotations; they are kept so
      that a node carries what the parser gives it. */
  datatype Type =
    | NumberType | FloatType | StringType | ByteType | ArrayType(elem: Type)
    | FunctionType(paramTypes: seq<Type>, resultType: Type)
    | BoolType | NoneType | Dynamic

  datatype FnParam = FnParam(name: string, mutable: bool, annotation: Type)

  /** A parser node. The source's `Node::Value` and `Node::Function` are
      `ValueNode` and `FunctionNode` here, to keep them apart from the value
      variants of the same names. */
  datatype Node =
    | ValueNode(v: Value)
    | Unary(operand: Node, op: UnaryOp)
    | Return(returned: Node)
    | ReturnNone
    | FunctionNode(name: string, params: seq<FnParam>, body: seq<Node>, coroutine: bool,
                   returnAnnotation: Type, public: bool)
    | FunctionCall(name: string, arguments: seq<Node>)
    | PrimitiveFunctionCall(name: string, arguments: seq<Node>)
    | WhileLoop(condition: Node, body: seq<Node>)
    | Binary(left: Node, right: Node, operator: LacecToken.Token)
    | VariableDeclr(name: string, value: Node, public: bool, annotation: Type)
    | VariableAssignment(name: string, value: Node)

  /** A value of the compiler and the virtual machine. `NodeArray`, `Identifier`
      and `NodeFunction` are private: they only occur inside the compiler and the
      constant pool, and the value operations panic on them. */
  datatype Value =
    | Number(n: int)
    | Float(x: real)
    | String(s: string)
    | FormattedString(fs: string)
    | Byte(b: int)
    | Array(items: seq<Value>)
    | Function(code: seq<I.Instruction>, parameters: seq<string>, coroutine: bool)
    | True
    | False
    | None
    | NodeArray(nodes: seq<Node>)
    | Identifier(iden: string)
    | NodeFunction(fnodes: seq<Node>)

  const PANIC := "explicit panic"

  predicate IsPublic(v: Value) {
    !(v.NodeArray? || v.Identifier? || v.NodeFunction?)
  }

  /** The payload of a `Number` fits an `i32` and that of a `Byte` an `i8`. */
  predicate InRange(v: Value) {
    (v.Number? ==> Ints.IsI32(v.n)) && (v.Byte? ==> -0x80 <= v.b <= 0x7f)
  }

  predicate IsNumeric(v: Value) {
    v.Number? || v.Float?
  }

  /** A numeric value as a real, the way `as f32` widens a `Number`. */
  function AsReal(v: Value): real
    requires IsNumeric(v)
  {
    if v.Number? then v.n as real else v.x
  }

  function Bool2Value(b: bool): (r: Value)
    ensures r.True? || r.False?
    ensures r.True? <==> b
  {
    if b then True else False
  }

  /** `istruthy`: a non-empty string, array or function body; a positive number,
      float or byte; `True`. Private variants panic. */
  function IsTruthy(v: Value): (r: Result<bool>)
    ensures r.Ok? <==> IsPublic(v)
    ensures r == Ok(true) ==> !(v.False? || v.None?)
  {
    match v
    case String(s) => Ok(|s| > 0)
    case FormattedString(s) => Ok(|s| > 0)
    case Function(code, _, _) => Ok(|code| > 0)
    case Byte(b) => Ok(b > 0)
    case Number(n) => Ok(n > 0)
    case Float(x) => Ok(x > 0.0)
    case True => Ok(true)
    case False => Ok(false)
    case Array(items) => Ok(|items| > 0)
    case None => Ok(false)
    case _ => Err("istruthy on private variant")
  }

  /** A number, float or byte is truthy exactly when it is positive: zero and the
      negatives are falsy. */
  lemma NumericTruthiness(v: Value)
    requires v.Number? || v.Float? || v.Byte?
    ensures IsTruthy(v).Ok?
    ensures IsTruthy(v).value <==> (if v.Number? then v.n > 0 else if v.Float? then v.x > 0.0 else v.b > 0)
  {
  }

  /** A sequence-like value is truthy exactly when it has an element. */
  lemma ContainerTruthiness(v: Value)
    requires v.String? || v.FormattedString? || v.Array? || v.Function?
    ensures IsTruthy(v).Ok?
    ensures IsTruthy(v).value <==>
      (if v.String? then v.s != [] else if v.FormattedString? then v.fs != []
       else if v.Array? then v.items != [] else v.code != [])
  {
  }

  /** Result of an `i32` operation evaluated exactly: kept when it fits, otherwise
      the debug-build overflow panic with the given message. */
  function I32Result(x: int, overflow: string): (r: Result<Value>)
    ensures r.Ok? <==> Ints.IsI32(x)
    ensures r.Ok? ==> r.value == Number(x)
  {
    if Ints.IsI32(x) then Ok(Number(x)) else Err(overflow)
  }

  const ADD_OVERFLOW := "attempt to add with overflow"
  const SUB_OVERFLOW := "attempt to subtract with overflow"
  const MUL_OVERFLOW := "attempt to multiply with overflow"

  /** `add`: numbers add (overflow panics), a float on either side makes a float,
      two strings concatenate; anything else panics. */
  function Add(a: Value, b: Value): (r: Result<Value>)
    ensures r.Ok? ==> (IsNumeric(a) && IsNumeric(b)) || (a.String? && b.String?)
    ensures IsNumeric(a) && IsNumeric(b) && (a.Float? || b.Float?) ==>
      r == Ok(Float(AsReal(a) + AsReal(b)))
    ensures a.Number? && b.Number? ==> (r.Ok? <==> Ints.IsI32(a.n + b.n))
    ensures r.Ok? && a.String? ==> b.String? && r.value == String(a.s + b.s)
  {
    match (a, b)
    case (Number(x), Number(y)) => I32Result(x + y, ADD_OVERFLOW)
    case (Float(x), Number(y)) => Ok(Float(x + y as real))
    case (Number(x), Float(y)) => Ok(Float(x as real + y))
    case (Float(x), Float(y)) => Ok(Float(x + y))
    case (String(x), String(y)) => Ok(String(x + y))
    case _ => Err(PANIC)
  }

  /** `sub`: numeric pairs only. */
  function Sub(a: Value, b: Value): (r: Result<Value>)
    ensures r.Ok? ==> IsNumeric(a) && IsNumeric(b)
    ensures IsNumeric(a) && IsNumeric(b) && (a.Float? || b.Float?) ==>
      r == Ok(Float(AsReal(a) - AsReal(b)))
    ensures a.Number? && b.Number? ==> (r.Ok? <==> Ints.IsI32(a.n - b.n))
  {
    match (a, b)
    case (Number(x), Number(y)) => I32Result(x - y, SUB_OVERFLOW)
    case (Float(x), Number(y)) => Ok(Float(x - y as real))
    case (Number(x), Float(y)) => Ok(Float(x as real - y))
    case (Float(x), Float(y)) => Ok(Float(x - y))
    case _ => Err(PANIC)
  }

  /** Subtraction undoes an addition of numbers that did not overflow. */
  lemma AddThenSub(x: int, y: int)
    requires Ints.IsI32(x) && Ints.IsI32(y)
    requires Add(Number(x), Number(y)).Ok?
    ensures Sub(Add(Number(x), Number(y)).value, Number(y)) == Ok(Number(x))
  {
  }

  /** `mul`: numeric pairs, and a string times a number repeats the string. */
  function Mul(a: Value, b: Value): (r: Result<Value>)
    ensures r.Ok? ==> (IsNumeric(a) && IsNumeric(b)) || (a.String? && b.Number?)
    ensures IsNumeric(a) && IsNumeric(b) && (a.Float? || b.Float?) ==>
      r == Ok(Float(AsReal(a) * AsReal(b)))
    ensures a.Number? && b.Number? ==> (r.Ok? <==> Ints.IsI32(a.n * b.n))
    ensures a.String? && b.Number? && b.n >= 0 ==> r.Ok? && r.value.String?
  {
    match (a, b)
    case (Number(x), Number(y)) => I32Result(x * y, MUL_OVERFLOW)
    case (Float(_), Number(_)) => Ok(Float(AsReal(a) * AsReal(b)))
    case (Number(_), Float(_)) => Ok(Float(AsReal(a) * AsReal(b)))
    case (Float(_), Float(_)) => Ok(Float(AsReal(a) * AsReal(b)))
    case (String(s), Number(num)) =>
      (match Ints.RepeatString(s, num)
       case Ok(t) => Ok(String(t))
       case Err(e) => Err(e))
    case _ => Err(PANIC)
  }

  /** A string times a non-negative count is the string `count` times over:
      character `k` of the result is character `k mod |s|` of the string. */
  lemma MulRepeats(s: string, count: int)
    requires count >= 0
    ensures var r := Mul(String(s), Number(count));
      r.Ok? && r.value.String? && |r.value.s| == |s| * count
      && forall k :: 0 <= k < |r.value.s| ==> r.value.s[k] == s[k % |s|]
  {
    var r := Mul(String(s), Number(count));
    assert r.value.s == Ints.Repeat(s, count);
    forall k | 0 <= k < |r.value.s| ensures r.value.s[k] == s[k % |s|] {
      Ints.RepeatAt(s, count, k);
    }
  }

  /** `div`: numeric pairs; for two numbers a zero divisor and `MIN / -1` panic. */
  function Div(a: Value, b: Value): (r: Result<Value>)
    ensures r.Ok? ==> IsNumeric(a) && IsNumeric(b)
    ensures IsNumeric(a) && IsNumeric(b) && (a.Float? || b.Float?) ==>
      r == Ok(Float(Floats.Div(AsReal(a), AsReal(b))))
    ensures a.Number? && b.Number? && r.Ok? ==> b.n != 0 && r.value == Number(Ints.Quot(a.n, b.n))
    ensures r.Ok? && a.Number? ==> InRange(r.value)
  {
    match (a, b)
    case (Number(x), Number(y)) =>
      (match Ints.CheckedQuot(x, y, Ints.I32_MIN, Ints.I32_MAX)
       case Some(q) => Ok(Number(q))
       case None => Err(if y == 0 then "attempt to divide by zero" else "attempt to divide with overflow"))
    case (Float(x), Number(y)) => Ok(Float(Floats.Div(x, y as real)))
    case (Number(x), Float(y)) => Ok(Float(Floats.Div(x as real, y)))
    case (Float(x), Float(y)) => Ok(Float(Floats.Div(x, y)))
    case _ => Err(PANIC)
  }

  /** `rem`: numeric pairs; for two numbers a zero divisor and `MIN % -1` panic. */
  function Rem(a: Value, b: Value): (r: Result<Value>)
    ensures r.Ok? ==> IsNumeric(a) && IsNumeric(b)
    ensures IsNumeric(a) && IsNumeric(b) && (a.Float? || b.Float?) ==>
      r == Ok(Float(Floats.Rem(AsReal(a), AsReal(b))))
    ensures a.Number? && b.Number? ==> (r.Ok? <==> b.n != 0 && !(a.n == Ints.I32_MIN && b.n == -1))
  {
    match (a, b)
    case (Number(x), Number(y)) =>
      (match Ints.CheckedRem(x, y, Ints.I32_MIN)
       case Some(m) => Ok(Number(m))
       case None =>
         Err(if y == 0 then "attempt to calculate the remainder with a divisor of zero"
             else "attempt to calculate the remainder with overflow"))
    case (Float(x), Number(y)) => Ok(Float(Floats.Rem(x, y as real)))
    case (Number(x), Float(y)) => Ok(Float(Floats.Rem(x as real, y)))
    case (Float(x), Float(y)) => Ok(Float(Floats.Rem(x, y)))
    case _ => Err(PANIC)
  }

  /** On two `i32` numbers, `div` and `rem` fail on exactly the same inputs (a zero
      divisor, `MIN` by -1); otherwise the quotient and remainder reassemble the
      dividend and the remainder is smaller than the divisor. */
  lemma DivRem(x: int, y: int)
    requires Ints.IsI32(x) && Ints.IsI32(y)
    ensures Div(Number(x), Number(y)).Ok? <==> Rem(Number(x), Number(y)).Ok?
    ensures Div(Number(x), Number(y)).Ok? ==>
      var q := Div(Number(x), Number(y)).value.n;
      var m := Rem(Number(x), Number(y)).value.n;
      x == y * q + m && Ints.Abs(m) < Ints.Abs(y)
  {
    Ints.CheckedQuotFails(x, y, Ints.I32_MIN, Ints.I32_MAX);
    if y != 0 {
      Ints.QuotRem(x, y);
    }
  }

  /** `a.pow(b as u32)`: the exponent is reinterpreted as unsigned 32-bit, and a
      result outside `i32` panics as a multiplication overflow. */
  function Pow(a: Value, b: Value): (r: Result<Value>)
    ensures r.Ok? ==> IsNumeric(a) && IsNumeric(b)
    ensures IsNumeric(a) && IsNumeric(b) && (a.Float? || b.Float?) ==>
      r == Ok(Float(Floats.Pow(AsReal(a), AsReal(b))))
    ensures a.Number? && b.Number? && b.n >= 0 && Ints.IsI32(b.n) ==>
      (r.Ok? <==> Ints.IsI32(Ints.Power(a.n, b.n)))
  {
    match (a, b)
    case (Number(x), Number(y)) => I32Result(Ints.Power(x, y % Ints.U32_MODULUS), MUL_OVERFLOW)
    case (Float(x), Number(y)) => Ok(Float(Floats.Pow(x, y as real)))
    case (Number(x), Float(y)) => Ok(Float(Floats.Pow(x as real, y)))
    case (Float(x), Float(y)) => Ok(Float(Floats.Pow(x, y)))
    case _ => Err(PANIC)
  }

  /** Raising to `e + 1` is raising to `e` and multiplying once more, overflow
      included. */
  lemma {:induction false} PowStep(x: int, e: nat)
    requires e + 1 <= Ints.I32_MAX
    ensures Pow(Number(x), Number(e)).Ok? ==>
      Pow(Number(x), Number(e + 1)) == Mul(Pow(Number(x), Number(e)).value, Number(x))
  {
    assert e % Ints.U32_MODULUS == e;
    assert (e + 1) % Ints.U32_MODULUS == e + 1;
    assert Ints.Power(x, e + 1) == x * Ints.Power(x, e);
  }

  /** A negative exponent is read as a huge unsigned one: `2 ** -1` overflows. */
  lemma NegativeExponentOverflows()
    ensures Pow(Number(2), Number(-1)).Err?
  {
    assert -1 % Ints.U32_MODULUS == Ints.U32_MODULUS - 1;
    PowerAtLeast(2, Ints.U32_MODULUS - 1);
  }

  /** 2 to the power `e` is more than `e`. */
  lemma {:induction false} PowerAtLeast(x: int, e: nat)
    requires x == 2
    ensures Ints.Power(x, e) > e
    decreases e
  {
    if e > 0 {
      PowerAtLeast(x, e - 1);
    }
  }

  /** Structural equality: `eq` and `ne` never fail. */
  function Eq(a: Value, b: Value): (r: Value)
    ensures r.True? || r.False?
    ensures r.True? <==> a == b
  {
    if a == b then True else False
  }

  function Ne(a: Value, b: Value): (r: Value)
    ensures r.True? || r.False?
    ensures r.True? <==> a != b
  {
    if a != b then True else False
  }

  /** `ne` is `not` of `eq`, and `eq` is reflexive. */
  lemma EqNeComplementary(a: Value, b: Value)
    ensures Ne(a, b) == Not(Eq(a, b)).value
    ensures Eq(a, a) == True && Ne(a, a) == False
  {
  }

  /** The ordering comparisons: numeric pairs only, compared as reals. */
  function Gt(a: Value, b: Value): (r: Result<Value>)
    ensures r.Ok? <==> IsNumeric(a) && IsNumeric(b)
    ensures r.Ok? ==> r.value == Bool2Value(AsReal(a) > AsReal(b))
  {
    match (a, b)
    case (Number(x), Number(y)) => Ok(Bool2Value(x > y))
    case (Float(x), Number(y)) => Ok(Bool2Value(x > y as real))
    case (Number(x), Float(y)) => Ok(Bool2Value(x as real > y))
    case (Float(x), Float(y)) => Ok(Bool2Value(x > y))
    case _ => Err(PANIC)
  }

  function St(a: Value, b: Value): (r: Result<Value>)
    ensures r.Ok? <==> IsNumeric(a) && IsNumeric(b)
    ensures r.Ok? ==> r.value == Bool2Value(AsReal(a) < AsReal(b))
  {
    match (a, b)
    case (Number(x), Number(y)) => Ok(Bool2Value(x < y))
    case (Float(x), Number(y)) => Ok(Bool2Value(x < y as real))
    case (Number(x), Float(y)) => Ok(Bool2Value((x as real) < y))
    case (Float(x), Float(y)) => Ok(Bool2Value(x < y))
    case _ => Err(PANIC)
  }

  function Ge(a: Value, b: Value): (r: Result<Value>)
    ensures r.Ok? <==> IsNumeric(a) && IsNumeric(b)
    ensures r.Ok? ==> r.value == Bool2Value(AsReal(a) >= AsReal(b))
  {
    match (a, b)
    case (Number(x), Number(y)) => Ok(Bool2Value(x >= y))
    case (Float(x), Number(y)) => Ok(Bool2Value(x >= y as real))
    case (Number(x), Float(y)) => Ok(Bool2Value((x as real) >= y))
    case (Float(x), Float(y)) => Ok(Bool2Value(x >= y))
    case _ => Err(PANIC)
  }

  function Se(a: Value, b: Value): (r: Result<Value>)
    ensures r.Ok? <==> IsNumeric(a) && IsNumeric(b)
    ensures r.Ok? ==> r.value == Bool2Value(AsReal(a) <= AsReal(b))
  {
    match (a, b)
    case (Number(x), Number(y)) => Ok(Bool2Value(x <= y))
    case (Float(x), Number(y)) => Ok(Bool2Value(x <= y as real))
    case (Number(x), Float(y)) => Ok(Bool2Value((x as real) <= y))
    case (Float(x), Float(y)) => Ok(Bool2Value(x <= y))
    case _ => Err(PANIC)
  }

  /** `st` is `gt` with the operands swapped, `ge` is the negation of `st` and `se`
      the negation of `gt`. */
  lemma OrderingDuality(a: Value, b: Value)
    requires IsNumeric(a) && IsNumeric(b)
    ensures St(a, b) == Gt(b, a)
    ensures Ge(a, b).value.True? <==> St(a, b).value.False?
    ensures Se(a, b).value.True? <==> Gt(a, b).value.False?
  {
  }

  /** `a << b` on two numbers: a shift count outside 0..31 panics; otherwise the
      bits shifted out of the `i32` are lost. */
  function Lsh(a: Value, b: Value): (r: Result<Value>)
    ensures r.Ok? <==> a.Number? && b.Number? && 0 <= b.n < 32
    ensures r.Ok? ==> r.value.Number? && Ints.IsI32(r.value.n)
    ensures r.Ok? ==> (r.value.n - a.n * Pow2(b.n)) % Ints.U32_MODULUS == 0
  {
    match (a, b)
    case (Number(x), Number(y)) =>
      if 0 <= y < 32 then Ok(Number(Wrap32(x * Pow2(y))))
      else Err("attempt to shift left with overflow")
    case _ => Err(PANIC)
  }

  /** `a >> b` on two numbers: an arithmetic shift, which rounds toward negative
      infinity; a shift count outside 0..31 panics. */
  function Rsh(a: Value, b: Value): (r: Result<Value>)
    ensures r.Ok? <==> a.Number? && b.Number? && 0 <= b.n < 32
  {
    match (a, b)
    case (Number(x), Number(y)) =>
      if 0 <= y < 32 then Ok(Number(x / Pow2(y)))
      else Err("attempt to shift right with overflow")
    case _ => Err(PANIC)
  }

  /** Two's-complement wrap-around into the `i32` range. */
  function Wrap32(x: int): (r: int)
    ensures Ints.IsI32(r)
    ensures (r - x) % Ints.U32_MODULUS == 0
    ensures Ints.IsI32(x) ==> r == x
  {
    (x - Ints.I32_MIN) % Ints.U32_MODULUS + Ints.I32_MIN
  }

  /** 2 to the power `e`, the factor of a shift by `e` bits. */
  function Pow2(e: nat): (r: int)
    decreases e
    ensures r >= 1
  {
    if e == 0 then 1 else 2 * Pow2(e - 1)
  }

  /** Multiplying by a positive factor and dividing by it again is the identity. */
  lemma MulDivCancel(x: int, p: int)
    requires p >= 1
    ensures (x * p) / p == x
  {
    var q, m := (x * p) / p, (x * p) % p;
    assert x * p == p * q + m;
    Ints.Distribute(p, x, q);
    assert p * (x - q) == m;
    if x > q {
      Ints.MulAtLeast(p, x - q);
    } else if x < q {
      Ints.Distribute(p, q, x);
      Ints.MulAtLeast(p, q - x);
    }
  }

  /** Shifting a number left and back right by the same count restores it when no
      bit was lost. */
  lemma ShiftRoundTrip(x: int, y: int)
    requires 0 <= y < 32
    requires Ints.IsI32(x * Pow2(y))
    ensures Lsh(Number(x), Number(y)).Ok?
    ensures Rsh(Lsh(Number(x), Number(y)).value, Number(y)) == Ok(Number(x))
  {
    var p := Pow2(y);
    assert Lsh(Number(x), Number(y)).value == Number(x * p);
    MulDivCancel(x, p);
  }

  /** `negate`: numbers and floats only; negating `i32::MIN` overflows. */
  function NegateValue(a: Value): (r: Result<Value>)
    ensures r.Ok? <==> IsNumeric(a) && !(a.Number? && a.n == Ints.I32_MIN)
    ensures r.Ok? ==> IsNumeric(r.value) && AsReal(r.value) == -AsReal(a)
    ensures r.Ok? ==> (r.value.Number? <==> a.Number?)
  {
    match a
    case Number(x) => if x == Ints.I32_MIN then Err("attempt to negate with overflow") else Ok(Number(-x))
    case Float(x) => Ok(Float(-x))
    case _ => Err(PANIC)
  }

  /** Negation is an involution on the values it accepts. */
  lemma NegateTwice(a: Value)
    requires InRange(a) && NegateValue(a).Ok?
    ensures NegateValue(NegateValue(a).value) == Ok(a)
  {
  }

  /** `not`: the opposite of the value's truthiness, as `True` or `False`. */
  function Not(a: Value): (r: Result<Value>)
    ensures r.Ok? <==> IsPublic(a)
    ensures r.Ok? ==> (r.value == True <==> IsTruthy(a) == Ok(false))
    ensures r.Ok? ==> (r.value == False <==> IsTruthy(a) == Ok(true))
  {
    match IsTruthy(a)
    case Ok(t) => Ok(Bool2Value(!t))
    case Err(e) => Err(e)
  }

  /** `not not x` is the truthiness of `x` as a boolean value. */
  lemma NotNot(a: Value)
    requires IsPublic(a)
    ensures Not(Not(a).value) == Ok(Bool2Value(IsTruthy(a).value))
  {
  }

  /** `tpyeof`: the name of a public value's type; private variants panic. */
  function Tpyeof(a: Value): (r: Result<Value>)
    ensures r.Ok? <==> IsPublic(a)
    ensures r.Ok? ==> r.value.String? && |r.value.s| > 0
  {
    match a
    case String(_) => Ok(String("string"))
    case FormattedString(_) => Ok(String("string"))
    case Function(_, _, _) => Ok(String("function"))
    case Byte(_) => Ok(String("byte"))
    case Number(_) => Ok(String("number"))
    case Float(_) => Ok(String("float"))
    case True => Ok(String("bool"))
    case False => Ok(String("bool"))
    case Array(_) => Ok(String("array"))
    case None => Ok(String("none"))
    case _ => Err("istruthy on private variant")
  }

  /** The kind of a public value, as the type system groups them: both string
      variants are one kind, and so are `True` and `False`. */
  function KindOf(a: Value): nat {
    match a
    case String(_) => 0
    case FormattedString(_) => 0
    case Function(_, _, _) => 1
    case Byte(_) => 2
    case Number(_) => 3
    case Float(_) => 4
    case True => 5
    case False => 5
    case Array(_) => 6
    case None => 7
    case _ => 8
  }

  /** Two public values get the same type name exactly when they are of the same
      kind. */
  lemma TpyeofSeparatesKinds(a: Value, b: Value)
    requires IsPublic(a) && IsPublic(b)
    ensures Tpyeof(a) == Tpyeof(b) <==> KindOf(a) == KindOf(b)
  {
    var sa, sb := Tpyeof(a).value.s, Tpyeof(b).value.s;
    if KindOf(a) != KindOf(b) {
      assert sa != sb by {
        if |sa| == |sb| {
          assert sa[0] != sb[0] || sa[1] != sb[1];
        }
      }
    }
  }
}
