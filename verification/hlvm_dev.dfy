/** The default behaviour of HLVM values: instantiation, attribute access and the
    operators used by the dispatch loop. A Rust `panic!` or `todo!` becomes `Err`. */
module HlvmDev {
  import opened Wrappers
  import opened HlvmLir
  import Floats

  /** Turns a blueprint into an instance; every other value cannot be instantiated.
      Each attribute of the blueprint becomes a field holding `Number(0.0)`. */
  function Initialize(v: HlvmValue): (r: Result<HlvmValue>)
    ensures r.Ok? <==> v.StructBlueprint?
    ensures r.Ok? ==> r.value.StructInstance?
    ensures r.Ok? ==> forall a :: a in r.value.fields <==> a in v.attrs
  {
    match v
    case StructBlueprint(attrs) => Ok(StructInstance(map a | a in attrs :: Number(0.0)))
    case _ => Err("Cannot initialize value")
  }

  /** Reads a field of a struct instance. */
  function GetAttr(v: HlvmValue, name: string): (r: Result<HlvmValue>)
    ensures r.Ok? <==> v.StructInstance? && name in v.fields
    ensures r.Ok? ==> r.value == v.fields[name]
  {
    match v
    case StructInstance(fields) =>
      if name in fields then Ok(fields[name]) else Err("Undefined parameter " + name)
    case _ => Err("Cannot get attribute value")
  }

  /** Writes a field of a struct instance, giving back the updated instance. */
  function SetAttr(v: HlvmValue, name: string, x: HlvmValue): (r: Result<HlvmValue>)
    ensures r.Ok? <==> v.StructInstance?
    ensures r.Ok? ==> r.value.StructInstance? && r.value.fields.Keys == v.fields.Keys + {name}
  {
    match v
    case StructInstance(fields) => Ok(StructInstance(fields[name := x]))
    case _ => Err("Cannot set value")
  }

  /** After a successful `set`, `get` of that key yields the new value and every other
      key reads as before. */
  lemma GetAfterSet(v: HlvmValue, name: string, x: HlvmValue, other: string)
    requires SetAttr(v, name, x).Ok?
    ensures GetAttr(SetAttr(v, name, x).value, name) == Ok(x)
    ensures other != name ==> GetAttr(SetAttr(v, name, x).value, other) == GetAttr(v, other)
  {
  }

  /** `+` as the source writes it: for two strings the right operand is dropped and the
      two characters `_b` are appended. */
  function AddAsWritten(a: HlvmValue, b: HlvmValue): (r: Result<HlvmValue>)
    ensures r.Ok? <==> (a.Number? && b.Number?) || (a.String? && b.String?)
  {
    match (a, b)
    case (Number(x), Number(y)) => Ok(Number(x + y))
    case (String(x), String(_)) => Ok(String(x + "_b"))
    case _ => Err("Unable to add values of different types")
  }

  /** The right operand never reaches the as-written string result. */
  lemma AddAsWrittenIgnoresRight(x: string, y: string)
    ensures AddAsWritten(String(x), String(y)) == Ok(String(x + "_b"))
    ensures AddAsWritten(String("a"), String("c")) != Add(String("a"), String("c"))
  {
    assert Add(String("a"), String("c")).value.str == "ac";
    assert AddAsWritten(String("a"), String("c")).value.str == "a_b";
  }

  /** `+` as intended: numbers add and strings concatenate. */
  function Add(a: HlvmValue, b: HlvmValue): (r: Result<HlvmValue>)
    ensures r.Ok? <==> (a.Number? && b.Number?) || (a.String? && b.String?)
  {
    match (a, b)
    case (Number(x), Number(y)) => Ok(Number(x + y))
    case (String(x), String(y)) => Ok(String(x + y))
    case _ => Err("Unable to add values of different types")
  }

  /** The intended string `+` keeps the left operand as prefix and the right as suffix. */
  lemma AddConcatenates(x: string, y: string)
    ensures Add(String(x), String(y)).Ok?
    ensures var s := Add(String(x), String(y)).value.str;
      |s| == |x| + |y| && s[..|x|] == x && s[|x|..] == y
  {
  }

  function Sub(a: HlvmValue, b: HlvmValue): (r: Result<HlvmValue>)
    ensures r.Ok? <==> a.Number? && b.Number?
  {
    match (a, b)
    case (Number(x), Number(y)) => Ok(Number(x - y))
    case _ => Err("Unable to subtract values of different types")
  }

  /** `*` on numbers; `String * Number` is unimplemented in the source and fails. */
  function Mul(a: HlvmValue, b: HlvmValue): (r: Result<HlvmValue>)
    ensures r.Ok? <==> a.Number? && b.Number?
  {
    match (a, b)
    case (Number(x), Number(y)) => Ok(Number(x * y))
    case (String(_), Number(_)) => Err("not yet implemented")
    case _ => Err("Unable to multiply values of different types")
  }

  function Div(a: HlvmValue, b: HlvmValue): (r: Result<HlvmValue>)
    ensures r.Ok? <==> a.Number? && b.Number?
  {
    match (a, b)
    case (Number(x), Number(y)) => Ok(Number(Floats.Div(x, y)))
    case _ => Err("Unable to divide values of different types")
  }

  /** Structural equality and inequality never fail. */
  function Eq(a: HlvmValue, b: HlvmValue): (r: HlvmValue)
    ensures r.Bool?
  {
    Bool(a == b)
  }

  function Ne(a: HlvmValue, b: HlvmValue): (r: HlvmValue)
    ensures r.Bool?
  {
    Bool(a != b)
  }

  /** `==` holds exactly of identical values, and `!=` is always its negation. */
  lemma EqNeComplementary(a: HlvmValue, b: HlvmValue)
    ensures Eq(a, b).b <==> a == b
    ensures Ne(a, b).b == !Eq(a, b).b
    ensures Eq(a, a) == Bool(true)
    ensures Eq(a, b) == Eq(b, a)
  {
  }

  /** The ordering comparisons, defined on two numbers only. */
  function Compare(a: HlvmValue, b: HlvmValue, holds: (real, real) -> bool): (r: Result<HlvmValue>)
    ensures r.Ok? <==> a.Number? && b.Number?
    ensures r.Ok? ==> r.value == Bool(holds(a.num, b.num))
  {
    match (a, b)
    case (Number(x), Number(y)) => Ok(Bool(holds(x, y)))
    case _ => Err("Unable to compare values of different types")
  }

  function Gt(a: HlvmValue, b: HlvmValue): Result<HlvmValue> {
    Compare(a, b, (x: real, y: real) => x > y)
  }

  function Lt(a: HlvmValue, b: HlvmValue): Result<HlvmValue> {
    Compare(a, b, (x: real, y: real) => x < y)
  }

  function Ge(a: HlvmValue, b: HlvmValue): Result<HlvmValue> {
    Compare(a, b, (x: real, y: real) => x >= y)
  }

  function Le(a: HlvmValue, b: HlvmValue): Result<HlvmValue> {
    Compare(a, b, (x: real, y: real) => x <= y)
  }

  /** The four comparisons succeed on the same inputs, `>` is `<` with the operands
      swapped, and `>=` is the negation of `<`. */
  lemma OrderingConsistent(a: HlvmValue, b: HlvmValue)
    ensures Gt(a, b).Ok? <==> a.Number? && b.Number?
    ensures Gt(a, b).Ok? == Lt(a, b).Ok? == Ge(a, b).Ok? == Le(a, b).Ok?
    ensures Gt(a, b) == Lt(b, a) && Ge(a, b) == Le(b, a)
    ensures Ge(a, b).Ok? ==> Ge(a, b).value.b == !Lt(a, b).value.b
  {
  }

  function And(a: HlvmValue, b: HlvmValue): (r: HlvmValue)
    ensures r.Bool? && (r.b <==> IsTruthy(a) && IsTruthy(b))
  {
    Bool(IsTruthy(a) && IsTruthy(b))
  }

  function Or(a: HlvmValue, b: HlvmValue): (r: HlvmValue)
    ensures r.Bool? && (r.b <==> IsTruthy(a) || IsTruthy(b))
  {
    Bool(IsTruthy(a) || IsTruthy(b))
  }

  function Not(a: HlvmValue): (r: HlvmValue)
    ensures r.Bool? && (r.b <==> !IsTruthy(a))
  {
    Bool(!IsTruthy(a))
  }

  /** The logical operators agree with truthiness: double negation normalises a value
      to its truthiness, and De Morgan's laws hold. */
  lemma LogicFromTruthiness(a: HlvmValue, b: HlvmValue)
    ensures Not(Not(a)) == Bool(IsTruthy(a))
    ensures Not(And(a, b)) == Or(Not(a), Not(b))
    ensures Not(Or(a, b)) == And(Not(a), Not(b))
    ensures IsTruthy(And(a, b)) ==> IsTruthy(a) && IsTruthy(b)
  {
  }

  /** Primitive 0: prints its first argument and yields `Number(0.0)`; without an
      argument the indexing panics. The machine records the printed value
      (`HlvmVm.ExecPrimitive`). */
  function Print(args: seq<HlvmValue>): (r: Result<HlvmValue>)
    ensures r.Ok? <==> |args| >= 1
    ensures r.Ok? ==> r.value == Number(0.0)
  {
    if |args| == 0 then Err("index out of bounds") else Ok(Number(0.0))
  }
}
