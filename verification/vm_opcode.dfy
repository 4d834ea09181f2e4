/** The third generation's run-time code object and values: the opcodes of the
word stream, the `Extract` views of one word, the values the machine computes
with, and the same deduplicating constant pool as at compile time.
 */
module VmOpcode {
  import opened Wrappers
  import ConstantPool

  datatype OpCode =
    | LoadConst | LoadVariable | AssignVar | CallMacro
    | LoadBuiltinValue
    | FormatString | BuildList
    | Add | Sub | Mul | Div | Mod | Pow | LShift | RShift

  datatype Code = Op(op: OpCode) | Number(n: nat)

  /** Run-time values. `Integer` holds an `i64` in the machine and an `i32` in the
      files under `src/vm/value/`, whose `Array` is the `List` here. */
  datatype Value =
    | String(s: string)
    | Integer(n: int)
    | Float(x: real)
    | List(items: seq<Value>)
    | Bool(b: bool)
    | None

  datatype CodeObject = CodeObject(code: seq<Code>, constants: seq<Value>)

  /** `Extract<usize>`: the operand of a number word. */
  function ExtractNumber(c: Code): (r: Option<nat>)
    ensures r.Some? <==> c.Number?
  {
    match c
    case Number(n) => Some(n)
    case Op(_) => Option.None
  }

  /** `Extract<OpCode>`: the opcode of an opcode word. */
  function ExtractOpCode(c: Code): (r: Option<OpCode>)
    ensures r.Some? <==> c.Op?
  {
    match c
    case Op(o) => Some(o)
    case Number(_) => Option.None
  }

  /** Exactly one of the two views succeeds on every word, and it gives the word
      back. */
  lemma ExtractRecovers(c: Code)
    ensures ExtractNumber(c).Some? != ExtractOpCode(c).Some?
    ensures ExtractNumber(c).Some? ==> c == Number(ExtractNumber(c).value)
    ensures ExtractOpCode(c).Some? ==> c == Op(ExtractOpCode(c).value)
  {
  }

  /** `add_code`: one more word at the end; the constants are untouched. */
  function AddCode(co: CodeObject, c: Code): (r: CodeObject)
    ensures |r.code| == |co.code| + 1 && r.code[..|co.code|] == co.code && r.code[|co.code|] == c
    ensures r.constants == co.constants
  {
    co.(code := co.code + [c])
  }

  /** `add_constant`, as in the compile-time code object. */
  function AddConstant(co: CodeObject, v: Value): (r: (CodeObject, nat))
    ensures r.0.code == co.code
    ensures co.constants <= r.0.constants
    ensures r.1 < |r.0.constants| && r.0.constants[r.1] == v
    ensures v in co.constants ==>
      r.0.constants == co.constants && forall j :: 0 <= j < r.1 ==> co.constants[j] != v
    ensures v !in co.constants ==> r.0.constants == co.constants + [v] && r.1 == |r.0.constants| - 1
  {
    var (pool, k) := ConstantPool.AddConstant(co.constants, v);
    (co.(constants := pool), k)
  }

  lemma AddConstantTwice(co: CodeObject, v: Value)
    ensures var (co1, k1) := AddConstant(co, v);
      AddConstant(co1, v) == (co1, k1)
  {
    ConstantPool.AddConstantIdempotent(co.constants, v);
  }
}
