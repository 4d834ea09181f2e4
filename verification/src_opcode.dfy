/** The third generation's compile-time code object: a flat stream of opcode and
operand words, and a deduplicated pool of constants.
 */
module SrcOpcode {
  import ConstantPool

  datatype OpCode =
    | LoadConst | LoadVariable | AssignVar
    | FormatString | BuildList
    | Add | Sub | Mul | Div | Mod | Pow | LShift | RShift

  /** One word of the stream: an opcode, or a number operand (`usize`). */
  datatype Code = Op(op: OpCode) | Number(n: nat)

  /** Compile-time constants (`i64` and `f64` payloads; see the Floats module for
      how floats are modelled). */
  datatype Value = String(s: string) | Integer(n: int) | Float(x: real)

  datatype CodeObject = CodeObject(code: seq<Code>, constants: seq<Value>)

  function Empty(): CodeObject {
    CodeObject([], [])
  }

  /** `add_code`: one more word at the end, and nothing else changes. */
  function AddCode(co: CodeObject, c: Code): (r: CodeObject)
    ensures |r.code| == |co.code| + 1 && r.code[..|co.code|] == co.code && r.code[|co.code|] == c
    ensures r.constants == co.constants
  {
    co.(code := co.code + [c])
  }

  /** `add_constant`: the index of the first equal constant with the pool unchanged,
      or the new last index after appending. */
  function AddConstant(co: CodeObject, v: Value): (r: (CodeObject, nat))
    ensures r.0.code == co.code
    ensures co.constants <= r.0.constants
    ensures r.1 < |r.0.constants| && r.0.constants[r.1] == v
    ensures v in co.constants ==>
      r.0.constants == co.constants && forall j :: 0 <= j < r.1 ==> co.constants[j] != v
    ensures v !in co.constants ==> r.0.constants == co.constants + [v] && r.1 == |r.0.constants| - 1
  {
    var (pool, k) := ConstantPool.AddConstant(co.constants, v);
    (co.(constants := pool), k)
  }

  /** Adding the same constant twice returns the same index and adds nothing. */
  lemma AddConstantTwice(co: CodeObject, v: Value)
    ensures var (co1, k1) := AddConstant(co, v);
      AddConstant(co1, v) == (co1, k1)
  {
    ConstantPool.AddConstantIdempotent(co.constants, v);
  }
}
