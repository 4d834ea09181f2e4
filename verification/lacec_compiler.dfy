/** The second-generation compiler: syntax tree nodes to a flat instruction chunk
plus a deduplicating constant pool.

The compiler threads two pieces of state, the constant pool and the chunk being
appended to; here both travel in a `State`. A `panic!` (an operator token with no
instruction, a node kind that is not an expression) ends compilation with `Err`.
 */
module LacecCompiler {
  import opened Wrappers
  import opened LacecCommon
  import I = LacecInstruction
  import T = LacecToken
  import opened ConstantPool

  datatype State = State(constants: seq<Value>, code: seq<I.Instruction>)

  /** The compiler's state only grows: the pool and the chunk of a later state
      start with those of an earlier one. */
  predicate Extends(a: State, b: State) {
    a.constants <= b.constants && a.code <= b.code
  }

  // ------------------------------------------------------------------ constant pool

  /* `Constants::add_constant` is the shared `ConstantPool.AddConstant` over
     `Value`: the index of the first equal entry with the pool unchanged, or the
     value appended at the end. */

  /** The pool stays free of duplicates, whether or not it was so before. */
  lemma PoolStaysDistinct(pool: seq<Value>, v: Value)
    ensures Distinct(pool) ==> Distinct(AddConstant(pool, v).0)
  {
    if Distinct(pool) {
      AddConstantKeepsDistinct(pool, v);
    }
  }

  /** Every index `add_constant` returns for a list of values, starting from an
      empty pool, names an entry equal to that value; equal values share an
      index. */
  lemma {:induction false} PoolIndexing(vs: seq<Value>, pool: seq<Value>)
    requires Distinct(pool)
    ensures var (p, ks) := AddAll(pool, vs);
      Distinct(p) && |ks| == |vs|
      && (forall i :: 0 <= i < |vs| ==> ks[i] < |p| && p[ks[i]] == vs[i])
      && (forall i, j :: 0 <= i < |vs| && 0 <= j < |vs| ==> (ks[i] == ks[j] <==> vs[i] == vs[j]))
    decreases |vs|
  {
    if |vs| > 0 {
      var (p1, k) := AddConstant(pool, vs[0]);
      PoolStaysDistinct(pool, vs[0]);
      PoolIndexing(vs[1..], p1);
      var (p, ks) := AddAll(pool, vs);
      assert p1 <= p;
      forall i | 0 <= i < |vs| ensures ks[i] < |p| && p[ks[i]] == vs[i] {
        if i > 0 {
          assert vs[i] == vs[1..][i - 1];
        }
      }
      forall i, j | 0 <= i < |vs| && 0 <= j < |vs| ensures ks[i] == ks[j] <==> vs[i] == vs[j] {
        assert p[ks[i]] == vs[i] && p[ks[j]] == vs[j];
      }
    }
  }

  /** `add_constant` applied to each value in turn. */
  function AddAll(pool: seq<Value>, vs: seq<Value>): (r: (seq<Value>, seq<nat>))
    decreases |vs|
    ensures pool <= r.0 && |r.1| == |vs|
  {
    if |vs| == 0 then (pool, [])
    else
      var (p1, k) := AddConstant(pool, vs[0]);
      var (p, ks) := AddAll(p1, vs[1..]);
      (p, [k] + ks)
  }

  // ------------------------------------------------------------------ instructions

  function Emit(st: State, i: I.Instruction): (r: State)
    ensures Extends(st, r) && |r.code| == |st.code| + 1 && r.code[|st.code|] == i
  {
    State(st.constants, st.code + [i])
  }

  /** A value operand: an identifier is looked up by name (`LoadVariable`), any
      other value is a constant (`LoadConstant`); either way through the pool. */
  function Load(st: State, v: Value): (r: State)
    ensures Extends(st, r) && |r.code| == |st.code| + 1
    ensures var i := r.code[|st.code|];
      (if v.Identifier? then i.LoadVariable? else i.LoadConstant?)
      && i.index < |r.constants| && r.constants[i.index] == v
  {
    var (pool, k) := AddConstant(st.constants, v);
    State(pool, st.code + [if v.Identifier? then I.LoadVariable(k) else I.LoadConstant(k)])
  }

  function UnaryInstruction(op: UnaryOp): I.Instruction {
    match op
    case LogicalNot => I.LogicalNot
    case Negate => I.Negate
    case Typeof => I.Typeof
  }

  /** The instruction of a binary operator token; `and`/`or` become the bitwise
      instructions and every other token panics. */
  function BinaryInstruction(t: T.Token): (r: Result<I.Instruction>)
    ensures r.Ok? <==> t in BINARY_TOKENS
  {
    match t
    case OpAdd => Ok(I.Add)
    case OpSub => Ok(I.Sub)
    case OpMul => Ok(I.Mul)
    case OpDiv => Ok(I.Div)
    case OpMod => Ok(I.Mod)
    case OpPow => Ok(I.Pow)
    case OpBangEq => Ok(I.UnEq)
    case OpEq => Ok(I.Eq)
    case OpLessEq => Ok(I.LessEq)
    case OpMoreEq => Ok(I.MoreEq)
    case OpLeftShift => Ok(I.LeftShift)
    case OpRightShift => Ok(I.RightShift)
    case OpLess => Ok(I.Less)
    case OpMore => Ok(I.More)
    case KwAnd => Ok(I.BinaryAnd)
    case KwOr => Ok(I.BinaryOr)
    case _ => Err(PANIC)
  }

  const BINARY_TOKENS: set<T.Token> := {
    T.OpAdd, T.OpSub, T.OpMul, T.OpDiv, T.OpMod, T.OpPow, T.OpBangEq, T.OpEq,
    T.OpLessEq, T.OpMoreEq, T.OpLeftShift, T.OpRightShift, T.OpLess, T.OpMore,
    T.KwAnd, T.KwOr
  }

  /** Distinct operator tokens get distinct instructions. */
  lemma BinaryInstructionInjective(a: T.Token, b: T.Token)
    requires BinaryInstruction(a).Ok? && BinaryInstruction(b).Ok?
    requires BinaryInstruction(a) == BinaryInstruction(b)
    ensures a == b
  {
  }

  // ------------------------------------------------------------------ compilation

  /** `compile_expression`. A function call adds its name to the pool before its
      arguments are compiled; the arguments then run in source order. */
  function CompileExpression(n: Node, st: State): (r: Result<State>)
    decreases n, 1
    ensures r.Ok? ==> Extends(st, r.value)
    ensures r.Ok? && Sound(st) ==> Sound(r.value)
  {
    match n
    case ValueNode(v) =>
      if v.NodeArray? then Ok(st)
      else
        var r := Load(st, v);
        LoadSound(st, v);
        Ok(r)
    case Unary(operand, op) =>
      var s :- CompileExpression(operand, st);
      EmitSound(s, UnaryInstruction(op));
      Ok(Emit(s, UnaryInstruction(op)))
    case Binary(left, right, operator) =>
      var s1 :- CompileExpression(left, st);
      var s2 :- CompileExpression(right, s1);
      var o :- BinaryInstruction(operator);
      EmitSound(s2, o);
      Ok(Emit(s2, o))
    case FunctionCall(name, args) => CompileCall(name, args, false, st)
    case PrimitiveFunctionCall(name, args) => CompileCall(name, args, true, st)
    case Return(_) => Err(PANIC)
    case ReturnNone => Err(PANIC)
    case FunctionNode(_, _, _, _, _, _) => Err(PANIC)
    case WhileLoop(_, _) => Err(PANIC)
    case VariableDeclr(_, _, _, _) => Err(PANIC)
    case VariableAssignment(_, _) => Err(PANIC)
  }

  /** A call: the name goes into the pool first, then the arguments are compiled
      in source order, then either `LoadVariable(name)`, `CallFunction(n)` or
      `CallPrimitiveFunction(n, name)`. */
  function CompileCall(name: string, args: seq<Node>, primitive: bool, st: State): (r: Result<State>)
    decreases args, 1
    ensures r.Ok? ==> Extends(st, r.value)
    ensures r.Ok? && Sound(st) ==> Sound(r.value)
  {
    var (pool, k) := AddConstant(st.constants, Identifier(name));
    var s :- CompileArguments(args, State(pool, st.code));
    var tail := if primitive then [I.CallPrimitiveFunction(|args|, k)]
                else [I.LoadVariable(k), I.CallFunction(|args|)];
    assert s.constants[k] == pool[k];
    AppendSound(s, State(s.constants, s.code + tail), tail);
    Ok(State(s.constants, s.code + tail))
  }

  /** Call arguments, each compiled after the one before it. */
  function CompileArguments(args: seq<Node>, st: State): (r: Result<State>)
    decreases args, 0
    ensures r.Ok? ==> Extends(st, r.value)
    ensures r.Ok? && Sound(st) ==> Sound(r.value)
  {
    if |args| == 0 then Ok(st)
    else
      var s :- CompileExpression(args[0], st);
      CompileArguments(args[1..], s)
  }

  function ParamNames(params: seq<FnParam>): (r: seq<string>)
    ensures |r| == |params| && forall k :: 0 <= k < |params| ==> r[k] == params[k].name
  {
    seq(|params|, k requires 0 <= k < |params| => params[k].name)
  }

  /** `compile_node`. A function's body is compiled into a fresh chunk (sharing the
      pool), stored in the pool as a `Function` value, and bound to its name. A
      `while` loop compiles its condition, a `JumpF` placeholder, its body and a
      back-edge `Jump` to the condition, then patches the placeholder to the
      length reached. */
  function CompileNode(n: Node, st: State): (r: Result<State>)
    decreases n, 2
    ensures r.Ok? ==> Extends(st, r.value)
    ensures r.Ok? && Sound(st) ==> Sound(r.value)
  {
    match n
    case ValueNode(_) => CompileExpression(n, st)
    case Unary(_, _) => CompileExpression(n, st)
    case Binary(_, _, _) => CompileExpression(n, st)
    case FunctionCall(_, _) => CompileExpression(n, st)
    case PrimitiveFunctionCall(_, _) => CompileExpression(n, st)
    case Return(value) =>
      var s :- CompileExpression(value, st);
      EmitSound(s, I.Return);
      Ok(Emit(s, I.Return))
    case ReturnNone =>
      EmitSound(st, I.ReturnNone);
      Ok(Emit(st, I.ReturnNone))
    case VariableDeclr(name, value, _, _) =>
      var s :- CompileExpression(value, st);
      Ok(AssignTo(s, name))
    case VariableAssignment(name, value) =>
      var s :- CompileExpression(value, st);
      Ok(AssignTo(s, name))
    case FunctionNode(name, params, body, coroutine, _, _) =>
      var b :- CompileNodes(body, State(st.constants, []));
      Ok(Define(st, b, Function(b.code, ParamNames(params), coroutine), name))
    case WhileLoop(condition, body) =>
      var c :- CompileExpression(condition, st);
      var b :- CompileNodes(body, Emit(c, I.JumpF(0)));
      EmitSound(c, I.JumpF(0));
      Ok(CloseLoop(st, c, b))
  }

  /** `compile`: the nodes in order. */
  function CompileNodes(nodes: seq<Node>, st: State): (r: Result<State>)
    decreases nodes, 3
    ensures r.Ok? ==> Extends(st, r.value)
    ensures r.Ok? && Sound(st) ==> Sound(r.value)
  {
    if |nodes| == 0 then Ok(st)
    else
      var s :- CompileNode(nodes[0], st);
      CompileNodes(nodes[1..], s)
  }

  /** `Compiler::new(source).compile(chunk)`: an empty pool, appending to `chunk`. */
  function Compile(source: seq<Node>, chunk: seq<I.Instruction>): (r: Result<State>)
    ensures r.Ok? ==> chunk <= r.value.code
  {
    CompileNodes(source, State([], chunk))
  }

  /** A declaration or assignment: the value's code, then `AssignVariable` of the
      name, which is added to the pool after the value. */
  function AssignTo(s: State, name: string): (r: State)
    ensures Extends(s, r) && |r.code| == |s.code| + 1
    ensures Sound(s) ==> Sound(r)
    ensures var i := r.code[|s.code|];
      i.AssignVariable? && i.index < |r.constants| && r.constants[i.index] == Identifier(name)
  {
    var (pool, k) := AddConstant(s.constants, Identifier(name));
    var r := State(pool, s.code + [I.AssignVariable(k)]);
    PoolStaysDistinct(s.constants, Identifier(name));
    AppendSound(s, r, [I.AssignVariable(k)]);
    r
  }

  /** The end of a function declaration: the function value and the name go into
      the pool, in that order, and `LoadConstant(fn)`, `AssignVariable(name)` are
      emitted into the enclosing chunk. */
  function Define(st: State, b: State, f: Value, name: string): (r: State)
    requires st.constants <= b.constants
    requires Distinct(st.constants) ==> Distinct(b.constants)
    ensures Extends(st, r) && |r.code| == |st.code| + 2
    ensures Sound(st) ==> Sound(r)
    ensures var i := r.code[|st.code|];
      i.LoadConstant? && i.index < |r.constants| && r.constants[i.index] == f
    ensures var i := r.code[|st.code| + 1];
      i.AssignVariable? && i.index < |r.constants| && r.constants[i.index] == Identifier(name)
  {
    var (pool1, fi) := AddConstant(b.constants, f);
    var (pool2, ni) := AddConstant(pool1, Identifier(name));
    var r := State(pool2, st.code + [I.LoadConstant(fi), I.AssignVariable(ni)]);
    PoolStaysDistinct(b.constants, f);
    PoolStaysDistinct(pool1, Identifier(name));
    AppendSound(st, r, [I.LoadConstant(fi), I.AssignVariable(ni)]);
    r
  }

  /** The end of a `while` loop: the back-edge `Jump` to the condition's first
      instruction is appended and the `JumpF` placeholder after the condition is
      patched to the length reached. */
  function CloseLoop(st: State, c: State, b: State): (r: State)
    requires Extends(st, c) && Extends(Emit(c, I.JumpF(0)), b)
    ensures Extends(st, r) && |r.code| == |b.code| + 1
    ensures Sound(Emit(c, I.JumpF(0))) && Sound(b) ==> Sound(r)
    ensures r.code[|c.code|] == I.JumpF(|r.code|)
    ensures r.code[|r.code| - 1] == I.Jump(|st.code|)
  {
    var looped := b.code + [I.Jump(|st.code|)];
    var r := State(b.constants, looped[|c.code| := I.JumpF(|looped|)]);
    assert st.code <= r.code by {
      assert forall k :: 0 <= k < |st.code| ==> r.code[k] == c.code[k];
    }
    PatchSound(b, r, |st.code|, |c.code|);
    r
  }

  // ------------------------------------------------------------------ soundness

  /** What an instruction may refer to: a constant index inside the pool, a name
      index at an `Identifier` entry, a jump target at most the chunk's length. */
  predicate Refers(pool: seq<Value>, len: nat, i: I.Instruction) {
    match i
    case LoadConstant(x) => x < |pool|
    case LoadVariable(x) => x < |pool| && pool[x].Identifier?
    case AssignVariable(x) => x < |pool| && pool[x].Identifier?
    case CallPrimitiveFunction(_, x) => x < |pool| && pool[x].Identifier?
    case Jump(t) => t <= len
    case JumpT(t) => t <= len
    case JumpF(t) => t <= len
    case _ => true
  }

  /** The pool holds no value twice, and every instruction of the chunk refers to
      something that exists: the virtual machine's `constants[idx]` never goes out
      of bounds, its `extract` of a name never panics, and no jump leaves the
      chunk. */
  predicate Sound(st: State) {
    Distinct(st.constants) &&
    forall k :: 0 <= k < |st.code| ==> Refers(st.constants, |st.code|, st.code[k])
  }

  lemma ReferGrows(pool: seq<Value>, len: nat, pool': seq<Value>, len': nat, i: I.Instruction)
    requires Refers(pool, len, i) && pool <= pool' && len <= len'
    ensures Refers(pool', len', i)
  {
  }

  /** Appending instructions that refer to the new state keeps a state sound. */
  lemma AppendSound(s: State, r: State, tail: seq<I.Instruction>)
    requires s.constants <= r.constants && r.code == s.code + tail
    requires Distinct(s.constants) ==> Distinct(r.constants)
    requires forall k :: 0 <= k < |tail| ==> Refers(r.constants, |r.code|, tail[k])
    ensures Sound(s) ==> Sound(r)
  {
    if Sound(s) {
      forall k | 0 <= k < |r.code| ensures Refers(r.constants, |r.code|, r.code[k]) {
        if k < |s.code| {
          ReferGrows(s.constants, |s.code|, r.constants, |r.code|, s.code[k]);
        } else {
          assert r.code[k] == tail[k - |s.code|];
        }
      }
    }
  }

  lemma EmitSound(s: State, i: I.Instruction)
    requires Refers(s.constants, |s.code| + 1, i)
    ensures Sound(s) ==> Sound(Emit(s, i))
  {
    AppendSound(s, Emit(s, i), [i]);
  }

  lemma LoadSound(s: State, v: Value)
    ensures Sound(s) ==> Sound(Load(s, v))
  {
    var r := Load(s, v);
    PoolStaysDistinct(s.constants, v);
    AppendSound(s, r, [r.code[|s.code|]]);
  }

  lemma PatchSound(b: State, r: State, start: nat, guard: nat)
    requires start <= guard < |b.code|
    requires r.constants == b.constants
    requires r.code == (b.code + [I.Jump(start)])[guard := I.JumpF(|b.code| + 1)]
    ensures Sound(b) ==> Sound(r)
  {
    if Sound(b) {
      forall k | 0 <= k < |r.code| ensures Refers(r.constants, |r.code|, r.code[k]) {
        if k < |b.code| && k != guard {
          ReferGrows(b.constants, |b.code|, r.constants, |r.code|, b.code[k]);
        }
      }
    }
  }

  // ------------------------------------------------------------------ layout

  /** A value node: an identifier becomes one `LoadVariable` and any other public
      or private value one `LoadConstant` of a pool entry equal to it; an array
      node emits nothing and leaves the pool alone. */
  lemma ValueLowering(v: Value, st: State)
    ensures var r := CompileExpression(ValueNode(v), st);
      r.Ok?
      && (v.NodeArray? ==> r.value == st)
      && (!v.NodeArray? ==>
            |r.value.code| == |st.code| + 1
            && var i := r.value.code[|st.code|];
            (i.LoadVariable? <==> v.Identifier?) && (i.LoadConstant? <==> !v.Identifier?)
            && i.index < |r.value.constants| && r.value.constants[i.index] == v)
  {
  }

  /** A binary node: the left operand's code, then the right operand's, then the
      operator's instruction; an operator token outside the sixteen fails. */
  lemma BinaryLayout(left: Node, right: Node, op: T.Token, st: State)
    requires CompileExpression(left, st).Ok?
    requires CompileExpression(right, CompileExpression(left, st).value).Ok?
    ensures var s1 := CompileExpression(left, st).value;
      var s2 := CompileExpression(right, s1).value;
      var r := CompileExpression(Binary(left, right, op), st);
      Extends(st, s1) && Extends(s1, s2)
      && (r.Ok? <==> op in BINARY_TOKENS)
      && (r.Ok? ==> r.value.code == s2.code + [BinaryInstruction(op).value]
                    && r.value.constants == s2.constants)
  {
  }

  /** `and` and `or` compile to the bitwise instructions. */
  lemma LogicalOperatorsAreBitwise()
    ensures BinaryInstruction(T.KwAnd) == Ok(I.BinaryAnd)
    ensures BinaryInstruction(T.KwOr) == Ok(I.BinaryOr)
  {
  }

  /** The arguments are compiled in source order: compiling `args + [x]` is
      compiling `args` and then `x`. */
  lemma {:induction false} ArgumentsInOrder(args: seq<Node>, x: Node, st: State)
    decreases |args|
    ensures CompileArguments(args + [x], st) ==
      match CompileArguments(args, st)
      case Ok(s) => CompileExpression(x, s)
      case Err(e) => Err(e)
  {
    if |args| == 0 {
      assert args + [x] == [x];
      assert [x][1..] == [];
    } else {
      assert (args + [x])[0] == args[0];
      assert (args + [x])[1..] == args[1..] + [x];
      match CompileExpression(args[0], st)
      case Ok(s) => ArgumentsInOrder(args[1..], x, s);
      case Err(_) =>
    }
  }

  /** A function call: the name enters the pool before the arguments are compiled,
      and the arguments' code is followed by `LoadVariable(name)` and
      `CallFunction(n)` with n the number of arguments. */
  lemma CallLayout(name: string, args: seq<Node>, st: State)
    ensures var (pool, k) := AddConstant(st.constants, Identifier(name));
      var a := CompileArguments(args, State(pool, st.code));
      var r := CompileExpression(FunctionCall(name, args), st);
      (r.Ok? <==> a.Ok?)
      && (r.Ok? ==> r.value.constants == a.value.constants
                    && r.value.code == a.value.code + [I.LoadVariable(k), I.CallFunction(|args|)]
                    && k < |r.value.constants| && r.value.constants[k] == Identifier(name))
  {
    var (pool, k) := AddConstant(st.constants, Identifier(name));
    var a := CompileArguments(args, State(pool, st.code));
    if a.Ok? {
      assert pool <= a.value.constants;
    }
  }

  /** A primitive call: the arguments' code followed by one
      `CallPrimitiveFunction(n, name)`. */
  lemma PrimitiveCallLayout(name: string, args: seq<Node>, st: State)
    ensures var (pool, k) := AddConstant(st.constants, Identifier(name));
      var a := CompileArguments(args, State(pool, st.code));
      var r := CompileExpression(PrimitiveFunctionCall(name, args), st);
      (r.Ok? <==> a.Ok?)
      && (r.Ok? ==> r.value.code == a.value.code + [I.CallPrimitiveFunction(|args|, k)]
                    && k < |r.value.constants| && r.value.constants[k] == Identifier(name))
  {
    var (pool, k) := AddConstant(st.constants, Identifier(name));
    var a := CompileArguments(args, State(pool, st.code));
    if a.Ok? {
      assert pool <= a.value.constants;
    }
  }

  /** A binary node whose operands compile to `s1`, then `s2`. */
  lemma BinaryFrom(left: Node, right: Node, op: T.Token, st: State,
                   s1: State, s2: State, o: I.Instruction)
    requires CompileExpression(left, st) == Ok(s1)
    requires CompileExpression(right, s1) == Ok(s2)
    requires BinaryInstruction(op) == Ok(o)
    ensures CompileExpression(Binary(left, right, op), st) == Ok(Emit(s2, o))
  {
  }

  /** A primitive call whose arguments compile to `s` after its name went into
      the pool at `k`. */
  lemma PrimitiveCallFrom(name: string, args: seq<Node>, st: State,
                          pool: seq<Value>, k: nat, s: State)
    requires AddConstant(st.constants, Identifier(name)) == (pool, k)
    requires CompileArguments(args, State(pool, st.code)) == Ok(s)
    ensures CompileExpression(PrimitiveFunctionCall(name, args), st)
            == Ok(State(s.constants, s.code + [I.CallPrimitiveFunction(|args|, k)]))
  {
    PrimitiveCallIsCall(name, args, st);
    assert CompileCall(name, args, true, st)
        == Ok(State(s.constants, s.code + [I.CallPrimitiveFunction(|args|, k)]));
  }

  lemma PrimitiveCallIsCall(name: string, args: seq<Node>, st: State)
    ensures CompileExpression(PrimitiveFunctionCall(name, args), st) == CompileCall(name, args, true, st)
  {
  }

  /** A single argument compiles as its expression does. */
  lemma OneArgumentFrom(a: Node, st: State, s: State)
    requires CompileExpression(a, st) == Ok(s)
    ensures CompileArguments([a], st) == Ok(s)
  {
    assert [a][1..] == [];
  }

  /** A declaration whose value compiles to `s`. */
  lemma DeclarationFrom(name: string, value: Node, public: bool, t: Type, st: State, s: State)
    requires CompileExpression(value, st) == Ok(s)
    ensures CompileNode(VariableDeclr(name, value, public, t), st) == Ok(AssignTo(s, name))
  {
  }

  /** Declaration and assignment compile alike: the value's code, then one
      `AssignVariable` of the name. */
  lemma AssignmentLayout(name: string, value: Node, public: bool, t: Type, st: State)
    ensures var d := CompileNode(VariableDeclr(name, value, public, t), st);
      var c := CompileExpression(value, st);
      d == CompileNode(VariableAssignment(name, value), st)
      && (d.Ok? <==> c.Ok?)
      && (d.Ok? ==>
            |d.value.code| == |c.value.code| + 1 && c.value.code <= d.value.code
            && (var i := d.value.code[|c.value.code|];
                i.AssignVariable? && d.value.constants[i.index] == Identifier(name)))
  {
  }

  /** A `while` loop: the condition's code starts where the loop starts, the
      `JumpF` after it is patched to the length after the loop, and the last
      instruction is the back-edge `Jump` to the condition's first instruction. No
      placeholder survives: the guard's target is past every instruction. */
  lemma WhileLayout(condition: Node, body: seq<Node>, st: State)
    requires CompileNode(WhileLoop(condition, body), st).Ok?
    ensures var r := CompileNode(WhileLoop(condition, body), st).value;
      var c := CompileExpression(condition, st).value;
      var b := CompileNodes(body, Emit(c, I.JumpF(0))).value;
      Extends(st, c) && |r.code| == |b.code| + 1
      && r.code[..|c.code|] == c.code
      && r.code[|c.code| + 1..|b.code|] == b.code[|c.code| + 1..]
      && r.code[|c.code|] == I.JumpF(|r.code|)
      && r.code[|r.code| - 1] == I.Jump(|st.code|)
      && r.code[|c.code|] != I.JumpF(0)
  {
    var r := CompileNode(WhileLoop(condition, body), st).value;
    var c := CompileExpression(condition, st).value;
    var b := CompileNodes(body, Emit(c, I.JumpF(0))).value;
    assert r == CloseLoop(st, c, b);
    assert Emit(c, I.JumpF(0)).code <= b.code;
  }

  /** A function declaration: the body is compiled into a fresh chunk, so its jump
      targets are local to it; the declaration emits `LoadConstant` of the
      function value and `AssignVariable` of its name. */
  lemma FunctionLayout(name: string, params: seq<FnParam>, body: seq<Node>, coroutine: bool,
                       t: Type, public: bool, st: State)
    requires Distinct(st.constants)
    requires CompileNode(FunctionNode(name, params, body, coroutine, t, public), st).Ok?
    ensures var r := CompileNode(FunctionNode(name, params, body, coroutine, t, public), st).value;
      var b := CompileNodes(body, State(st.constants, [])).value;
      |r.code| == |st.code| + 2 && st.code <= r.code
      && var load, assign := r.code[|st.code|], r.code[|st.code| + 1];
      load.LoadConstant? && assign.AssignVariable?
      && r.constants[load.index] == Function(b.code, ParamNames(params), coroutine)
      && r.constants[assign.index] == Identifier(name)
      && JumpsLocal(b.code)
  {
    var f := FunctionNode(name, params, body, coroutine, t, public);
    var b := CompileNodes(body, State(st.constants, [])).value;
    assert CompileNode(f, st).value
        == Define(st, b, Function(b.code, ParamNames(params), coroutine), name);
    assert Sound(State(st.constants, []));
    SoundJumpsLocal(b);
  }

  /** Every jump of the code targets an instruction of it, or its end. */
  predicate JumpsLocal(code: seq<I.Instruction>) {
    forall k :: 0 <= k < |code| && (code[k].Jump? || code[k].JumpT? || code[k].JumpF?)
      ==> code[k].target <= |code|
  }

  lemma SoundJumpsLocal(b: State)
    requires Sound(b)
    ensures JumpsLocal(b.code)
  {
    forall k | 0 <= k < |b.code| && (b.code[k].Jump? || b.code[k].JumpT? || b.code[k].JumpF?)
      ensures b.code[k].target <= |b.code|
    {
      assert Refers(b.constants, |b.code|, b.code[k]);
    }
  }

  /** Compiling a program is compiling its parts in order. */
  lemma {:induction false} CompileNodesConcatenates(a: seq<Node>, b: seq<Node>, st: State)
    decreases |a|
    ensures CompileNodes(a + b, st) ==
      match CompileNodes(a, st)
      case Ok(s) => CompileNodes(b, s)
      case Err(e) => Err(e)
  {
    if |a| == 0 {
      assert a + b == b;
    } else {
      assert (a + b)[0] == a[0];
      assert (a + b)[1..] == a[1..] + b;
      match CompileNode(a[0], st)
      case Ok(s) => CompileNodesConcatenates(a[1..], b, s);
      case Err(_) =>
    }
  }

  /** A compiled program from an empty chunk is sound: no duplicate constants, no
      dangling constant or name index, no jump out of the chunk. */
  lemma CompiledProgramSound(source: seq<Node>)
    requires Compile(source, []).Ok?
    ensures Sound(Compile(source, []).value)
  {
    assert Sound(State([], []));
  }
}
