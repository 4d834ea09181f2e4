/** The third generation's machine (`run` in `src/vm/mod.rs`): it walks a code
object's instructions once, in order, over an operand stack and a variable map,
and always returns `none`.

The instructions it dispatches on carry their operands (`LoadConst(idx)`,
`CallFunction(idx, argc)`) and its code objects have a function table and
parameter names; neither is in the opcode file of the same snapshot, so both are
declared here as that code uses them. Console output is the list of argument
lists `writeln` was called with, the line itself being VmMacro.Writeln of each,
and, at the end of every run that reaches the end of its code (a called
function's included), that run's variable map.
Every raise, unwrap of an empty pop and out-of-range index is a `Failed` outcome,
and `fuel` bounds the depth of nested function calls.
 */
module VmRun {
  import opened Wrappers
  import Ints
  import opened VmOpcode
  import A = VmArithmetic
  import VmCommon
  import ConstantPool

  datatype Instr =
    | LoadConst(idx: nat)
    | LoadVariable(idx: nat)
    | AssignVar(idx: nat)
    | LoadBuiltinValue(idx: nat)
    | Binary(op: A.BinOp)
    | CallMacro(idx: nat, argc: nat)
    | CallFunction(idx: nat, argc: nat)
    | FormatString
    | BuildList

  /** A code object as the machine uses it: its own functions, and the
      parameter names it binds its arguments to. */
  datatype Function = Function(
    code: seq<Instr>,
    constants: seq<Value>,
    functions: map<string, Function>,
    parameters: seq<string>)

  /** What the machine writes to the console: the arguments of one `writeln` call,
      or the variable map that every run dumps when it reaches the end of its code. */
  datatype Output = Line(args: seq<Value>) | Variables(vars: map<string, Value>)

  datatype Machine = Machine(stack: seq<Value>, variables: map<string, Value>, printed: seq<Output>)

  /** The machine after an instruction or a run of them, or how it stopped
      early together with what had been printed by then. */
  datatype Stepped = Next(m: Machine) | Stop(why: Outcome<Value>, printed: seq<Output>)

  const UNWRAP_NONE := "called `Option::unwrap()` on a `None` value"
  const OUT_OF_BOUNDS := "index out of bounds"

  /** The one registered macro. */
  const WRITELN := "writeln"

  /** The text an arithmetic fault is raised with. `get_type` has no arm for a
      list, so an unsupported operation on a list has no message. */
  function FaultMessage(f: A.Fault): string {
    match f
    case Unsupported(a, b, o) =>
      (match VmCommon.UnsupportedOperation(a, b, o)
       case Some(t) => t
       case None => "")
    case Overflow(t) => t
    case UnknownOpcode => "0012"
  }

  function ArityMessage(name: string, expected: nat, got: nat): string {
    "Function " + name + " expected " + Ints.NatToDecimal(expected) + " arguments, got "
      + Ints.NatToDecimal(got) + "."
  }

  /** The first `n` pops from `stack`, top first, and the stack left behind;
      `None` when a pop finds the stack empty. */
  function PopEach(stack: seq<Value>, n: nat): Option<(seq<Value>, seq<Value>)>
    decreases n
  {
    if n == 0 then Some((stack, []))
    else if |stack| == 0 then Option.None
    else
      match PopEach(stack[..|stack| - 1], n - 1)
      case None => Option.None
      case Some((rest, popped)) => Some((rest, [stack[|stack| - 1]] + popped))
  }

  function Reverse<T>(s: seq<T>): (r: seq<T>)
    ensures |r| == |s|
    ensures forall k :: 0 <= k < |s| ==> r[k] == s[|s| - 1 - k]
  {
    if |s| == 0 then [] else Reverse(s[1..]) + [s[0]]
  }

  lemma {:induction false} PopEachMeaning(stack: seq<Value>, n: nat)
    decreases n
    ensures PopEach(stack, n).Some? <==> n <= |stack|
    ensures n <= |stack| ==>
      PopEach(stack, n).value.0 == stack[..|stack| - n]
      && |PopEach(stack, n).value.1| == n
      && forall k :: 0 <= k < n ==> PopEach(stack, n).value.1[k] == stack[|stack| - 1 - k]
  {
    if n > 0 && |stack| > 0 {
      var init := stack[..|stack| - 1];
      PopEachMeaning(init, n - 1);
      if n <= |stack| {
        assert init[..|init| - (n - 1)] == stack[..|stack| - n];
      }
    }
  }

  /** The arguments of a call: `n` pops, reversed. They are the top `n` values
      in the order they were pushed, and the rest of the stack stays. */
  function Arguments(stack: seq<Value>, n: nat): (r: Option<(seq<Value>, seq<Value>)>)
    ensures r.Some? <==> n <= |stack|
    ensures r.Some? ==> r.value.0 == stack[..|stack| - n] && r.value.1 == stack[|stack| - n..]
  {
    PopEachMeaning(stack, n);
    match PopEach(stack, n)
    case None => Option.None
    case Some((rest, popped)) => Some((rest, Reverse(popped)))
  }

  /** The callee's variables: each parameter bound, in order, to the argument
      at its position, a later parameter of the same name overwriting an
      earlier one. */
  /** No parameter after position `k` has the name at `k`. */
  predicate LastOccurrence(params: seq<string>, k: nat)
    requires k < |params|
  {
    forall j :: k < j < |params| ==> params[j] != params[k]
  }

  function Bind(params: seq<string>, args: seq<Value>): (r: map<string, Value>)
    requires |params| == |args|
    ensures forall x :: x in r <==> x in params
  {
    if |params| == 0 then map[]
    else
      var n := |params| - 1;
      assert forall x :: x in params <==> x in params[..n] || x == params[n] by {
        assert params == params[..n] + [params[n]];
      }
      Bind(params[..n], args[..n])[params[n] := args[n]]
  }

  /** Each name is bound to the argument at its last position. */
  lemma {:induction false} BindLast(params: seq<string>, args: seq<Value>)
    requires |params| == |args|
    ensures forall k :: 0 <= k < |params| && LastOccurrence(params, k) ==> Bind(params, args)[params[k]] == args[k]
  {
    if |params| > 0 {
      var n := |params| - 1;
      var p0, a0 := params[..n], args[..n];
      BindLast(p0, a0);
      var b0 := Bind(p0, a0);
      var b := Bind(params, args);
      assert b == b0[params[n] := args[n]];
      forall k | 0 <= k < |params| && LastOccurrence(params, k)
        ensures b[params[k]] == args[k]
      {
        if k < n {
          assert params[n] != params[k];
          assert LastOccurrence(p0, k) by {
            forall j | k < j < n ensures p0[j] != p0[k] {
              assert params[j] != params[k];
            }
          }
          assert b0[p0[k]] == a0[k];
        }
      }
    }
  }

  /** Distinct parameter names receive the arguments positionally. */
  lemma PositionalBinding(params: seq<string>, args: seq<Value>)
    requires |params| == |args| && ConstantPool.Distinct(params)
    ensures forall k :: 0 <= k < |params| ==> Bind(params, args)[params[k]] == args[k]
  {
    assert forall k | 0 <= k < |params| :: LastOccurrence(params, k);
    BindLast(params, args);
  }

  /** How a call name resolves: the calling code object's own functions
      first, then the global table. */
  function Resolve(local: map<string, Function>, table: map<string, Function>, name: string): Option<Function> {
    if name in local then Some(local[name])
    else if name in table then Some(table[name])
    else Option.None
  }

  /** The change in stack height when an instruction completes. */
  function StackEffect(constants: seq<Value>, ins: Instr): int {
    match ins
    case LoadConst(_) => 1
    case LoadVariable(idx) => if idx < |constants| && constants[idx].String? then 1 else 0
    case AssignVar(idx) => if idx < |constants| && constants[idx].String? then -1 else 0
    case LoadBuiltinValue(_) => 1
    case Binary(op) => if op.LessOrEqual? then 0 else -1
    case CallMacro(_, n) => 1 - n
    case CallFunction(_, n) => 1 - n
    case FormatString => 0
    case BuildList => 0
  }

  function Push(m: Machine, v: Value): Machine {
    m.(stack := m.stack + [v])
  }

  function Fail(m: Machine, msg: string): Stepped {
    Stop(Failed(msg), m.printed)
  }

  /** One instruction of the loop in `run`. */
  function Step(
    constants: seq<Value>, local: map<string, Function>, table: map<string, Function>,
    ins: Instr, m: Machine, fuel: nat): (r: Stepped)
    decreases fuel, 1, 0
    ensures r.Next? ==> m.printed <= r.m.printed
    ensures r.Next? ==> |r.m.stack| == |m.stack| + StackEffect(constants, ins)
    ensures r.Next? ==> m.variables.Keys <= r.m.variables.Keys
    ensures r.Stop? ==> m.printed <= r.printed && !r.why.Returned? && !r.why.Exited?
  {
    if ins.CallFunction? then Call(constants, local, table, ins.idx, ins.argc, m, fuel)
    else Simple(constants, ins, m)
  }

  /** The instructions other than a function call. */
  function Simple(constants: seq<Value>, ins: Instr, m: Machine): (r: Stepped)
    requires !ins.CallFunction?
    ensures r.Next? ==> m.printed <= r.m.printed
    ensures r.Next? ==> |r.m.stack| == |m.stack| + StackEffect(constants, ins)
    ensures r.Next? ==> m.variables.Keys <= r.m.variables.Keys
    ensures r.Stop? ==> r.printed == m.printed && r.why.Failed?
  {
    match ins
    case LoadConst(idx) =>
      if idx < |constants| then Next(Push(m, constants[idx])) else Fail(m, OUT_OF_BOUNDS)
    case LoadVariable(idx) =>
      if idx >= |constants| then Fail(m, OUT_OF_BOUNDS)
      else if !constants[idx].String? then Next(m)
      else
        var name := constants[idx].s;
        if name in m.variables then Next(Push(m, m.variables[name]))
        else Fail(m, "Variable `" + name + "` does not exist")
    case AssignVar(idx) =>
      if idx >= |constants| then Fail(m, OUT_OF_BOUNDS)
      else if !constants[idx].String? then Next(m)
      else if |m.stack| == 0 then Fail(m, UNWRAP_NONE)
      else
        var top := |m.stack| - 1;
        Next(m.(stack := m.stack[..top], variables := m.variables[constants[idx].s := m.stack[top]]))
    case LoadBuiltinValue(idx) =>
      if idx == 0 then Next(Push(m, Value.None))
      else if idx == 1 then Next(Push(m, Bool(true)))
      else if idx == 2 then Next(Push(m, Bool(false)))
      else Fail(m, "0015")
    case Binary(op) => BinaryStep(op, m)
    case CallMacro(idx, argc) => MacroStep(constants, idx, argc, m)
    case FormatString => Next(m)
    case BuildList => Next(m)
  }

  /** `Binary(op)`: the two top values replaced by the result of `operate`. */
  function BinaryStep(op: A.BinOp, m: Machine): (r: Stepped)
    ensures r.Next? ==> r.m.printed == m.printed && r.m.variables == m.variables
    ensures r.Next? ==> |r.m.stack| == |m.stack| + (if op.LessOrEqual? then 0 else -1)
    ensures r.Stop? ==> r.printed == m.printed && r.why.Failed?
  {
    if op.LessOrEqual? then Next(m)
    else if |m.stack| < 2 then Fail(m, UNWRAP_NONE)
    else
      var n := |m.stack|;
      match A.Operate(m.stack[n - 2], m.stack[n - 1], op, A.W64)
      case Done(v) => Next(m.(stack := m.stack[..n - 2] + [v]))
      case Raised(f) => Fail(m, FaultMessage(f))
  }

  /** `CallMacro(idx, argc)`: only `writeln` exists; it records its arguments as
      printed and pushes `None` in their place. */
  function MacroStep(constants: seq<Value>, idx: nat, argc: nat, m: Machine): (r: Stepped)
    ensures r.Next? ==> m.printed <= r.m.printed && r.m.variables == m.variables
    ensures r.Next? ==> |r.m.stack| == |m.stack| + 1 - argc
    ensures r.Stop? ==> r.printed == m.printed && r.why.Failed?
  {
    if idx >= |constants| then Fail(m, OUT_OF_BOUNDS)
    else if !constants[idx].String? then Fail(m, "0009")
    else
      var name := constants[idx].s;
      match Arguments(m.stack, argc)
      case None => Fail(m, UNWRAP_NONE)
      case Some((rest, args)) =>
        if name != WRITELN then Fail(m, "Macro " + name + " not found.")
        else Next(Machine(rest + [Value.None], m.variables, m.printed + [Line(args)]))
  }

  /** `CallFunction(idx, argc)`: pop the arguments, resolve the name, check the
      arity, run the callee on its own stack and push what it returns. */
  function Call(
    constants: seq<Value>, local: map<string, Function>, table: map<string, Function>,
    idx: nat, argc: nat, m: Machine, fuel: nat): (r: Stepped)
    decreases fuel, 0, 0
    ensures r.Next? ==> m.printed <= r.m.printed
    ensures r.Next? ==> |r.m.stack| == |m.stack| + 1 - argc
    ensures r.Next? ==> r.m.variables == m.variables
    ensures r.Stop? ==> m.printed <= r.printed && !r.why.Returned? && !r.why.Exited?
  {
    if idx >= |constants| then Fail(m, OUT_OF_BOUNDS)
    else if !constants[idx].String? then Fail(m, "0016")
    else
      var name := constants[idx].s;
      match Arguments(m.stack, argc)
      case None => Fail(m, UNWRAP_NONE)
      case Some((rest, args)) =>
        match Resolve(local, table, name)
        case None => Fail(m, "Function " + name + " not found.")
        case Some(callee) =>
          if |args| != |callee.parameters| then Fail(m, ArityMessage(name, |callee.parameters|, |args|))
          else if fuel == 0 then Stop(NoFuel, m.printed)
          else
            var (o, printed) := Run(callee, Bind(callee.parameters, args), Some(table), m.printed, fuel - 1);
            if o.Returned? then Next(Machine(rest + [o.value], m.variables, printed))
            else Stop(o, printed)
  }

  /** The instructions from `pc` to the end, each once, in order. */
  function Exec(
    constants: seq<Value>, local: map<string, Function>, table: map<string, Function>,
    code: seq<Instr>, pc: nat, m: Machine, fuel: nat): (r: Stepped)
    requires pc <= |code|
    decreases fuel, 2, |code| - pc
    ensures r.Next? ==> m.printed <= r.m.printed
    ensures r.Stop? ==> m.printed <= r.printed && !r.why.Returned? && !r.why.Exited?
  {
    if pc == |code| then Next(m)
    else
      match Step(constants, local, table, code[pc], m, fuel)
      case Next(m') => Exec(constants, local, table, code, pc + 1, m', fuel)
      case Stop(o, p) => Stop(o, p)
  }

  /** `run`: the code object's code on an empty stack with the given variables.
      Without a global table, the code object's own functions are the global
      table for it and for every call it makes. */
  function Run(
    f: Function, variables: map<string, Value>, globals: Option<map<string, Function>>,
    printed: seq<Output>, fuel: nat): (r: (Outcome<Value>, seq<Output>))
    decreases fuel, 3, 0
    ensures printed <= r.1
    ensures r.0.Returned? ==> r.0.value == Value.None
    ensures r.0.Returned? ==> |r.1| > |printed| && r.1[|r.1| - 1].Variables?
    ensures !r.0.Exited?
  {
    var table := if globals.Some? then globals.value else f.functions;
    match Exec(f.constants, f.functions, table, f.code, 0, Machine([], variables, printed), fuel)
    case Next(m) => (Returned(Value.None), m.printed + [Variables(m.variables)])
    case Stop(o, p) => (o, p)
  }

  /** Code `a + b` runs as `a` and then `b` on the machine `a` leaves. */
  lemma ExecAppend(
    constants: seq<Value>, local: map<string, Function>, table: map<string, Function>,
    a: seq<Instr>, b: seq<Instr>, m: Machine, fuel: nat)
    ensures Exec(constants, local, table, a + b, 0, m, fuel) ==
      match Exec(constants, local, table, a, 0, m, fuel)
      case Next(m') => Exec(constants, local, table, b, 0, m', fuel)
      case Stop(o, p) => Stop(o, p)
  {
    ExecAppendFrom(constants, local, table, a, b, 0, m, fuel);
  }

  lemma {:induction false} ExecAppendFrom(
    constants: seq<Value>, local: map<string, Function>, table: map<string, Function>,
    a: seq<Instr>, b: seq<Instr>, pc: nat, m: Machine, fuel: nat)
    requires pc <= |a|
    decreases |a| - pc
    ensures Exec(constants, local, table, a + b, pc, m, fuel) ==
      match Exec(constants, local, table, a, pc, m, fuel)
      case Next(m') => Exec(constants, local, table, b, 0, m', fuel)
      case Stop(o, p) => Stop(o, p)
  {
    if pc == |a| {
      ExecShift(constants, local, table, a, b, 0, m, fuel);
    } else {
      assert (a + b)[pc] == a[pc];
      match Step(constants, local, table, a[pc], m, fuel)
      case Next(m') =>
        ExecAppendFrom(constants, local, table, a, b, pc + 1, m', fuel);
      case Stop(o, p) =>
    }
  }

  /** After `a`, running `a + b` is running `b`. */
  lemma {:induction false} ExecShift(
    constants: seq<Value>, local: map<string, Function>, table: map<string, Function>,
    a: seq<Instr>, b: seq<Instr>, j: nat, m: Machine, fuel: nat)
    requires j <= |b|
    decreases |b| - j
    ensures Exec(constants, local, table, a + b, |a| + j, m, fuel) == Exec(constants, local, table, b, j, m, fuel)
  {
    if j < |b| {
      assert (a + b)[|a| + j] == b[j];
      match Step(constants, local, table, b[j], m, fuel)
      case Next(m') =>
        ExecShift(constants, local, table, a, b, j + 1, m', fuel);
      case Stop(o, p) =>
    }
  }

  /** Running with no global table is running with the code object's own
      functions as the table. */
  lemma TopLevelTable(f: Function, variables: map<string, Value>, printed: seq<Output>, fuel: nat)
    ensures Run(f, variables, Option.None, printed, fuel) == Run(f, variables, Some(f.functions), printed, fuel)
  {
  }

  /** `LoadBuiltinValue` pushes `none`, `true` or `false` for 0, 1, 2 and raises
      the internal error 0015 for any other index. */
  lemma BuiltinValues(
    constants: seq<Value>, local: map<string, Function>, table: map<string, Function>,
    idx: nat, m: Machine, fuel: nat)
    ensures var r := Step(constants, local, table, Instr.LoadBuiltinValue(idx), m, fuel);
      if idx < 3 then
        r.Next? && r.m.stack[..|m.stack|] == m.stack
        && r.m.stack[|m.stack|] == [Value.None, Bool(true), Bool(false)][idx]
        && r.m.variables == m.variables && r.m.printed == m.printed
      else r == Stop(Failed("0015"), m.printed)
  {
  }

  /** A listed binary opcode replaces the top two values `a, b` by `a op b` as
      the 64-bit arithmetic computes it, or fails with its message;
      `LessOrEqual` is not listed and changes nothing. */
  lemma BinaryPopsTwo(
    constants: seq<Value>, local: map<string, Function>, table: map<string, Function>,
    op: A.BinOp, rest: seq<Value>, a: Value, b: Value,
    variables: map<string, Value>, printed: seq<Output>, fuel: nat)
    ensures var m := Machine(rest + [a, b], variables, printed);
      var r := Step(constants, local, table, Instr.Binary(op), m, fuel);
      if op.LessOrEqual? then r == Next(m)
      else match A.Operate(a, b, op, A.W64)
        case Done(v) => r == Next(Machine(rest + [v], variables, printed))
        case Raised(f) => r == Stop(Failed(FaultMessage(f)), printed)
  {
    var s := rest + [a, b];
    assert s[|s| - 2] == a && s[|s| - 1] == b && s[..|s| - 2] == rest;
  }

  /** `writeln` gets the top `n` values in the order they were pushed and
      pushes `none` in their place; any other macro name raises after the
      arguments are popped. */
  lemma MacroArguments(
    constants: seq<Value>, local: map<string, Function>, table: map<string, Function>,
    idx: nat, below: seq<Value>, args: seq<Value>,
    variables: map<string, Value>, printed: seq<Output>, fuel: nat)
    requires idx < |constants| && constants[idx].String?
    ensures var m := Machine(below + args, variables, printed);
      var r := Step(constants, local, table, Instr.CallMacro(idx, |args|), m, fuel);
      if constants[idx].s == WRITELN then r == Next(Machine(below + [Value.None], variables, printed + [Line(args)]))
      else r == Stop(Failed("Macro " + constants[idx].s + " not found."), printed)
  {
    var s := below + args;
    assert s[..|s| - |args|] == below && s[|s| - |args|..] == args;
  }

  /** A call finds the calling code object's own function of that name before
      a global one, and raises when there is neither. */
  lemma LocalShadowsGlobal(local: map<string, Function>, table: map<string, Function>, name: string)
    ensures name in local ==> Resolve(local, table, name) == Some(local[name])
    ensures name !in local && name in table ==> Resolve(local, table, name) == Some(table[name])
    ensures Resolve(local, table, name).None? <==> name !in local && name !in table
  {
  }

  /** A call with the wrong number of arguments raises before the callee runs:
      nothing more is printed, whatever the callee would do. */
  lemma ArityCheckedFirst(
    constants: seq<Value>, local: map<string, Function>, table: map<string, Function>,
    idx: nat, argc: nat, m: Machine, fuel: nat)
    requires idx < |constants| && constants[idx].String? && argc <= |m.stack|
    requires Resolve(local, table, constants[idx].s).Some?
    requires |Resolve(local, table, constants[idx].s).value.parameters| != argc
    ensures Step(constants, local, table, Instr.CallFunction(idx, argc), m, fuel)
      == Stop(Failed(ArityMessage(constants[idx].s, |Resolve(local, table, constants[idx].s).value.parameters|, argc)),
              m.printed)
  {
  }

  /** A successful call leaves the caller's variables as they were, replaces the
      arguments by `none` (what every run returns), and runs the callee on the
      arguments bound to its parameters with the same global table. */
  lemma CallFunctionEffect(
    constants: seq<Value>, local: map<string, Function>, table: map<string, Function>,
    idx: nat, below: seq<Value>, args: seq<Value>,
    variables: map<string, Value>, printed: seq<Output>, fuel: nat)
    requires idx < |constants| && constants[idx].String?
    ensures var m := Machine(below + args, variables, printed);
      var r := Step(constants, local, table, Instr.CallFunction(idx, |args|), m, fuel);
      r.Next? ==>
        Resolve(local, table, constants[idx].s).Some?
        && var callee := Resolve(local, table, constants[idx].s).value;
        fuel > 0 && |callee.parameters| == |args|
        && r.m == Machine(below + [Value.None], variables,
                          Run(callee, Bind(callee.parameters, args), Some(table), printed, fuel - 1).1)
  {
    var s := below + args;
    assert s[..|s| - |args|] == below && s[|s| - |args|..] == args;
  }

  /** `f(x) { writeln!(x) }` called as `f(7)`. */
  function Callee(): Function {
    Function([Instr.LoadVariable(0), Instr.CallMacro(1, 1)], [String("x"), String(WRITELN)], map[], ["x"])
  }

  function Caller(): Function {
    Function([Instr.LoadConst(0), Instr.CallFunction(1, 1)], [Integer(7), String("f")], map["f" := Callee()], [])
  }

  /** The callee's first instruction loads `x`. */
  lemma CalleeLoads(table: map<string, Function>, printed: seq<Output>, fuel: nat)
    ensures var m0 := Machine([], map["x" := Integer(7)], printed);
      Step(Callee().constants, Callee().functions, table, Callee().code[0], m0, fuel)
        == Next(Push(m0, Integer(7)))
  {
    var f := Callee();
    var m0 := Machine([], map["x" := Integer(7)], printed);
    assert f.code[0] == Instr.LoadVariable(0) && f.constants[0] == String("x");
    assert Step(f.constants, f.functions, table, f.code[0], m0, fuel) == Simple(f.constants, f.code[0], m0);
  }

  /** The callee's second instruction prints it. */
  lemma CalleePrints(table: map<string, Function>, printed: seq<Output>, fuel: nat)
    ensures var m1 := Machine([Integer(7)], map["x" := Integer(7)], printed);
      Step(Callee().constants, Callee().functions, table, Callee().code[1], m1, fuel)
        == Next(Machine([Value.None], map["x" := Integer(7)], printed + [Line([Integer(7)])]))
  {
    var f := Callee();
    var m1 := Machine([Integer(7)], map["x" := Integer(7)], printed);
    assert f.code[1] == Instr.CallMacro(1, 1) && f.constants[1] == String(WRITELN);
    assert Arguments(m1.stack, 1) == Some(([], [Integer(7)]));
    assert Step(f.constants, f.functions, table, f.code[1], m1, fuel) == MacroStep(f.constants, 1, 1, m1);
  }

  /** The callee's two instructions, run in turn, load and print its argument. */
  lemma CalleeExec(table: map<string, Function>, printed: seq<Output>, fuel: nat)
    ensures Exec(Callee().constants, Callee().functions, table, Callee().code, 0,
                 Machine([], map["x" := Integer(7)], printed), fuel)
      == Next(Machine([Value.None], map["x" := Integer(7)], printed + [Line([Integer(7)])]))
  {
    var f := Callee();
    var m0 := Machine([], map["x" := Integer(7)], printed);
    var m1 := Push(m0, Integer(7));
    var m2 := Machine([Value.None], m0.variables, printed + [Line([Integer(7)])]);
    CalleeLoads(table, printed, fuel);
    CalleePrints(table, printed, fuel);
    assert Exec(f.constants, f.functions, table, f.code, 2, m2, fuel) == Next(m2);
    assert Exec(f.constants, f.functions, table, f.code, 1, m1, fuel) == Next(m2);
  }

  /** The callee sees its argument under its parameter's name, prints it, and dumps
      its variables on returning. */
  lemma CalleeRuns(table: map<string, Function>, printed: seq<Output>, fuel: nat)
    ensures Run(Callee(), map["x" := Integer(7)], Some(table), printed, fuel)
      == (Returned(Value.None), printed + [Line([Integer(7)]), Variables(map["x" := Integer(7)])])
  {
    CalleeExec(table, printed, fuel);
    var m2 := Machine([Value.None], map["x" := Integer(7)], printed + [Line([Integer(7)])]);
    assert m2.printed + [Variables(m2.variables)]
        == printed + [Line([Integer(7)]), Variables(map["x" := Integer(7)])];
  }

  /** Calling it prints `7`, then the callee's variables, then the caller's empty
      map, and the run returns `none`. */
  lemma ExampleCall()
    ensures Run(Caller(), map[], Option.None, [], 1)
      == (Returned(Value.None), [Line([Integer(7)]), Variables(map["x" := Integer(7)]), Variables(map[])])
  {
    var f := Caller();
    var table := f.functions;
    var m0 := Machine([], map[], []);
    var m1 := Push(m0, Integer(7));
    assert Step(f.constants, f.functions, table, f.code[0], m0, 1) == Next(m1);
    assert Arguments(m1.stack, 1) == Some(([], [Integer(7)]));
    assert Resolve(f.functions, table, "f") == Some(Callee());
    assert Bind(["x"], [Integer(7)]) == map["x" := Integer(7)];
    CalleeRuns(table, [], 0);
    var m2 := Machine([Value.None], map[], [Line([Integer(7)]), Variables(map["x" := Integer(7)])]);
    assert Step(f.constants, f.functions, table, f.code[1], m1, 1) == Next(m2);
    assert Exec(f.constants, f.functions, table, f.code, 2, m2, 1) == Next(m2);
    assert Exec(f.constants, f.functions, table, f.code, 1, m1, 1) == Next(m2);
    assert Exec(f.constants, f.functions, table, f.code, 0, m0, 1) == Next(m2);
    assert m2.printed + [Variables(m2.variables)]
        == [Line([Integer(7)]), Variables(map["x" := Integer(7)]), Variables(map[])];
  }
}
