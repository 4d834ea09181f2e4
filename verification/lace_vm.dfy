/** The second-generation virtual machine (`lace`).

The machine has an operand stack, the constant pool it was built with, and a
call stack of frames: frame 0 holds the globals and the last frame the current
locals. Every exit from `run` (a `Return`, a `ReturnNone`, or running past the
end of the code) pops one frame, so a function call, which pushes a frame for its
parameters, leaves the caller's frames as they were.

`run` and the calls it makes recurse without bound in the source; here they get a
fuel budget, and a run that exhausts it ends in `NoFuel`. A panic (an `unwrap` on
an empty stack, a constant index out of range, a constant that is not an
identifier, a failing value operation) and a `runtime_error` both end the run in
`Failed`; `exit!` ends it in `Exited`. What `writeln!` prints is recorded as the
list of its arguments (the `LaceMacros` module builds the line from them).
 */
module LaceVm {
  import opened Wrappers
  import opened LacecCommon
  import I = LacecInstruction
  import LaceMacros

  type Frame = map<string, Value>

  datatype Machine = Machine(stack: seq<Value>, constants: seq<Value>, frames: seq<Frame>,
                             printed: seq<seq<Value>>)

  /** What one instruction does: carry on at `ip`, or end the run. */
  datatype StepResult = Continue(ip: nat, m: Machine) | Stop(out: Outcome<Value>, m: Machine)

  const UNWRAP_NONE := "called `Option::unwrap()` on a `None` value"
  const OUT_OF_BOUNDS := "index out of bounds"
  const NOT_IDENTIFIER := "Could not extract identifier."
  const NOT_CALLABLE := "variable '<anonymous>' is not callable."

  /** `VirtualMachine::new`: an empty stack, the given constants, and one empty
      global frame. */
  function New(constants: seq<Value>): (m: Machine)
    ensures m.stack == [] && m.constants == constants && m.printed == []
    ensures |m.frames| == 1 && m.frames[0] == map[]
  {
    Machine([], constants, [map[]], [])
  }

  /** The call stack after a `pop`, which does nothing on an empty stack. */
  function PopFrame(frames: seq<Frame>): seq<Frame> {
    if |frames| == 0 then [] else frames[..|frames| - 1]
  }

  /** Two call stacks of the same depth that differ at most in the last frame. */
  predicate SameOuterFrames(a: seq<Frame>, b: seq<Frame>) {
    |a| == |b| && PopFrame(a) == PopFrame(b)
  }

  function Top(m: Machine): Value
    requires |m.stack| > 0
  {
    m.stack[|m.stack| - 1]
  }

  function Popped(m: Machine): Machine
    requires |m.stack| > 0
  {
    m.(stack := m.stack[..|m.stack| - 1])
  }

  function Pushed(m: Machine, v: Value): Machine {
    m.(stack := m.stack + [v])
  }

  /** `extract`: the name an `Identifier` constant holds; any other value panics. */
  function ConstantName(m: Machine, index: nat): (r: Result<string>)
    ensures r.Ok? <==> index < |m.constants| && m.constants[index].Identifier?
    ensures r.Ok? ==> r.value == m.constants[index].iden
  {
    if index >= |m.constants| then Err(OUT_OF_BOUNDS)
    else match m.constants[index]
      case Identifier(name) => Ok(name)
      case _ => Err(NOT_IDENTIFIER)
  }

  /** Binds `name` in the last frame. */
  function SetLocal(m: Machine, name: string, v: Value): Machine
    requires |m.frames| > 0
  {
    var last := |m.frames| - 1;
    m.(frames := m.frames[last := m.frames[last][name := v]])
  }

  /** `LoadConstant` pushes a constant; `LoadVariable` pushes the variable found
      first in the locals and then in the globals, and fails for a name bound in
      neither; `AssignVariable` pops into the locals. No other frame is read or
      written. */
  function ExecVariable(instr: I.Instruction, ip: nat, m: Machine): (r: StepResult)
    requires instr.LoadConstant? || instr.LoadVariable? || instr.AssignVariable?
    ensures r.Continue? ==> r.ip == ip + 1 && SameOuterFrames(m.frames, r.m.frames)
    ensures r.m.constants == m.constants && r.m.printed == m.printed
    ensures instr.LoadConstant? ==>
      (r.Continue? <==> instr.index < |m.constants|)
      && (r.Continue? ==> r.m == Pushed(m, m.constants[instr.index]))
    ensures instr.LoadVariable? && |m.frames| > 0 ==>
      var name := ConstantName(m, instr.index);
      var locals, globals := m.frames[|m.frames| - 1], m.frames[0];
      (r.Continue? <==> name.Ok? && (name.value in locals || name.value in globals))
      && (r.Continue? && name.value in locals ==> r.m == Pushed(m, locals[name.value]))
      && (r.Continue? && name.value !in locals ==> r.m == Pushed(m, globals[name.value]))
    ensures instr.AssignVariable? ==>
      (r.Continue? <==> ConstantName(m, instr.index).Ok? && |m.stack| > 0 && |m.frames| > 0)
      && (r.Continue? ==> r.m == SetLocal(Popped(m), ConstantName(m, instr.index).value, Top(m)))
    ensures instr.LoadVariable? && |m.frames| == 0 ==> r.Stop?
  {
    match instr
    case LoadConstant(k) =>
      if k >= |m.constants| then Stop(Failed(OUT_OF_BOUNDS), m)
      else Continue(ip + 1, Pushed(m, m.constants[k]))
    case LoadVariable(k) =>
      (match ConstantName(m, k)
       case Err(e) => Stop(Failed(e), m)
       case Ok(name) =>
         if |m.frames| == 0 then Stop(Failed(UNWRAP_NONE), m)
         else if name in m.frames[|m.frames| - 1] then Continue(ip + 1, Pushed(m, m.frames[|m.frames| - 1][name]))
         else if name in m.frames[0] then Continue(ip + 1, Pushed(m, m.frames[0][name]))
         else Stop(Failed("variable '" + name + "' not found."), m))
    case AssignVariable(k) =>
      match ConstantName(m, k)
      case Err(e) => Stop(Failed(e), m)
      case Ok(name) =>
        if |m.stack| == 0 || |m.frames| == 0 then Stop(Failed(UNWRAP_NONE), m)
        else Continue(ip + 1, SetLocal(Popped(m), name, Top(m)))
  }

  /** `&&` of the machine: the left operand's truthiness decides alone when it is
      falsy, so the right one is not inspected then. */
  function LogicalAnd(a: Value, b: Value): (r: Result<Value>)
    ensures r.Ok? ==> r.value.True? || r.value.False?
  {
    var ta :- IsTruthy(a);
    if !ta then Ok(False)
    else
      var tb :- IsTruthy(b);
      Ok(Bool2Value(tb))
  }

  /** `||`: a truthy left operand decides alone. */
  function LogicalOr(a: Value, b: Value): (r: Result<Value>)
    ensures r.Ok? ==> r.value.True? || r.value.False?
  {
    var ta :- IsTruthy(a);
    if ta then Ok(True)
    else
      var tb :- IsTruthy(b);
      Ok(Bool2Value(tb))
  }

  /** On public operands the logical operators are the boolean connectives of the
      truthiness; a deciding left operand makes the right one irrelevant, even a
      private one. */
  lemma LogicalTruthTable(a: Value, b: Value)
    ensures IsPublic(a) && IsPublic(b) ==>
      LogicalAnd(a, b) == Ok(Bool2Value(IsTruthy(a).value && IsTruthy(b).value))
      && LogicalOr(a, b) == Ok(Bool2Value(IsTruthy(a).value || IsTruthy(b).value))
    ensures IsTruthy(a) == Ok(false) ==> LogicalAnd(a, b) == Ok(False)
    ensures IsTruthy(a) == Ok(true) ==> LogicalOr(a, b) == Ok(True)
    ensures !IsPublic(a) ==> LogicalAnd(a, b).Err? && LogicalOr(a, b).Err?
  {
  }

  /** The instructions that pop two operands and push one result. */
  predicate IsBinary(i: I.Instruction) {
    i.Add? || i.Sub? || i.Mul? || i.Div? || i.Mod? || i.Pow? || i.LeftShift? || i.RightShift?
    || i.UnEq? || i.Eq? || i.Less? || i.More? || i.LessEq? || i.MoreEq?
    || i.BinaryOr? || i.BinaryXor? || i.BinaryAnd? || i.LogicalAnd? || i.LogicalOr?
  }

  /** The value operation each binary instruction applies to `a op b`. The bitwise
      instructions call methods (`bo`, `bx`, `ba`) that the value type does not
      define, so they have no behaviour to model and fail. */
  function BinaryOp(i: I.Instruction, a: Value, b: Value): Result<Value>
    requires IsBinary(i)
  {
    match i
    case Add => Add(a, b)
    case Sub => Sub(a, b)
    case Mul => Mul(a, b)
    case Div => Div(a, b)
    case Mod => Rem(a, b)
    case Pow => Pow(a, b)
    case LeftShift => Lsh(a, b)
    case RightShift => Rsh(a, b)
    case UnEq => Ok(Ne(a, b))
    case Eq => Ok(Eq(a, b))
    case Less => St(a, b)
    case More => Gt(a, b)
    case LessEq => Se(a, b)
    case MoreEq => Ge(a, b)
    case BinaryOr => Err("no method named `bo`")
    case BinaryXor => Err("no method named `bx`")
    case BinaryAnd => Err("no method named `ba`")
    case LogicalAnd => LogicalAnd(a, b)
    case LogicalOr => LogicalOr(a, b)
  }

  function UnaryOp(i: I.Instruction, a: Value): Result<Value>
    requires i.LogicalNot? || i.Negate? || i.Typeof?
  {
    match i
    case LogicalNot => Not(a)
    case Negate => NegateValue(a)
    case Typeof => Tpyeof(a)
  }

  /** A binary instruction pops `b`, then `a`, and pushes `a op b`: the stack shrinks
      by one. A unary one replaces the top. An operation error stops the run. */
  function ExecOperator(instr: I.Instruction, ip: nat, m: Machine): (r: StepResult)
    requires IsBinary(instr) || instr.LogicalNot? || instr.Negate? || instr.Typeof?
    ensures r.m.frames == m.frames && r.m.constants == m.constants && r.m.printed == m.printed
    ensures r.Continue? ==> r.ip == ip + 1
    ensures IsBinary(instr) && |m.stack| >= 2 ==>
      var b, a := m.stack[|m.stack| - 1], m.stack[|m.stack| - 2];
      var v := BinaryOp(instr, a, b);
      (r.Continue? <==> v.Ok?)
      && (v.Ok? ==> r.m.stack == m.stack[..|m.stack| - 2] + [v.value])
      && (v.Err? ==> r.out == Failed(v.msg))
    ensures !IsBinary(instr) && |m.stack| > 0 ==>
      var v := UnaryOp(instr, Top(m));
      (r.Continue? <==> v.Ok?) && (v.Ok? ==> r.m == Pushed(Popped(m), v.value))
    ensures |m.stack| < (if IsBinary(instr) then 2 else 1) ==> r == Stop(Failed(UNWRAP_NONE), m)
  {
    if IsBinary(instr) then
      if |m.stack| < 2 then Stop(Failed(UNWRAP_NONE), m)
      else
        var b, a := m.stack[|m.stack| - 1], m.stack[|m.stack| - 2];
        var m' := m.(stack := m.stack[..|m.stack| - 2]);
        match BinaryOp(instr, a, b)
        case Ok(v) => Continue(ip + 1, Pushed(m', v))
        case Err(e) => Stop(Failed(e), m')
    else if |m.stack| == 0 then Stop(Failed(UNWRAP_NONE), m)
    else
      match UnaryOp(instr, Top(m))
      case Ok(v) => Continue(ip + 1, Pushed(Popped(m), v))
      case Err(e) => Stop(Failed(e), Popped(m))
  }

  /** Jumps move `ip` without the usual increment: `Jump` always, `JumpT` when the
      popped value is truthy and `JumpF` when it is falsy. `Return` pops the frame
      and ends the run with the popped top, `ReturnNone` with `None`. */
  function ExecControl(instr: I.Instruction, ip: nat, m: Machine): (r: StepResult)
    requires instr.Jump? || instr.JumpT? || instr.JumpF? || instr.Return? || instr.ReturnNone?
    ensures r.m.constants == m.constants && r.m.printed == m.printed
    ensures r.Continue? ==> r.m.frames == m.frames
    ensures instr.Jump? ==> r == Continue(instr.target, m)
    ensures (instr.JumpT? || instr.JumpF?) && |m.stack| > 0 ==>
      var t := IsTruthy(Top(m));
      (r.Continue? <==> t.Ok?)
      && (t.Ok? ==> r == Continue(if t.value == instr.JumpT? then instr.target else ip + 1, Popped(m)))
    ensures instr.Return? && |m.stack| > 0 ==>
      r == Stop(Returned(Top(m)), Popped(m).(frames := PopFrame(m.frames)))
    ensures instr.ReturnNone? ==> r == Stop(Returned(Value.None), m.(frames := PopFrame(m.frames)))
    ensures (instr.JumpT? || instr.JumpF? || instr.Return?) && |m.stack| == 0 ==>
      r.Stop? && r.out.Failed?
  {
    match instr
    case Jump(t) => Continue(t, m)
    case JumpT(t) =>
      if |m.stack| == 0 then Stop(Failed(UNWRAP_NONE), m)
      else
        (match IsTruthy(Top(m))
         case Ok(b) => Continue(if b then t else ip + 1, Popped(m))
         case Err(e) => Stop(Failed(e), Popped(m)))
    case JumpF(t) =>
      if |m.stack| == 0 then Stop(Failed(UNWRAP_NONE), m)
      else
        (match IsTruthy(Top(m))
         case Ok(b) => Continue(if !b then t else ip + 1, Popped(m))
         case Err(e) => Stop(Failed(e), Popped(m)))
    case Return =>
      var m' := m.(frames := PopFrame(m.frames));
      if |m.stack| == 0 then Stop(Failed(UNWRAP_NONE), m')
      else Stop(Returned(Top(m)), Popped(m'))
    case ReturnNone => Stop(Returned(Value.None), m.(frames := PopFrame(m.frames)))
  }

  /** `CallPrimitiveFunction(n, name)` pops `n` arguments and puts them back in the
      order they were pushed. `writeln!` prints them (every argument must be
      printable) and pushes nothing; `exit!` ends the run; any other name is a
      runtime error. */
  function ExecPrimitive(n: nat, nameIndex: nat, ip: nat, m: Machine): (r: StepResult)
    ensures r.m.frames == m.frames && r.m.constants == m.constants
    ensures r.Continue? ==> r.ip == ip + 1
    ensures n > |m.stack| ==> r == Stop(Failed(UNWRAP_NONE), m)
    ensures n <= |m.stack| ==>
      var rest, args := m.stack[..|m.stack| - n], m.stack[|m.stack| - n..];
      var name := ConstantName(m, nameIndex);
      (name.Err? ==> r.Stop? && r.out.Failed?)
      && (name == Ok("writeln!") ==>
            (r.Continue? <==> forall k :: 0 <= k < |args| ==> LaceMacros.Printable(args[k]))
            && (r.Continue? ==> r.m == m.(stack := rest, printed := m.printed + [args])))
      && (name == Ok("exit!") ==> r == Stop(Exited, m.(stack := rest)))
      && (name.Ok? && name.value != "writeln!" && name.value != "exit!" ==> r.Stop? && r.out.Failed?)
  {
    if n > |m.stack| then Stop(Failed(UNWRAP_NONE), m)
    else
      var rest, args := m.stack[..|m.stack| - n], m.stack[|m.stack| - n..];
      var m' := m.(stack := rest);
      match ConstantName(m, nameIndex)
      case Err(e) => Stop(Failed(e), m')
      case Ok(name) =>
        if name == "writeln!" then
          if forall k :: 0 <= k < |args| ==> LaceMacros.Printable(args[k]) then
            Continue(ip + 1, m'.(printed := m.printed + [args]))
          else Stop(Failed(PANIC), m')
        else if name == "exit!" then Stop(Exited, m')
        else Stop(Failed("unknown primitive function '" + name + "'."), m')
  }

  /** One instruction other than `CallFunction`. */
  function Exec1(instr: I.Instruction, ip: nat, m: Machine): (r: StepResult)
    requires !instr.CallFunction?
    ensures r.m.constants == m.constants && m.printed <= r.m.printed
    ensures r.Continue? ==> SameOuterFrames(m.frames, r.m.frames)
    ensures r.Stop? && r.out.Returned? ==> r.m.frames == PopFrame(m.frames)
    ensures r.Continue? && !(instr.Jump? || instr.JumpT? || instr.JumpF?) ==> r.ip == ip + 1
    ensures (instr.BinaryOr? || instr.BinaryXor? || instr.BinaryAnd?) ==> r.Stop? && r.out.Failed?
  {
    if instr.LoadConstant? || instr.LoadVariable? || instr.AssignVariable? then
      ExecVariable(instr, ip, m)
    else if instr.Jump? || instr.JumpT? || instr.JumpF? || instr.Return? || instr.ReturnNone? then
      ExecControl(instr, ip, m)
    else if instr.CallPrimitiveFunction? then
      ExecPrimitive(instr.argc, instr.nameIndex, ip, m)
    else
      ExecOperator(instr, ip, m)
  }

  /** Binds the parameters, last one first, each to the next popped value; a
      missing value is an `unwrap` panic. */
  function BindParams(frame: Frame, params: seq<string>, stack: seq<Value>)
    : (r: Result<(Frame, seq<Value>)>)
    decreases |params|
    ensures r.Ok? <==> |params| <= |stack|
    ensures r.Ok? ==> r.value.1 == stack[..|stack| - |params|]
  {
    if |params| == 0 then Ok((frame, stack))
    else if |stack| == 0 then Err(UNWRAP_NONE)
    else
      var last := |params| - 1;
      BindParams(frame[params[last] := stack[|stack| - 1]], params[..last], stack[..|stack| - 1])
  }

  /** No earlier parameter has the same name as parameter `k`. */
  predicate FirstOccurrence(params: seq<string>, k: nat)
    requires k < |params|
  {
    forall j :: 0 <= j < k ==> params[j] != params[k]
  }

  /** Parameter `k` receives the value `|params| - k` from the top, so the values
      bind in the order they were pushed; of two parameters with the same name the
      first one wins, and names that are not parameters keep their binding. */
  lemma {:induction false} BindParamsValues(frame: Frame, params: seq<string>, stack: seq<Value>)
    requires |params| <= |stack|
    decreases |params|
    ensures var f := BindParams(frame, params, stack).value.0;
      (forall k :: 0 <= k < |params| ==> params[k] in f)
      && (forall x :: x in frame && x !in params ==> x in f && f[x] == frame[x])
      && (forall k :: 0 <= k < |params| && FirstOccurrence(params, k) ==>
            f[params[k]] == stack[|stack| - |params| + k])
  {
    if |params| > 0 {
      var last := |params| - 1;
      var init := params[..last];
      var frame' := frame[params[last] := stack[|stack| - 1]];
      var rest := stack[..|stack| - 1];
      BindParamsValues(frame', init, rest);
      var f := BindParams(frame, params, stack).value.0;
      assert f == BindParams(frame', init, rest).value.0;
      forall k | 0 <= k < |params| && FirstOccurrence(params, k)
        ensures f[params[k]] == stack[|stack| - |params| + k]
      {
        if k == last {
          assert params[last] !in init by {
            forall j | 0 <= j < last ensures init[j] != params[last] {
              assert init[j] == params[j];
            }
          }
        } else {
          assert init[k] == params[k];
          assert FirstOccurrence(init, k) by {
            forall j | 0 <= j < k ensures init[j] != init[k] {
              assert init[j] == params[j];
            }
          }
          assert rest[|rest| - |init| + k] == stack[|stack| - |params| + k];
        }
      }
      forall x | x in frame && x !in params ensures x in f && f[x] == frame[x] {
        assert x !in init by {
          forall j | 0 <= j < last ensures init[j] != x {
            assert init[j] == params[j];
          }
        }
      }
      forall k | 0 <= k < |params| ensures params[k] in f {
        if k < last {
          assert params[k] == init[k];
        }
      }
    }
  }

  /** The compiler pushes the arguments of a call in source order; with distinct
      parameter names, parameter `k` is bound to argument `k` and the arguments are
      consumed. */
  lemma ArgumentsBindInOrder(params: seq<string>, base: seq<Value>, args: seq<Value>)
    requires |args| == |params|
    requires forall i, j :: 0 <= i < j < |params| ==> params[i] != params[j]
    ensures var r := BindParams(map[], params, base + args);
      r.Ok? && r.value.1 == base
      && forall k :: 0 <= k < |params| ==> params[k] in r.value.0 && r.value.0[params[k]] == args[k]
  {
    var stack := base + args;
    BindParamsValues(map[], params, stack);
    assert stack[..|stack| - |params|] == base;
    forall k | 0 <= k < |params|
      ensures stack[|stack| - |params| + k] == args[k]
    {
    }
  }

  /** `run` from `ip`. Running past the end pops the frame and yields `None`. A run
      that returns has popped exactly its own frame: the frames below it are as they
      were. Printing only ever adds lines, and the constants never change. */
  function Run(code: seq<I.Instruction>, ip: nat, m: Machine, fuel: nat): (r: (Outcome<Value>, Machine))
    decreases fuel, 0
    ensures r.0.Returned? ==> r.1.frames == PopFrame(m.frames)
    ensures r.1.constants == m.constants && m.printed <= r.1.printed
    ensures ip >= |code| ==> r == (Returned(Value.None), m.(frames := PopFrame(m.frames)))
  {
    if ip >= |code| then (Returned(Value.None), m.(frames := PopFrame(m.frames)))
    else if fuel == 0 then (NoFuel, m)
    else
      match Step(code, ip, m, fuel - 1)
      case Continue(ip', m') => Run(code, ip', m', fuel - 1)
      case Stop(out, m') => (out, m')
  }

  /** One instruction. `CallFunction` pops the callee and calls it; a returned value
      is pushed, any other ending stops this run with the same outcome. */
  function Step(code: seq<I.Instruction>, ip: nat, m: Machine, fuel: nat): (r: StepResult)
    requires ip < |code|
    decreases fuel, 2
    ensures r.m.constants == m.constants && m.printed <= r.m.printed
    ensures r.Continue? ==> SameOuterFrames(m.frames, r.m.frames)
    ensures r.Stop? && r.out.Returned? ==> r.m.frames == PopFrame(m.frames)
    ensures !code[ip].CallFunction? ==> r == Exec1(code[ip], ip, m)
    ensures code[ip].CallFunction? && |m.stack| == 0 ==> r.Stop? && r.out.Failed?
    ensures code[ip].CallFunction? && |m.stack| > 0 ==>
      var c := CallValue(Top(m), Popped(m), fuel);
      (c.0.Returned? ==> r == Continue(ip + 1, Pushed(c.1, c.0.value)))
      && (!c.0.Returned? ==> r == Stop(c.0, c.1))
  {
    if !code[ip].CallFunction? then Exec1(code[ip], ip, m)
    else if |m.stack| == 0 then Stop(Failed(UNWRAP_NONE), m)
    else
      var (out, m') := CallValue(Top(m), Popped(m), fuel);
      if out.Returned? then Continue(ip + 1, Pushed(m', out.value)) else Stop(out, m')
  }

  /** Calls a popped callee: only a `Function` can be called. Its parameters are
      bound in a new frame, its body runs, and a body that returns has popped that
      frame again, so the caller's frames are unchanged. The argument count of the
      instruction is not consulted. */
  function CallValue(f: Value, m: Machine, fuel: nat): (r: (Outcome<Value>, Machine))
    decreases fuel, 1
    ensures r.1.constants == m.constants && m.printed <= r.1.printed
    ensures !f.Function? ==> r == (Failed(NOT_CALLABLE), m)
    ensures f.Function? && |f.parameters| > |m.stack| ==> r.0.Failed?
    ensures r.0.Returned? ==> r.1.frames == m.frames
  {
    match f
    case Function(code, params, _) =>
      var bound := BindParams(map[], params, m.stack);
      if bound.Err? then (Failed(bound.msg), m)
      else
        var (frame, stack) := bound.value;
        assert PopFrame(m.frames + [frame]) == m.frames;
        Run(code, 0, m.(stack := stack, frames := m.frames + [frame]), fuel)
    case _ => (Failed(NOT_CALLABLE), m)
  }

  /** The whole program: a new machine on the constant pool runs the code. */
  function Execute(constants: seq<Value>, code: seq<I.Instruction>, fuel: nat): (r: (Outcome<Value>, Machine))
    ensures r.0.Returned? ==> r.1.frames == []
    ensures r.1.constants == constants
  {
    Run(code, 0, New(constants), fuel)
  }

  /** An assignment followed by a load of the same name leaves the stack as it was
      and the value bound in the innermost frame. */
  lemma AssignThenLoad(code: seq<I.Instruction>, ip: nat, m: Machine, fuel: nat, k: nat)
    requires ip + 1 < |code| && code[ip] == I.AssignVariable(k) && code[ip + 1] == I.LoadVariable(k)
    requires k < |m.constants| && m.constants[k].Identifier?
    requires |m.stack| > 0 && |m.frames| > 0
    ensures var name := m.constants[k].iden;
      var s := Step(code, ip + 1, Step(code, ip, m, fuel).m, fuel);
      s.Continue? && s.ip == ip + 2 && s.m.stack == m.stack
      && s.m.frames == m.frames[|m.frames| - 1 := m.frames[|m.frames| - 1][name := Top(m)]]
  {
    var m1 := Step(code, ip, m, fuel).m;
    assert m1 == SetLocal(Popped(m), m.constants[k].iden, Top(m));
    assert Pushed(m1, Top(m)).stack == m.stack;
  }

  /** A function whose body loads a name it does not bind sees the global of that
      name: the callee's frame is searched first and the globals next. */
  lemma CalleeSeesGlobals(m: Machine, k: nat, coroutine: bool, fuel: nat)
    requires |m.frames| > 0
    requires k < |m.constants| && m.constants[k].Identifier?
    requires m.constants[k].iden in m.frames[0]
    ensures CallValue(Function([I.LoadVariable(k), I.Return], [], coroutine), m, fuel + 2)
            == (Returned(m.frames[0][m.constants[k].iden]), m)
  {
    var code := [I.LoadVariable(k), I.Return];
    var m1 := m.(frames := m.frames + [map[]]);
    var v := m.frames[0][m.constants[k].iden];
    assert BindParams(map[], [], m.stack) == Ok((map[], m.stack));
    assert Step(code, 0, m1, fuel + 1) == Continue(1, Pushed(m1, v));
    assert Step(code, 1, Pushed(m1, v), fuel) == Stop(Returned(v), m);
    assert Run(code, 1, Pushed(m1, v), fuel + 1) == (Returned(v), m);
    assert Run(code, 0, m1, fuel + 2) == (Returned(v), m);
  }

  /** A jump runs on at its target with the machine unchanged; a conditional jump
      consumes its condition. */
  lemma RunJumps(code: seq<I.Instruction>, ip: nat, m: Machine, fuel: nat)
    requires ip < |code|
    ensures code[ip].Jump? ==> Run(code, ip, m, fuel + 1) == Run(code, code[ip].target, m, fuel)
    ensures code[ip].JumpF? && |m.stack| > 0 && IsTruthy(Top(m)) == Ok(false) ==>
      Run(code, ip, m, fuel + 1) == Run(code, code[ip].target, Popped(m), fuel)
    ensures code[ip].JumpF? && |m.stack| > 0 && IsTruthy(Top(m)) == Ok(true) ==>
      Run(code, ip, m, fuel + 1) == Run(code, ip + 1, Popped(m), fuel)
  {
  }
}
