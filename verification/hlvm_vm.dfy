/** The HLVM dispatch loop and function calls.

The machine is an operand stack plus a call stack of frames; frame 0 holds the
globals and the last frame the current locals. `execute` and `call` recurse into
each other without bound in the source; the model gives them a fuel budget, and a
run that exhausts it ends in `NoFuel`. A panic (an `unwrap` on an empty stack or a
missing name, a `todo!`) and an `Err` return both end the run in `Failed`.
 */
module HlvmVm {
  import opened Wrappers
  import opened HlvmLir
  import HlvmDev
  import HlvmModule

  /** The operand stack, the call frames, and the values `print` has written, in
      order (their `Display` text is not modelled). */
  datatype Machine = Machine(stack: seq<HlvmValue>, frames: seq<Frame>, printed: seq<HlvmValue>)

  /** What one instruction does: carry on at `ip`, or end the run. */
  datatype StepResult = Continue(ip: nat, m: Machine) | Stop(out: Outcome<HlvmValue>, m: Machine)

  /** A fresh machine: an empty operand stack, a single, empty, global frame, and
      nothing printed. (The locals capacity hint of the source is not modelled.) */
  function New(): (m: Machine)
    ensures |m.stack| == 0 && |m.printed| == 0
    ensures |m.frames| == 1 && m.frames[0] == map[]
  {
    Machine([], [map[]], [])
  }

  /** The global scope (first frame) and the local scope (last frame); an empty call
      stack makes the source's `expect` panic. */
  function GlobalScope(m: Machine): (r: Result<Frame>)
    ensures r.Ok? <==> |m.frames| > 0
    ensures r.Ok? ==> r.value == m.frames[0]
  {
    if |m.frames| == 0 then Err("Unable to get global scope; Call stack is empty.")
    else Ok(m.frames[0])
  }

  function LocalScope(m: Machine): (r: Result<Frame>)
    ensures r.Ok? <==> |m.frames| > 0
    ensures r.Ok? ==> r.value == m.frames[|m.frames| - 1]
  {
    if |m.frames| == 0 then Err("Unable to get local scope; Call stack is empty.")
    else Ok(m.frames[|m.frames| - 1])
  }

  /** Binds `name` in the global frame or in the local frame. */
  function SetGlobalVar(m: Machine, name: string, v: HlvmValue): Machine
    requires |m.frames| > 0
  {
    m.(frames := m.frames[0 := m.frames[0][name := v]])
  }

  function SetLocalVar(m: Machine, name: string, v: HlvmValue): Machine
    requires |m.frames| > 0
  {
    var last := |m.frames| - 1;
    m.(frames := m.frames[last := m.frames[last][name := v]])
  }

  function Top(m: Machine): HlvmValue
    requires |m.stack| > 0
  {
    m.stack[|m.stack| - 1]
  }

  function Popped(m: Machine): Machine
    requires |m.stack| > 0
  {
    m.(stack := m.stack[..|m.stack| - 1])
  }

  function Pushed(m: Machine, v: HlvmValue): Machine {
    m.(stack := m.stack + [v])
  }

  /** The twelve instructions that pop two operands and push one result. */
  predicate IsBinary(i: HlvmInstruction) {
    i.Add? || i.Subtract? || i.Multiply? || i.Divide? || i.Equal? || i.NotEqual?
    || i.GreaterThan? || i.LessThan? || i.GreaterThanOrEqual? || i.LessThanOrEqual?
    || i.And? || i.Or?
  }

  function BinaryOp(i: HlvmInstruction, left: HlvmValue, right: HlvmValue): Result<HlvmValue>
    requires IsBinary(i)
  {
    match i
    case Add => HlvmDev.AddAsWritten(left, right)
    case Subtract => HlvmDev.Sub(left, right)
    case Multiply => HlvmDev.Mul(left, right)
    case Divide => HlvmDev.Div(left, right)
    case Equal => Ok(HlvmDev.Eq(left, right))
    case NotEqual => Ok(HlvmDev.Ne(left, right))
    case GreaterThan => HlvmDev.Gt(left, right)
    case LessThan => HlvmDev.Lt(left, right)
    case GreaterThanOrEqual => HlvmDev.Ge(left, right)
    case LessThanOrEqual => HlvmDev.Le(left, right)
    case And => Ok(HlvmDev.And(left, right))
    case Or => Ok(HlvmDev.Or(left, right))
  }

  /** The arguments of a primitive call: the top `n` values, the top one first. */
  function PopArguments(stack: seq<HlvmValue>, n: nat): (args: seq<HlvmValue>)
    requires n <= |stack|
    ensures |args| == n
    ensures forall k :: 0 <= k < n ==> args[k] == stack[|stack| - 1 - k]
    decreases n
  {
    if n == 0 then [] else [stack[|stack| - 1]] + PopArguments(stack[..|stack| - 1], n - 1)
  }

  const UNWRAP_NONE := "called `Option::unwrap()` on a `None` value"

  /** Variable access: `SetGlobal`/`SetLocal` pop into frame 0 / the last frame,
      `GetGlobal`/`GetLocal` push a copy of a bound value, `Push` pushes a constant. */
  function ExecVariable(instr: HlvmInstruction, ip: nat, m: Machine): (r: StepResult)
    requires instr.SetGlobal? || instr.SetLocal? || instr.GetGlobal? || instr.GetLocal? || instr.Push?
    ensures |r.m.frames| == |m.frames|
    ensures r.Continue? ==> r.ip == ip + 1
    ensures instr.SetGlobal? && |m.stack| > 0 && |m.frames| > 0 ==>
      r == Continue(ip + 1, SetGlobalVar(Popped(m), instr.name, Top(m)))
    ensures instr.SetLocal? && |m.stack| > 0 && |m.frames| > 0 ==>
      r == Continue(ip + 1, SetLocalVar(Popped(m), instr.name, Top(m)))
    ensures (instr.SetGlobal? || instr.SetLocal?) && |m.stack| == 0 ==> r.Stop? && r.out.Failed?
    ensures instr.GetGlobal? && |m.frames| > 0 ==>
      (r.Continue? <==> instr.name in m.frames[0])
      && (r.Continue? ==> r.m == Pushed(m, m.frames[0][instr.name]))
    ensures instr.GetLocal? && |m.frames| > 0 ==>
      (r.Continue? <==> instr.name in m.frames[|m.frames| - 1])
      && (r.Continue? ==> r.m == Pushed(m, m.frames[|m.frames| - 1][instr.name]))
    ensures instr.Push? ==> r == Continue(ip + 1, Pushed(m, instr.value))
  {
    match instr
    case SetGlobal(name) =>
      if |m.stack| == 0 then Stop(Failed(UNWRAP_NONE), m)
      else if |m.frames| == 0 then Stop(Failed("Unable to get global scope; Call stack is empty."), m)
      else Continue(ip + 1, SetGlobalVar(Popped(m), name, Top(m)))
    case SetLocal(name) =>
      if |m.stack| == 0 then Stop(Failed(UNWRAP_NONE), m)
      else if |m.frames| == 0 then Stop(Failed("Unable to get local scope; Call stack is empty."), m)
      else Continue(ip + 1, SetLocalVar(Popped(m), name, Top(m)))
    case GetGlobal(name) =>
      if |m.frames| == 0 then Stop(Failed("Unable to get global scope; Call stack is empty."), m)
      else if name !in m.frames[0] then Stop(Failed(UNWRAP_NONE), m)
      else Continue(ip + 1, Pushed(m, m.frames[0][name]))
    case GetLocal(name) =>
      if |m.frames| == 0 then Stop(Failed("Unable to get local scope; Call stack is empty."), m)
      else if name !in m.frames[|m.frames| - 1] then Stop(Failed(UNWRAP_NONE), m)
      else Continue(ip + 1, Pushed(m, m.frames[|m.frames| - 1][name]))
    case Push(v) => Continue(ip + 1, Pushed(m, v))
  }

  /** Control flow: `Jump` moves `ip` without the usual increment, `JumpIf` pops and
      jumps exactly when the value is truthy, `ReturnValue` ends the run with the
      popped top and `Return` with `Number(0.0)`. */
  function ExecControl(instr: HlvmInstruction, ip: nat, m: Machine): (r: StepResult)
    requires instr.Jump? || instr.JumpIf? || instr.Return? || instr.ReturnValue?
    ensures |r.m.frames| == |m.frames|
    ensures instr.Jump? ==> r == Continue(instr.target, m)
    ensures instr.JumpIf? && |m.stack| > 0 ==>
      r == Continue(if IsTruthy(Top(m)) then instr.target else ip + 1, Popped(m))
    ensures instr.ReturnValue? && |m.stack| > 0 ==> r == Stop(Returned(Top(m)), Popped(m))
    ensures instr.Return? ==> r == Stop(Returned(Number(0.0)), m)
    ensures (instr.JumpIf? || instr.ReturnValue?) && |m.stack| == 0 ==> r.Stop? && r.out.Failed?
  {
    match instr
    case Jump(addr) => Continue(addr, m)
    case JumpIf(addr) =>
      if |m.stack| == 0 then Stop(Failed(UNWRAP_NONE), m)
      else if IsTruthy(Top(m)) then Continue(addr, Popped(m))
      else Continue(ip + 1, Popped(m))
    case ReturnValue =>
      if |m.stack| == 0 then Stop(Failed(UNWRAP_NONE), m)
      else Stop(Returned(Top(m)), Popped(m))
    case Return => Stop(Returned(Number(0.0)), m)
  }

  /** The binary operators pop `right`, then `left`, and push `left op right`; an
      operator error stops the run. `Not` replaces the top with its negation. */
  function ExecOperator(instr: HlvmInstruction, ip: nat, m: Machine): (r: StepResult)
    requires IsBinary(instr) || instr.Not?
    ensures |r.m.frames| == |m.frames|
    ensures r.Continue? ==> r.ip == ip + 1
    ensures IsBinary(instr) && |m.stack| >= 2 ==>
      var right, left := m.stack[|m.stack| - 1], m.stack[|m.stack| - 2];
      var v := BinaryOp(instr, left, right);
      (r.Continue? <==> v.Ok?)
      && (v.Ok? ==> r.m == m.(stack := m.stack[..|m.stack| - 2] + [v.value]))
      && (v.Err? ==> r.out == Failed(v.msg))
    ensures instr.Not? && |m.stack| > 0 ==>
      r == Continue(ip + 1, Pushed(Popped(m), HlvmDev.Not(Top(m))))
    ensures r.Continue? ==> |r.m.stack| + (if instr.Not? then 0 else 1) == |m.stack|
  {
    if instr.Not? then
      if |m.stack| == 0 then Stop(Failed(UNWRAP_NONE), m)
      else Continue(ip + 1, Pushed(Popped(m), HlvmDev.Not(Top(m))))
    else if |m.stack| < 2 then Stop(Failed(UNWRAP_NONE), m)
    else
      var right, left := m.stack[|m.stack| - 1], m.stack[|m.stack| - 2];
      var m' := m.(stack := m.stack[..|m.stack| - 2]);
      match BinaryOp(instr, left, right)
      case Ok(v) => Continue(ip + 1, Pushed(m', v))
      case Err(e) => Stop(Failed(e), m')
  }

  /** `CallPrimitive(index, n)` pops `n` arguments (top first, not reordered);
      index 0 prints the first of them, the former top of the stack, and pushes its
      result; index 1 exits; any other index fails. */
  function ExecPrimitive(index: nat, n: nat, ip: nat, m: Machine): (r: StepResult)
    ensures |r.m.frames| == |m.frames|
    ensures n > |m.stack| ==> r.Stop? && r.out.Failed?
    ensures r.Stop? ==> r.m.printed == m.printed
    ensures n <= |m.stack| ==>
      var rest := m.stack[..|m.stack| - n];
      (index == HlvmModule.PRINT_INDEX && n >= 1 ==>
        r == Continue(ip + 1, m.(stack := rest + [Number(0.0)], printed := m.printed + [Top(m)])))
      && (index == HlvmModule.PRINT_INDEX && n == 0 ==> r.Stop? && r.out.Failed?)
      && (index == HlvmModule.EXIT_INDEX ==> r.Stop? && r.out == Exited)
      && (index > 1 ==> r.Stop? && r.out.Failed?)
  {
    if |m.stack| < n then Stop(Failed(UNWRAP_NONE), m)
    else
      var args := PopArguments(m.stack, n);
      var m' := m.(stack := m.stack[..|m.stack| - n]);
      if index == HlvmModule.PRINT_INDEX then
        (match HlvmDev.Print(args)
         case Ok(v) => Continue(ip + 1, Pushed(m'.(printed := m.printed + [args[0]]), v))
         case Err(e) => Stop(Failed(e), m'))
      else if index == HlvmModule.EXIT_INDEX then Stop(Exited, m')
      else Stop(Failed("Invalid primitive function"), m')
  }

  /** Struct instructions: `Instantiate` and `GetAttribute` replace the top with the
      new instance / the attribute; `SetAttribute` pops the value and updates the
      object below it in place. Their errors stop the run. */
  function ExecObject(instr: HlvmInstruction, ip: nat, m: Machine): (r: StepResult)
    requires instr.Instantiate? || instr.GetAttribute? || instr.SetAttribute?
    ensures |r.m.frames| == |m.frames|
    ensures r.Continue? ==> r.ip == ip + 1
    ensures instr.GetAttribute? && |m.stack| > 0 ==>
      var g := HlvmDev.GetAttr(Top(m), instr.attr);
      (r.Continue? <==> g.Ok?) && (g.Ok? ==> r.m == Pushed(Popped(m), g.value))
    ensures instr.SetAttribute? && |m.stack| >= 2 ==>
      var s := HlvmDev.SetAttr(m.stack[|m.stack| - 2], instr.attr, Top(m));
      (r.Continue? <==> s.Ok?)
      && (s.Ok? ==> r.m.stack == m.stack[..|m.stack| - 2] + [s.value])
    ensures instr.Instantiate? && |m.stack| > 0 ==>
      (r.Continue? <==> Top(m).StructBlueprint?)
  {
    match instr
    case Instantiate =>
      if |m.stack| == 0 then Stop(Failed(UNWRAP_NONE), m)
      else
        (match HlvmDev.Initialize(Top(m))
         case Ok(obj) => Continue(ip + 1, Pushed(Popped(m), obj))
         case Err(e) => Stop(Failed(e), Popped(m)))
    case GetAttribute(attr) =>
      if |m.stack| == 0 then Stop(Failed(UNWRAP_NONE), m)
      else
        (match HlvmDev.GetAttr(Top(m), attr)
         case Ok(v) => Continue(ip + 1, Pushed(Popped(m), v))
         case Err(e) => Stop(Failed(e), Popped(m)))
    case SetAttribute(attr) =>
      if |m.stack| < 2 then Stop(Failed(UNWRAP_NONE), m)
      else
        var rest := Popped(m);
        match HlvmDev.SetAttr(Top(rest), attr, Top(m))
        case Ok(obj) => Continue(ip + 1, Pushed(Popped(rest), obj))
        case Err(e) => Stop(Failed(e), rest)
  }

  /** One instruction other than `Call`. Instructions the dispatch loop leaves
      unimplemented (`Negate`, `Typeof`, `BinaryAnd`, `BinaryOr`, `Get`) fail. */
  function Exec1(instr: HlvmInstruction, ip: nat, m: Machine): (r: StepResult)
    requires !instr.Call?
    ensures |r.m.frames| == |m.frames|
    ensures m.printed <= r.m.printed
    ensures !instr.CallPrimitive? ==> r.m.printed == m.printed
    ensures r.Continue? && !instr.Jump? && !instr.JumpIf? ==> r.ip == ip + 1
    ensures (instr.Negate? || instr.Typeof? || instr.BinaryAnd? || instr.BinaryOr? || instr.Get?)
      ==> r.Stop? && r.out.Failed?
  {
    if instr.SetGlobal? || instr.SetLocal? || instr.GetGlobal? || instr.GetLocal? || instr.Push? then
      ExecVariable(instr, ip, m)
    else if instr.Jump? || instr.JumpIf? || instr.Return? || instr.ReturnValue? then
      ExecControl(instr, ip, m)
    else if IsBinary(instr) || instr.Not? then
      ExecOperator(instr, ip, m)
    else if instr.CallPrimitive? then
      ExecPrimitive(instr.index, instr.count, ip, m)
    else if instr.Instantiate? || instr.GetAttribute? || instr.SetAttribute? then
      ExecObject(instr, ip, m)
    else
      Stop(Failed("not yet implemented"), m)
  }

  /** Binds each parameter, in declaration order, to the next popped value; a
      missing value is an `unwrap` panic. */
  function BindArgs(frame: Frame, params: seq<string>, stack: seq<HlvmValue>)
    : (r: Result<(Frame, seq<HlvmValue>)>)
    decreases |params|
    ensures r.Ok? <==> |params| <= |stack|
    ensures r.Ok? ==> r.value.1 == stack[..|stack| - |params|]
  {
    if |params| == 0 then Ok((frame, stack))
    else if |stack| == 0 then Err(UNWRAP_NONE)
    else BindArgs(frame[params[0] := stack[|stack| - 1]], params[1..], stack[..|stack| - 1])
  }

  /** Parameter `k` receives the `k`-th popped value (counting from the top), unless
      a later parameter has the same name, and names that are not parameters keep
      their binding. */
  lemma {:induction false} BindArgsValues(frame: Frame, params: seq<string>, stack: seq<HlvmValue>)
    requires |params| <= |stack|
    decreases |params|
    ensures var f := BindArgs(frame, params, stack).value.0;
      (forall k :: 0 <= k < |params| ==> params[k] in f)
      && (forall x :: x in frame && x !in params ==> x in f && f[x] == frame[x])
      && (forall k :: 0 <= k < |params| && LastOccurrence(params, k) ==>
            f[params[k]] == stack[|stack| - 1 - k])
  {
    BindArgsKeys(frame, params, stack);
    BindArgsKeeps(frame, params, stack);
    forall k | 0 <= k < |params| && LastOccurrence(params, k)
      ensures BindArgs(frame, params, stack).value.0[params[k]] == stack[|stack| - 1 - k]
    {
      BindArgsValueAt(frame, params, stack, k);
    }
  }

  /** The value parameter `k` receives when no later parameter shares its name. */
  lemma {:induction false} BindArgsValueAt(frame: Frame, params: seq<string>, stack: seq<HlvmValue>, k: nat)
    requires |params| <= |stack| && k < |params| && LastOccurrence(params, k)
    decreases |params|
    ensures var f := BindArgs(frame, params, stack).value.0;
      params[k] in f && f[params[k]] == stack[|stack| - 1 - k]
  {
    var frame' := frame[params[0] := stack[|stack| - 1]];
    var rest := stack[..|stack| - 1];
    var tail := params[1..];
    assert BindArgs(frame, params, stack) == BindArgs(frame', tail, rest);
    LastOccurrenceTail(params, k);
    if k == 0 {
      BindArgsKeeps(frame', tail, rest);
    } else {
      BindArgsValueAt(frame', tail, rest, k - 1);
      assert rest[|rest| - 1 - (k - 1)] == stack[|stack| - 1 - k];
    }
  }

  /** Every parameter is bound. */
  lemma {:induction false} BindArgsKeys(frame: Frame, params: seq<string>, stack: seq<HlvmValue>)
    requires |params| <= |stack|
    decreases |params|
    ensures var f := BindArgs(frame, params, stack).value.0;
      forall k :: 0 <= k < |params| ==> params[k] in f
  {
    if |params| > 0 {
      var frame' := frame[params[0] := stack[|stack| - 1]];
      var tail := params[1..];
      BindArgsKeys(frame', tail, stack[..|stack| - 1]);
      BindArgsKeeps(frame', tail, stack[..|stack| - 1]);
      forall k | 0 <= k < |params| ensures params[k] in BindArgs(frame, params, stack).value.0 {
        if k > 0 {
          assert params[k] == tail[k - 1];
        } else if params[0] in tail {
          var j :| 0 <= j < |tail| && tail[j] == params[0];
        }
      }
    }
  }

  /** A name that is not a parameter keeps its binding. */
  lemma {:induction false} BindArgsKeeps(frame: Frame, params: seq<string>, stack: seq<HlvmValue>)
    requires |params| <= |stack|
    decreases |params|
    ensures var f := BindArgs(frame, params, stack).value.0;
      forall x :: x in frame && x !in params ==> x in f && f[x] == frame[x]
  {
    if |params| > 0 {
      var frame' := frame[params[0] := stack[|stack| - 1]];
      var tail := params[1..];
      BindArgsKeeps(frame', tail, stack[..|stack| - 1]);
      forall x | x in frame && x !in params ensures x !in tail && x in frame' && frame'[x] == frame[x] {
      }
    }
  }

  /** Dropping the first parameter: the first parameter, when not repeated, is not
      among the rest, and a later last occurrence stays one, one place earlier. */
  lemma LastOccurrenceTail(params: seq<string>, k: nat)
    requires k < |params| && LastOccurrence(params, k)
    ensures k == 0 ==> params[0] !in params[1..]
    ensures k > 0 ==> params[k] == params[1..][k - 1] && LastOccurrence(params[1..], k - 1)
  {
    var tail := params[1..];
    forall j | 0 <= j < |tail| && k <= j ensures tail[j] != params[k] {
      assert tail[j] == params[j + 1];
    }
  }

  /** No later parameter has the same name as parameter `k`. */
  predicate LastOccurrence(params: seq<string>, k: nat)
    requires k < |params|
  {
    forall j :: k < j < |params| ==> params[j] != params[k]
  }

  /** The code generator pushes call arguments in reverse source order; with distinct
      parameter names, binding then gives parameter `k` the source argument `k`. */
  lemma ReversedArgumentsBindInOrder(frame: Frame, params: seq<string>, base: seq<HlvmValue>,
                                     args: seq<HlvmValue>)
    requires |args| == |params|
    requires forall i, j :: 0 <= i < j < |params| ==> params[i] != params[j]
    ensures var r := BindArgs(frame, params, base + Reverse(args));
      r.Ok? && r.value.1 == base
      && forall k :: 0 <= k < |params| ==> params[k] in r.value.0 && r.value.0[params[k]] == args[k]
  {
    var stack := base + Reverse(args);
    var r := BindArgs(frame, params, stack);
    BindArgsValues(frame, params, stack);
    assert stack[..|stack| - |params|] == base;
    forall k | 0 <= k < |params|
      ensures params[k] in r.value.0 && r.value.0[params[k]] == args[k]
    {
      assert LastOccurrence(params, k);
      assert stack[|stack| - 1 - k] == Reverse(args)[|args| - 1 - k];
    }
  }

  function Reverse<T>(s: seq<T>): (r: seq<T>)
    ensures |r| == |s|
    ensures forall k :: 0 <= k < |s| ==> r[k] == s[|s| - 1 - k]
  {
    if |s| == 0 then [] else Reverse(s[1..]) + [s[0]]
  }

  /** `execute`: runs `code` from instruction 0. Running past the end yields
      `Number(0.0)`. The call-stack depth is the same when the run ends as when it
      started, whatever the outcome. */
  function Run(code: seq<HlvmInstruction>, ip: nat, m: Machine, fuel: nat)
    : (r: (Outcome<HlvmValue>, Machine))
    decreases fuel, 0
    ensures |r.1.frames| == |m.frames|
    ensures m.printed <= r.1.printed
    ensures ip >= |code| ==> r == (Returned(Number(0.0)), m)
  {
    if ip >= |code| then (Returned(Number(0.0)), m)
    else if fuel == 0 then (NoFuel, m)
    else
      match Step(code, ip, m, fuel - 1)
      case Continue(ip', m') => Run(code, ip', m', fuel - 1)
      case Stop(out, m') => (out, m')
  }

  function Execute(code: seq<HlvmInstruction>, m: Machine, fuel: nat): (r: (Outcome<HlvmValue>, Machine))
    ensures |r.1.frames| == |m.frames|
    ensures m.printed <= r.1.printed
  {
    Run(code, 0, m, fuel)
  }

  /** One instruction. `Call` pops the callee and calls it: a returned value is
      pushed, any other ending stops this run with the same outcome. */
  function Step(code: seq<HlvmInstruction>, ip: nat, m: Machine, fuel: nat): (r: StepResult)
    requires ip < |code|
    decreases fuel, 2
    ensures |r.m.frames| == |m.frames|
    ensures m.printed <= r.m.printed
    ensures !code[ip].Call? ==> r == Exec1(code[ip], ip, m)
    ensures code[ip].Call? && |m.stack| == 0 ==> r.Stop? && r.out.Failed?
    ensures code[ip].Call? && |m.stack| > 0 ==>
      var c := CallValue(Top(m), Popped(m), fuel);
      (c.0.Returned? ==> r == Continue(ip + 1, Pushed(c.1, c.0.value)))
      && (!c.0.Returned? ==> r == Stop(c.0, c.1))
  {
    if !code[ip].Call? then Exec1(code[ip], ip, m)
    else if |m.stack| == 0 then Stop(Failed(UNWRAP_NONE), m)
    else
      var (out, m') := CallValue(Top(m), Popped(m), fuel);
      if out.Returned? then Continue(ip + 1, Pushed(m', out.value)) else Stop(out, m')
  }

  /** `call`: only a `Function` can be called. It gets a fresh frame holding its
      parameters, its body runs, and the frame is dropped again, also when the body
      fails; the call-stack depth is therefore unchanged. Calling any other value
      fails and leaves the machine as it was. */
  function CallValue(f: HlvmValue, m: Machine, fuel: nat): (r: (Outcome<HlvmValue>, Machine))
    decreases fuel, 1
    ensures |r.1.frames| == |m.frames|
    ensures m.printed <= r.1.printed
    ensures !f.Function? ==> r.0.Failed? && r.1 == m
    ensures f.Function? && |f.params| > |m.stack| ==> r.0.Failed?
  {
    match f
    case Function(code, params, _) =>
      var bound := BindArgs(map[], params, m.stack);
      if bound.Err? then (Failed(bound.msg), m)
      else
        var (frame, stack) := bound.value;
        var (out, m') := Run(code, 0, Machine(stack, m.frames + [frame], m.printed), fuel);
        (out, m'.(frames := m'.frames[..|m'.frames| - 1]))
    case _ => (Failed("Cannot call value"), m)
  }

  /** `Not` followed by `JumpIf(t)` is how the lowering guards a block: a falsy
      condition jumps to `t`, a truthy one falls through to the block. */
  lemma NotJumpIfBranches(code: seq<HlvmInstruction>, ip: nat, m: Machine, fuel: nat, t: nat)
    requires ip + 1 < |code| && code[ip] == Not && code[ip + 1] == JumpIf(t)
    requires |m.stack| > 0
    ensures var s1 := Step(code, ip, m, fuel);
      s1 == Continue(ip + 1, Pushed(Popped(m), HlvmDev.Not(Top(m))))
      && Step(code, ip + 1, s1.m, fuel) ==
         Continue(if IsTruthy(Top(m)) then ip + 2 else t, Popped(m))
  {
    var s1 := Step(code, ip, m, fuel);
    assert Popped(s1.m) == Popped(m);
  }

  /** The `System` module's builtin indices select the matching primitives: calling
      `print`'s index with its arity pushes `Number(0.0)`, and `exit`'s index ends
      the run with `Exited`. */
  lemma SystemIndicesAgree(m: Machine, v: HlvmValue, fuel: nat)
    ensures var p := HlvmModule.System().fields["print"];
      var code := [CallPrimitive(p.index, p.arity)];
      Step(code, 0, m.(stack := m.stack + [v]), fuel)
        == Continue(1, m.(stack := m.stack + [Number(0.0)], printed := m.printed + [v]))
    ensures var e := HlvmModule.System().fields["exit"];
      var code := [CallPrimitive(e.index, e.arity)];
      Step(code, 0, m, fuel).Stop? && Step(code, 0, m, fuel).out == Exited
  {
    var mv := m.(stack := m.stack + [v]);
    assert mv.stack[..|mv.stack| - 1] == m.stack;
    assert m.stack[..|m.stack| - 0] == m.stack;
  }

  /** `Push` runs on with the value on top of the stack. */
  lemma RunPush(code: seq<HlvmInstruction>, ip: nat, m: Machine, fuel: nat)
    requires ip < |code| && code[ip].Push?
    ensures Run(code, ip, m, fuel + 1) == Run(code, ip + 1, Pushed(m, code[ip].value), fuel)
  {
  }

  /** `SetGlobal` runs on with the popped value bound in the global frame. */
  lemma RunSetGlobal(code: seq<HlvmInstruction>, ip: nat, m: Machine, fuel: nat)
    requires ip < |code| && code[ip].SetGlobal? && |m.stack| > 0 && |m.frames| > 0
    ensures Run(code, ip, m, fuel + 1) == Run(code, ip + 1, SetGlobalVar(Popped(m), code[ip].name, Top(m)), fuel)
  {
    assert Step(code, ip, m, fuel) == ExecVariable(code[ip], ip, m);
  }

  /** `GetGlobal` of a bound name runs on with its value pushed. */
  lemma RunGetGlobal(code: seq<HlvmInstruction>, ip: nat, m: Machine, fuel: nat)
    requires ip < |code| && code[ip].GetGlobal? && |m.frames| > 0 && code[ip].name in m.frames[0]
    ensures Run(code, ip, m, fuel + 1) == Run(code, ip + 1, Pushed(m, m.frames[0][code[ip].name]), fuel)
  {
    assert Step(code, ip, m, fuel) == ExecVariable(code[ip], ip, m);
  }

  /** `GetAttribute` of a field the top instance has runs on with the field's value
      in the instance's place. */
  lemma RunGetAttribute(code: seq<HlvmInstruction>, ip: nat, m: Machine, fuel: nat)
    requires ip < |code| && code[ip].GetAttribute? && |m.stack| > 0
    requires Top(m).StructInstance? && code[ip].attr in Top(m).fields
    ensures Run(code, ip, m, fuel + 1)
      == Run(code, ip + 1, Pushed(Popped(m), Top(m).fields[code[ip].attr]), fuel)
  {
    assert Step(code, ip, m, fuel) == ExecObject(code[ip], ip, m);
  }

  /** `Call` of a function without parameters or code runs on with `Number(0.0)` in
      the callee's place, the frames as they were. */
  lemma RunCallEmpty(code: seq<HlvmInstruction>, ip: nat, m: Machine, fuel: nat, p: Option<nat>)
    requires ip < |code| && code[ip].Call? && |m.stack| > 0 && Top(m) == Function([], [], p)
    ensures Run(code, ip, m, fuel + 1) == Run(code, ip + 1, Pushed(Popped(m), Number(0.0)), fuel)
  {
    var m' := Popped(m);
    assert CallValue(Top(m), m', fuel) == (Returned(Number(0.0)), m') by {
      assert (m'.frames + [map[]])[..|m'.frames|] == m'.frames;
    }
  }

  /** `Add` on two strings runs on with the left string and `_b` in their place: the
      right string never reaches the result. */
  lemma RunAddStrings(code: seq<HlvmInstruction>, ip: nat, m: Machine, fuel: nat, x: string, y: string)
    requires ip < |code| && code[ip] == Add && |m.stack| >= 2
    requires m.stack[|m.stack| - 2] == String(x) && m.stack[|m.stack| - 1] == String(y)
    ensures Run(code, ip, m, fuel + 1)
      == Run(code, ip + 1, m.(stack := m.stack[..|m.stack| - 2] + [String(x + "_b")]), fuel)
  {
    assert Step(code, ip, m, fuel) == ExecOperator(code[ip], ip, m);
  }

  /** `Jump` runs on at its target with the machine unchanged. */
  lemma RunJump(code: seq<HlvmInstruction>, ip: nat, m: Machine, fuel: nat)
    requires ip < |code| && code[ip].Jump?
    ensures Run(code, ip, m, fuel + 1) == Run(code, code[ip].target, m, fuel)
  {
  }

  /** A guard, `Not` then `JumpIf(t)`, consumes the condition and runs on at the
      guarded block when it is truthy and at `t` otherwise. */
  lemma RunGuard(code: seq<HlvmInstruction>, ip: nat, m: Machine, fuel: nat, t: nat)
    requires ip + 1 < |code| && code[ip] == Not && code[ip + 1] == JumpIf(t)
    requires |m.stack| > 0
    ensures Run(code, ip, m, fuel + 2)
            == Run(code, if IsTruthy(Top(m)) then ip + 2 else t, Popped(m), fuel)
  {
    NotJumpIfBranches(code, ip, m, fuel + 1, t);
    var s1 := Step(code, ip, m, fuel + 1);
    assert Run(code, ip, m, fuel + 2) == Run(code, ip + 1, s1.m, fuel + 1);
    NotJumpIfBranches(code, ip, m, fuel, t);
  }

  /** A guarded block whose condition is `false`, with the guard sent to `t`: sent to
      the block (4), the block's value is left on the stack; sent past it (5), the
      stack ends empty. */
  lemma GuardedBlockRuns(t: nat)
    requires t == 4 || t == 5
    ensures Execute(GuardedBlock(t), New(), 5)
      == (Returned(Number(0.0)), Machine(if t == 4 then [Number(1.0)] else [], [map[]], []))
  {
    GuardedBlockEntry(t);
    if t == 4 {
      GuardedBlockBody();
    }
  }

  function GuardedBlock(t: nat): seq<HlvmInstruction> {
    [Push(Bool(false)), Not, JumpIf(t), Jump(5), Push(Number(1.0))]
  }

  /** The `false` condition sends the run to the guard's target. */
  lemma GuardedBlockEntry(t: nat)
    requires t == 4 || t == 5
    ensures Execute(GuardedBlock(t), New(), 5) == Run(GuardedBlock(t), t, New(), 2)
  {
    var code := GuardedBlock(t);
    var m := New();
    var m1 := Pushed(m, Bool(false));
    assert Run(code, 0, m, 5) == Run(code, 1, m1, 4) by {
      RunPush(code, 0, m, 4);
    }
    assert !IsTruthy(Top(m1)) && Popped(m1) == m;
    RunGuard(code, 1, m1, 2, t);
  }

  /** Entered at 4, the block pushes its value and the run ends past the code. */
  lemma GuardedBlockBody()
    ensures Run(GuardedBlock(4), 4, New(), 2) == (Returned(Number(0.0)), Machine([Number(1.0)], [map[]], []))
  {
    var m := New();
    assert Pushed(m, Number(1.0)) == Machine([Number(1.0)], [map[]], []);
    RunPush(GuardedBlock(4), 4, m, 1);
  }

  /** The code of a loop nested in a taken `if`, its condition `false`, with the
      loop's guard sent to `t` and its back edge to `s`. */
  function NestedLoop(t: nat, s: nat): seq<HlvmInstruction> {
    [Push(Bool(true)), Not, JumpIf(8), Push(Bool(false)), Not, JumpIf(t), Jump(s), Jump(8)]
  }

  /** With the guard at 7 and the back edge at 3 the loop is left and the run
      returns; with the addresses 4 and 0 of the loop lowered on its own, control
      lands on a `Not` with an empty stack. */
  lemma NestedLoopRuns()
    ensures Execute(NestedLoop(4, 0), New(), 8).0.Failed?
    ensures Execute(NestedLoop(7, 3), New(), 8) == (Returned(Number(0.0)), New())
  {
    NestedLoopEntry(4, 0);
    assert Step(NestedLoop(4, 0), 4, New(), 1).Stop?;
    NestedLoopEntry(7, 3);
    RunJump(NestedLoop(7, 3), 7, New(), 1);
  }

  /** Both guards are decided by their constant conditions: control enters the `if`
      block, then leaves the loop at its guard's target. */
  lemma NestedLoopEntry(t: nat, s: nat)
    ensures Execute(NestedLoop(t, s), New(), 8) == Run(NestedLoop(t, s), t, New(), 2)
  {
    var code := NestedLoop(t, s);
    assert code[0] == Push(Bool(true)) && code[1] == Not && code[2] == JumpIf(8);
    assert code[3] == Push(Bool(false)) && code[4] == Not && code[5] == JumpIf(t);
    RunPushGuard(code, 0, New(), 5, true, 8);
    RunPushGuard(code, 3, New(), 2, false, t);
  }

  /** A constant condition and its guard: a `true` condition runs on into the guarded
      block, a `false` one at the guard's target, the machine as it was. */
  lemma RunPushGuard(code: seq<HlvmInstruction>, ip: nat, m: Machine, fuel: nat, b: bool, t: nat)
    requires ip + 2 < |code| && code[ip] == Push(Bool(b)) && code[ip + 1] == Not && code[ip + 2] == JumpIf(t)
    ensures Run(code, ip, m, fuel + 3) == Run(code, if b then ip + 3 else t, m, fuel)
  {
    var m1 := Pushed(m, Bool(b));
    assert Popped(m1) == m && IsTruthy(Top(m1)) == b;
    RunPush(code, ip, m, fuel + 2);
    RunGuard(code, ip + 1, m1, fuel, t);
  }
}
