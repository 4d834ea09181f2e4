/** The code generator of the first-generation compiler: syntax tree to HIR.

An expression becomes the HIR that leaves its value on the operand stack; a
statement becomes the HIR that runs it. A function body is compiled and lowered to
LIR on the spot by `from_hir` as written, jump patching included. A `todo!` or
`panic!` is `Err`. */
module CompilerCodegen {
  import opened Wrappers
  import opened CompilerAst
  import H = HlvmHir
  import L = HlvmLir
  import Vm = HlvmVm

  /** The HIR instruction of a binary operator token. `%` is unimplemented, and a
      token that is not an arithmetic or comparison operator panics. */
  function OpTokenToInstruction(op: Token): (r: Result<H.Hir>)
    ensures r.Ok? <==> op in [OpAdd, OpSub, OpMul, OpDiv, OpEq, OpBangEq, OpLess, OpLessEq, OpMore, OpMoreEq]
  {
    match op
    case OpAdd => Ok(H.Add)
    case OpSub => Ok(H.Subtract)
    case OpMul => Ok(H.Multiply)
    case OpDiv => Ok(H.Divide)
    case OpMod => Err("not yet implemented: Modulo not yet implemented")
    case OpEq => Ok(H.Equal)
    case OpBangEq => Ok(H.NotEqual)
    case OpLess => Ok(H.LessThan)
    case OpLessEq => Ok(H.LessThanOrEqual)
    case OpMore => Ok(H.GreaterThan)
    case OpMoreEq => Ok(H.GreaterThanOrEqual)
    case _ => Err("explicit panic")
  }

  /** The operator token an HIR operator instruction comes from. */
  function InstructionToOpToken(h: H.Hir): Option<Token> {
    match h
    case Add => Some(OpAdd)
    case Subtract => Some(OpSub)
    case Multiply => Some(OpMul)
    case Divide => Some(OpDiv)
    case Equal => Some(OpEq)
    case NotEqual => Some(OpBangEq)
    case LessThan => Some(OpLess)
    case LessThanOrEqual => Some(OpLessEq)
    case GreaterThan => Some(OpMore)
    case GreaterThanOrEqual => Some(OpMoreEq)
    case _ => Option.None
  }

  /** The operator mapping is undone by `InstructionToOpToken`, so distinct tokens
      give distinct instructions, and every instruction it yields is a binary one
      that the lowering maps one-to-one. */
  lemma OperatorRoundTrip(op: Token, other: Token)
    ensures OpTokenToInstruction(op).Ok? ==> InstructionToOpToken(OpTokenToInstruction(op).value) == Some(op)
    ensures OpTokenToInstruction(op).Ok? ==> H.IsSimple(OpTokenToInstruction(op).value)
    ensures OpTokenToInstruction(op).Ok? && OpTokenToInstruction(op) == OpTokenToInstruction(other) ==> op == other
  {
  }

  /** `compile_value`. Call arguments are compiled last one first. */
  function CompileValue(v: NodeValue): (r: Result<seq<H.Hir>>)
    decreases v, 1
  {
    match v
    case StringValue(s) => Ok([H.Push(L.String(s))])
    case NumberValue(n) => Ok([H.Push(L.Number(n))])
    case BoolValue(b) => Ok([H.Push(L.Bool(b))])
    case IdentifierValue(iden) => Ok([H.Get(iden)])
    case FunctionCall(f, args) =>
      var code :- CompileReversed(args, |args|);
      Ok(code + [H.Get(f), H.Call])
    case PrimitiveFunctionCall(index, args) =>
      var code :- CompileReversed(args, |args|);
      Ok(code + [H.CallPrimitive(index, |args|)])
    case Binary(left, right, op) =>
      var l :- CompileValue(left);
      var r :- CompileValue(right);
      var o :- OpTokenToInstruction(op);
      Ok(l + r + [o])
    case Unary(operand, modifier) =>
      var c :- CompileValue(operand);
      Ok(c + [match modifier
              case Negate => H.Negate
              case Not => H.Not
              case Typeof => H.Typeof])
    case _ => Err("explicit panic")
  }

  /** The code of `args[n - 1]`, `args[n - 2]`, ..., `args[0]`, in that order. */
  function CompileReversed(args: seq<NodeValue>, n: nat): (r: Result<seq<H.Hir>>)
    requires n <= |args|
    decreases args, n
  {
    if n == 0 then Ok([])
    else
      var last :- CompileValue(args[n - 1]);
      var rest :- CompileReversed(args, n - 1);
      Ok(last + rest)
  }

  /** The arms of an `else if` chain, each a compiled condition and body. */
  function CompileArms(elseifs: seq<CondBlock>, n: nat): (r: Result<seq<H.ElseIf>>)
    requires n <= |elseifs|
    decreases elseifs, n
    ensures r.Ok? ==> |r.value| == n
  {
    if n == 0 then Ok([])
    else
      var first :- CompileArms(elseifs, n - 1);
      var cond :- CompileValue(elseifs[n - 1].cond);
      var body :- Compile(elseifs[n - 1].block);
      Ok(first + [H.ElseIf(cond, body)])
  }

  /** The fields' values in order, for a struct initialisation. */
  function CompileFields(fields: seq<(string, NodeValue)>, n: nat): (r: Result<seq<H.Hir>>)
    requires n <= |fields|
    decreases fields, n
  {
    if n == 0 then Ok([])
    else
      var first :- CompileFields(fields, n - 1);
      var last :- CompileValue(fields[n - 1].1);
      Ok(first + last)
  }

  /** The parameter names of a declaration, in order. */
  function ParamNames(params: seq<Parameter>): (r: seq<string>)
    ensures |r| == |params| && forall k :: 0 <= k < |params| ==> r[k] == params[k].name
  {
    seq(|params|, k requires 0 <= k < |params| => params[k].name)
  }

  /** One statement of `compile`. */
  function CompileNode(n: NodeValue): (r: Result<seq<H.Hir>>)
    decreases n, 2
  {
    match n
    case VariableDecleration(name, value, _, _, _) =>
      var c :- CompileValue(value);
      Ok(c + [H.SetLocal(name)])
    case VariableAssignment(name, value) =>
      var c :- CompileValue(value);
      Ok(c + [H.SetLocal(name)])
    case If(ontrue, elseifs, onfalse) =>
      var body :- Compile(ontrue.block);
      var arms :- CompileArms(elseifs, |elseifs|);
      var cond :- CompileValue(ontrue.cond);
      var elseCode :- match onfalse
        case Else(b) => Compile(b)
        case NoElse => Ok([]);
      Ok(cond + [H.IfStatement(body, if |elseifs| == 0 then H.NoElseIfs else H.ElseIfs(arms), elseCode)])
    case WhileStatement(condition, body) =>
      var c :- CompileValue(condition);
      var b :- Compile(body);
      Ok([H.WhileStatement(c, b)])
    case Return(value) =>
      var c :- CompileValue(value);
      Ok(c + [H.ReturnValue])
    case FunctionDecleration(name, body, params, _, _) =>
      var b :- Compile(body);
      Ok([H.Push(L.Function(H.FromHir(b), ParamNames(params), Option.None)), H.SetLocal(name)])
    case StructInit(name, fields) =>
      var c :- CompileFields(fields, |fields|);
      Ok(c + [H.Get(name), H.Instantiate])
    case StringValue(_) => CompileValue(n)
    case NumberValue(_) => CompileValue(n)
    case BoolValue(_) => CompileValue(n)
    case IdentifierValue(_) => CompileValue(n)
    case FunctionCall(_, _) => CompileValue(n)
    case PrimitiveFunctionCall(_, _) => CompileValue(n)
    case Binary(_, _, _) => CompileValue(n)
    case Unary(_, _) => CompileValue(n)
    case _ => Err("not yet implemented")
  }

  /** `compile`: the statements' code, one after the other. */
  function Compile(ast: seq<NodeValue>): (r: Result<seq<H.Hir>>)
    decreases ast, 3
  {
    if |ast| == 0 then Ok([])
    else
      var first :- CompileNode(ast[0]);
      var rest :- Compile(ast[1..]);
      Ok(first + rest)
  }

  // ------------------------------------------------------------------ properties

  /** Compiling a program is compiling its parts: the code of `a + b` is the code of
      `a` followed by the code of `b`, and it fails exactly when one part fails. */
  lemma {:induction false} CompileConcatenates(a: seq<NodeValue>, b: seq<NodeValue>)
    ensures Compile(a + b).Ok? <==> Compile(a).Ok? && Compile(b).Ok?
    ensures Compile(a + b).Ok? ==> Compile(a + b).value == Compile(a).value + Compile(b).value
    decreases |a|
  {
    if |a| > 0 {
      assert (a + b)[0] == a[0];
      assert (a + b)[1..] == a[1..] + b;
      CompileConcatenates(a[1..], b);
      if CompileNode(a[0]).Ok? && Compile(a[1..]).Ok? && Compile(b).Ok? {
        assert CompileNode(a[0]).value + (Compile(a[1..]).value + Compile(b).value)
            == CompileNode(a[0]).value + Compile(a[1..]).value + Compile(b).value;
      }
    } else {
      assert a + b == b;
    }
  }

  /** Number literals as call arguments. */
  function Literals(xs: seq<real>): (r: seq<NodeValue>)
    ensures |r| == |xs| && forall k :: 0 <= k < |xs| ==> r[k] == NumberValue(xs[k])
  {
    seq(|xs|, k requires 0 <= k < |xs| => NumberValue(xs[k]))
  }

  /** The values the `Push` instructions of `code` put on the stack, bottom first. */
  function Pushed(code: seq<H.Hir>): seq<L.HlvmValue>
    decreases |code|
  {
    if |code| == 0 then []
    else (if code[0].Push? then [code[0].value] else []) + Pushed(code[1..])
  }

  /** The arguments of a call on number literals are pushed last one first. */
  lemma {:induction false} LiteralArgumentsPushed(xs: seq<real>, n: nat)
    requires n <= |xs|
    ensures CompileReversed(Literals(xs), n).Ok?
    ensures var code := CompileReversed(Literals(xs), n).value;
      |code| == n && (forall k :: 0 <= k < n ==> code[k].Push?)
      && Pushed(code) == Vm.Reverse(Numbers(xs[..n]))
    decreases n
  {
    if n > 0 {
      LiteralArgumentsPushed(xs, n - 1);
      var rest := CompileReversed(Literals(xs), n - 1).value;
      var code := [H.Push(L.Number(xs[n - 1]))] + rest;
      assert CompileValue(Literals(xs)[n - 1]) == Ok([H.Push(L.Number(xs[n - 1]))]);
      assert CompileReversed(Literals(xs), n) == Ok(code);
      assert code[1..] == rest;
      assert Numbers(xs[..n]) == Numbers(xs[..n - 1]) + [L.Number(xs[n - 1])];
      ReverseSnoc(Numbers(xs[..n - 1]), L.Number(xs[n - 1]));
    }
  }

  function Numbers(xs: seq<real>): (r: seq<L.HlvmValue>)
    ensures |r| == |xs| && forall k :: 0 <= k < |xs| ==> r[k] == L.Number(xs[k])
  {
    seq(|xs|, k requires 0 <= k < |xs| => L.Number(xs[k]))
  }

  lemma ReverseSnoc<T>(s: seq<T>, x: T)
    ensures Vm.Reverse(s + [x]) == [x] + Vm.Reverse(s)
  {
  }

  /** For number-literal arguments the call's pushes leave argument `k` exactly
      where the call's binding gives it to parameter `k`. */
  lemma LiteralCallBindsInOrder(f: string, xs: seq<real>, params: seq<string>, frame: L.Frame,
                                 base: seq<L.HlvmValue>)
    requires |xs| == |params|
    requires forall i, j :: 0 <= i < j < |params| ==> params[i] != params[j]
    ensures CompileValue(FunctionCall(f, Literals(xs))).Ok?
    ensures var code := CompileValue(FunctionCall(f, Literals(xs))).value;
      |code| == |xs| + 2 && code[|xs|..] == [H.Get(f), H.Call]
      && var b := Vm.BindArgs(frame, params, base + Pushed(code[..|xs|]));
      b.Ok? && b.value.1 == base
      && forall k :: 0 <= k < |params| ==> params[k] in b.value.0 && b.value.0[params[k]] == L.Number(xs[k])
  {
    LiteralArgumentsPushed(xs, |xs|);
    var args := CompileReversed(Literals(xs), |xs|).value;
    var code := args + [H.Get(f), H.Call];
    assert code[..|xs|] == args;
    assert xs[..|xs|] == xs;
    Vm.ReversedArgumentsBindInOrder(frame, params, base, Numbers(xs));
  }

  /** Every argument compiles. */
  predicate AllCompile(args: seq<NodeValue>) {
    forall k :: 0 <= k < |args| ==> CompileValue(args[k]).Ok?
  }

  /** The code of each argument, in source order. */
  function ArgumentBlocks(args: seq<NodeValue>): (r: seq<seq<H.Hir>>)
    requires AllCompile(args)
    ensures |r| == |args| && forall k :: 0 <= k < |args| ==> r[k] == CompileValue(args[k]).value
  {
    seq(|args|, k requires 0 <= k < |args| => CompileValue(args[k]).value)
  }

  /** The blocks one after the other. */
  function Flatten(blocks: seq<seq<H.Hir>>): seq<H.Hir>
    decreases |blocks|
  {
    if |blocks| == 0 then [] else blocks[0] + Flatten(blocks[1..])
  }

  /** The arguments' code is their blocks in reverse source order, and it exists
      exactly when every argument compiles. */
  lemma {:induction false} ReversedLayout(args: seq<NodeValue>, n: nat)
    requires n <= |args|
    ensures CompileReversed(args, n).Ok? <==> AllCompile(args[..n])
    ensures CompileReversed(args, n).Ok? ==>
              CompileReversed(args, n).value == Flatten(Vm.Reverse(ArgumentBlocks(args[..n])))
    decreases n
  {
    if n > 0 {
      ReversedLayout(args, n - 1);
      var pre := args[..n - 1];
      assert args[..n] == pre + [args[n - 1]];
      assert AllCompile(args[..n]) ==> AllCompile(pre) by {
        if AllCompile(args[..n]) {
          forall k | 0 <= k < |pre| ensures CompileValue(pre[k]).Ok? {
            assert pre[k] == args[..n][k];
          }
        }
      }
      assert AllCompile(pre) && CompileValue(args[n - 1]).Ok? ==> AllCompile(args[..n]) by {
        if AllCompile(pre) && CompileValue(args[n - 1]).Ok? {
          forall k | 0 <= k < n ensures CompileValue(args[..n][k]).Ok? {
            if k < n - 1 { assert args[..n][k] == pre[k]; }
          }
        }
      }
      assert AllCompile(args[..n]) ==> CompileValue(args[n - 1]).Ok? by {
        if AllCompile(args[..n]) { assert args[..n][n - 1] == args[n - 1]; }
      }
      if CompileReversed(args, n).Ok? {
        var x := CompileValue(args[n - 1]).value;
        var bs := ArgumentBlocks(pre);
        assert ArgumentBlocks(args[..n]) == bs + [x];
        ReverseSnoc(bs, x);
        assert ([x] + Vm.Reverse(bs))[1..] == Vm.Reverse(bs);
      }
    }
  }

  /** A call lowers to its arguments' code, last argument first, then `Get` of the
      callee and `Call`. Without user-function calls among the arguments each
      argument's block leaves exactly one value, so the arguments' code leaves one
      value per argument, the first argument's on top; whatever those values are,
      the call's binding gives parameter `k` the value of argument `k`. */
  lemma CallArgumentsBindInOrder(f: string, args: seq<NodeValue>, params: seq<string>,
                                 frame: L.Frame, base: seq<L.HlvmValue>, values: seq<L.HlvmValue>)
    requires |args| == |params| == |values|
    requires forall i, j :: 0 <= i < j < |params| ==> params[i] != params[j]
    requires forall k :: 0 <= k < |args| ==> CallFree(args[k])
    ensures CompileValue(FunctionCall(f, args)).Ok? <==> AllCompile(args)
    ensures AllCompile(args) ==>
      var code := CompileValue(FunctionCall(f, args)).value;
      var n := |code| - 2;
      0 <= n && code[n..] == [H.Get(f), H.Call]
      && code[..n] == Flatten(Vm.Reverse(ArgumentBlocks(args)))
      && (forall k :: 0 <= k < |args| ==> NetEffect(ArgumentBlocks(args)[k]) == 1)
      && NetEffect(code[..n]) == |args|
    ensures var b := Vm.BindArgs(frame, params, base + Vm.Reverse(values));
      b.Ok? && b.value.1 == base
      && forall k :: 0 <= k < |params| ==> params[k] in b.value.0 && b.value.0[params[k]] == values[k]
  {
    assert args[..|args|] == args;
    ReversedLayout(args, |args|);
    if AllCompile(args) {
      var a := CompileReversed(args, |args|).value;
      var code := a + [H.Get(f), H.Call];
      assert code[..|a|] == a && code[|a|..] == [H.Get(f), H.Call];
      ArgumentsPushOneEach(args, |args|);
      forall k | 0 <= k < |args| ensures NetEffect(ArgumentBlocks(args)[k]) == 1 {
        ExpressionPushesOne(args[k]);
      }
    }
    Vm.ReversedArgumentsBindInOrder(frame, params, base, values);
  }

  /** A binary node lowers to the left operand's code, the right operand's code and
      the operator's instruction, and fails when any of the three does. */
  lemma BinaryLayout(left: NodeValue, right: NodeValue, op: Token)
    ensures CompileValue(Binary(left, right, op)).Ok?
            <==> CompileValue(left).Ok? && CompileValue(right).Ok? && OpTokenToInstruction(op).Ok?
    ensures CompileValue(Binary(left, right, op)).Ok? ==>
              CompileValue(Binary(left, right, op)).value
              == CompileValue(left).value + CompileValue(right).value + [OpTokenToInstruction(op).value]
  {
  }

  /** A unary node lowers to its operand's code and one instruction of the same
      operation. */
  lemma UnaryLayout(x: NodeValue, m: UnaryOp)
    ensures CompileValue(Unary(x, m)).Ok? <==> CompileValue(x).Ok?
    ensures CompileValue(Unary(x, m)).Ok? ==>
              var c := CompileValue(x).value;
              var code := CompileValue(Unary(x, m)).value;
              |code| == |c| + 1 && code[..|c|] == c
              && code[|c|] == (match m case Negate => H.Negate case Not => H.Not case Typeof => H.Typeof)
              && code == c + code[|c|..]
  {
  }

  /** A primitive call lowers to its arguments last one first and one
      `CallPrimitive` naming the index and the argument count. */
  lemma PrimitiveCallShape(index: nat, args: seq<NodeValue>)
    ensures CompileValue(PrimitiveFunctionCall(index, args)).Ok? <==> CompileReversed(args, |args|).Ok?
    ensures CompileValue(PrimitiveFunctionCall(index, args)).Ok? ==>
              CompileValue(PrimitiveFunctionCall(index, args)).value
              == CompileReversed(args, |args|).value + [H.CallPrimitive(index, |args|)]
  {
  }

  /** The change in operand-stack depth an instruction of an expression's code
      makes: a value pushed, two replaced by one, one replaced by one, and a
      primitive call replacing its arguments by its result. */
  function Effect(h: H.Hir): int {
    match h
    case Push(_) => 1
    case Get(_) => 1
    case CallPrimitive(_, n) => 1 - n
    case Add => -1
    case Subtract => -1
    case Multiply => -1
    case Divide => -1
    case Equal => -1
    case NotEqual => -1
    case LessThan => -1
    case LessThanOrEqual => -1
    case GreaterThan => -1
    case GreaterThanOrEqual => -1
    case _ => 0
  }

  function NetEffect(code: seq<H.Hir>): int
    decreases |code|
  {
    if |code| == 0 then 0 else Effect(code[0]) + NetEffect(code[1..])
  }

  lemma {:induction false} NetEffectAppend(a: seq<H.Hir>, b: seq<H.Hir>)
    ensures NetEffect(a + b) == NetEffect(a) + NetEffect(b)
    decreases |a|
  {
    if |a| > 0 {
      assert (a + b)[1..] == a[1..] + b;
      NetEffectAppend(a[1..], b);
    } else {
      assert a + b == b;
    }
  }

  /** Expressions without calls of user functions. */
  predicate CallFree(v: NodeValue) {
    match v
    case FunctionCall(_, _) => false
    case Binary(l, r, _) => CallFree(l) && CallFree(r)
    case Unary(x, _) => CallFree(x)
    case PrimitiveFunctionCall(_, args) => forall k :: 0 <= k < |args| ==> CallFree(args[k])
    case _ => true
  }

  /** The code of an expression without user-function calls leaves exactly one more
      value on the stack than it found. */
  lemma {:induction false} ExpressionPushesOne(v: NodeValue)
    requires CallFree(v) && CompileValue(v).Ok?
    ensures NetEffect(CompileValue(v).value) == 1
    decreases v, 1
  {
    match v
    case PrimitiveFunctionCall(index, args) =>
      PrimitiveCallShape(index, args);
      ArgumentsPushOneEach(args, |args|);
      NetEffectAppend(CompileReversed(args, |args|).value, [H.CallPrimitive(index, |args|)]);
    case Binary(l, r, op) =>
      ExpressionPushesOne(l);
      ExpressionPushesOne(r);
      BinaryPushesOne(l, r, op);
    case Unary(x, m) =>
      ExpressionPushesOne(x);
      UnaryPushesOne(x, m);
    case _ =>
  }

  lemma BinaryPushesOne(l: NodeValue, r: NodeValue, op: Token)
    requires CompileValue(Binary(l, r, op)).Ok?
    requires NetEffect(CompileValue(l).value) == 1 && NetEffect(CompileValue(r).value) == 1
    ensures NetEffect(CompileValue(Binary(l, r, op)).value) == 1
  {
    BinaryLayout(l, r, op);
    var a, b, o := CompileValue(l).value, CompileValue(r).value, OpTokenToInstruction(op).value;
    OperatorEffect(op);
    assert NetEffect([o]) == Effect(o) + NetEffect([]);
    NetEffectAppend(a, b);
    NetEffectAppend(a + b, [o]);
  }

  /** Every operator instruction replaces two values by one. */
  lemma OperatorEffect(op: Token)
    requires OpTokenToInstruction(op).Ok?
    ensures Effect(OpTokenToInstruction(op).value) == -1
  {
  }

  lemma UnaryPushesOne(x: NodeValue, m: UnaryOp)
    requires CompileValue(Unary(x, m)).Ok?
    requires NetEffect(CompileValue(x).value) == 1
    ensures NetEffect(CompileValue(Unary(x, m)).value) == 1
  {
    UnaryLayout(x, m);
    var c := CompileValue(x).value;
    NetEffectAppend(c, CompileValue(Unary(x, m)).value[|c|..]);
  }

  lemma {:induction false} ArgumentsPushOneEach(args: seq<NodeValue>, n: nat)
    requires n <= |args| && CompileReversed(args, n).Ok?
    requires forall k :: 0 <= k < |args| ==> CallFree(args[k])
    ensures NetEffect(CompileReversed(args, n).value) == n
    decreases args, n
  {
    if n > 0 {
      ExpressionPushesOne(args[n - 1]);
      ArgumentsPushOneEach(args, n - 1);
      NetEffectAppend(CompileValue(args[n - 1]).value, CompileReversed(args, n - 1).value);
    }
  }

  /** A declaration and an assignment both lower to the value's code and a
      `SetLocal` of the name. */
  lemma BindingsSetLocal(name: string, value: NodeValue, public: bool, mutable: bool, t: Type)
    ensures Compile([VariableDecleration(name, value, public, mutable, t)]).Ok? <==> CompileValue(value).Ok?
    ensures Compile([VariableDecleration(name, value, public, mutable, t)])
            == Compile([VariableAssignment(name, value)])
    ensures CompileValue(value).Ok? ==>
              Compile([VariableAssignment(name, value)]) == Ok(CompileValue(value).value + [H.SetLocal(name)])
  {
    CompileSingle(VariableDecleration(name, value, public, mutable, t));
    CompileSingle(VariableAssignment(name, value));
  }

  /** A one-statement program is compiled as that statement. */
  lemma CompileSingle(n: NodeValue)
    ensures Compile([n]) == CompileNode(n)
  {
    assert [n][1..] == [];
    if CompileNode(n).Ok? {
      assert CompileNode(n).value + [] == CompileNode(n).value;
    }
  }

  /** An `if` leaves its first condition's code in the enclosing code, followed by
      one `IfStatement`; the else-if list is absent exactly when there are no
      else-ifs, and a missing else is an empty block. */
  lemma IfShape(ontrue: CondBlock, elseifs: seq<CondBlock>, onfalse: ElseBlock)
    requires CompileNode(If(ontrue, elseifs, onfalse)).Ok?
    ensures var code := CompileNode(If(ontrue, elseifs, onfalse)).value;
      CompileValue(ontrue.cond).Ok? && Compile(ontrue.block).Ok?
      && |code| == |CompileValue(ontrue.cond).value| + 1
      && code[..|code| - 1] == CompileValue(ontrue.cond).value
      && code[|code| - 1].IfStatement?
      && code[|code| - 1].ontrue == Compile(ontrue.block).value
      && (code[|code| - 1].onelseif.NoElseIfs? <==> |elseifs| == 0)
      && (code[|code| - 1].onelseif.ElseIfs? ==> |code[|code| - 1].onelseif.arms| == |elseifs|)
      && (onfalse.NoElse? ==> code[|code| - 1].onfalse == [])
  {
    if onfalse.NoElse? {
      assert Compile([]) == Ok([]);
    }
  }

  /** A function declaration is exactly a `Push` of the function, its body lowered
      by `from_hir` and its parameter names in order, then `SetLocal` of its name. */
  lemma FunctionDeclarationShape(name: string, body: seq<NodeValue>, params: seq<Parameter>, public: bool,
                                 t: Type)
    ensures CompileNode(FunctionDecleration(name, body, params, public, t)).Ok? <==> Compile(body).Ok?
    ensures Compile(body).Ok? ==>
              var code := CompileNode(FunctionDecleration(name, body, params, public, t)).value;
              |code| == 2 && code[0].Push? && code[0].value.Function?
              && code[0].value.code == H.FromHir(Compile(body).value)
              && |code[0].value.params| == |params|
              && (forall k :: 0 <= k < |params| ==> code[0].value.params[k] == params[k].name)
              && code[1] == H.SetLocal(name)
  {
  }
}
