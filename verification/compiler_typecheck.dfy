/** The type checker of the first-generation compiler.

The checker knows the return type of every top-level function and the type of every
checked variable declaration. Only top-level declarations and the conditions of
top-level `if` statements are checked. A `panic!` of the source is `Panic`; the
operator table's own failure (`Err(())`) is `Mismatch`, which the checker turns
into a panic once it reaches a statement. */
module CompilerTypecheck {
  import opened Wrappers
  import opened CompilerAst

  /** The outcome of typing an expression. */
  datatype Checked = Typed(t: Type) | Mismatch | Panic(msg: string)

  /** The checker's state: the return type of each function and the type of each
      variable. */
  datatype Typechecker = Typechecker(functions: map<string, Type>, variables: map<string, Type>)

  function New(): (r: Typechecker)
    ensures r.functions == map[] && r.variables == map[]
  {
    Typechecker(map[], map[])
  }

  predicate IsEquality(op: string) {
    op == "==" || op == "!="
  }

  /** The operators' type table, tried row by row. */
  function BinaryReturnType(op: string, left: Type, right: Type): (r: Result<Type>)
  {
    if IsEquality(op) && left == right && (left.NumberType? || left.StringType? || left.BoolType?) then
      Ok(BoolType)
    else if left.NumberType? && right.NumberType? then Ok(NumberType)
    else if left.NumberType? && right.BoolType? then Ok(NumberType)
    else if left.BoolType? && right.NumberType? then Ok(NumberType)
    else if op == "+" && left.StringType? && right.StringType? then Ok(StringType)
    else if op == "*" && left.StringType? && right.NumberType? then Ok(StringType)
    else Err("")
  }

  /** The table by operand kinds, one case per pair of kinds: which operators a pair
      accepts and the type they yield. */
  function TableByKinds(op: string, left: Type, right: Type): Result<Type> {
    match (left, right)
    case (NumberType, NumberType) => Ok(if IsEquality(op) then BoolType else NumberType)
    case (NumberType, BoolType) => Ok(NumberType)
    case (BoolType, NumberType) => Ok(NumberType)
    case (BoolType, BoolType) => if IsEquality(op) then Ok(BoolType) else Err("")
    case (StringType, StringType) =>
      if IsEquality(op) then Ok(BoolType) else if op == "+" then Ok(StringType) else Err("")
    case (StringType, NumberType) => if op == "*" then Ok(StringType) else Err("")
    case _ => Err("")
  }

  /** The row-by-row table and the table by kinds agree on every input. In particular
      the ordering operators on two numbers yield a number, a number mixed with a
      bool yields a number even under `==`, and arrays and `Void` are never
      accepted. */
  lemma TableAgrees(op: string, left: Type, right: Type)
    ensures BinaryReturnType(op, left, right) == TableByKinds(op, left, right)
  {
  }

  /** The operator text of a binary operator token; the others panic. */
  function TokenToOp(t: Token): (r: Result<string>)
    ensures r.Ok? <==> t in [OpAdd, OpSub, OpMul, OpDiv, OpMod, OpEq, OpBangEq, OpLess, OpLessEq, OpMore, OpMoreEq]
    ensures r.Ok? ==> 1 <= |r.value| <= 2
  {
    match t
    case OpAdd => Ok("+")
    case OpSub => Ok("-")
    case OpMul => Ok("*")
    case OpDiv => Ok("/")
    case OpMod => Ok("%")
    case OpEq => Ok("==")
    case OpBangEq => Ok("!=")
    case OpLess => Ok("<")
    case OpLessEq => Ok("<=")
    case OpMore => Ok(">")
    case OpMoreEq => Ok(">=")
    case _ => Err("explicit panic")
  }

  /** Distinct operator tokens have distinct texts, and only `==`/`!=` have an
      equality text. */
  lemma TokenToOpInjective(a: Token, b: Token)
    requires TokenToOp(a).Ok? && TokenToOp(b).Ok?
    ensures TokenToOp(a) == TokenToOp(b) ==> a == b
    ensures IsEquality(TokenToOp(a).value) <==> a == OpEq || a == OpBangEq
  {
  }

  /** The type of a leaf: a literal's own type, a variable's recorded type or a
      function's return type. Anything else, and an unknown name, panics. */
  function GetValueType(tc: Typechecker, v: NodeValue): (r: Result<Type>)
    ensures v.NumberValue? ==> r == Ok(NumberType)
    ensures v.BoolValue? ==> r == Ok(BoolType)
    ensures v.StringValue? ==> r == Ok(StringType)
    ensures v.IdentifierValue? ==> (r.Ok? <==> v.iden in tc.variables)
    ensures v.IdentifierValue? && r.Ok? ==> r.value == tc.variables[v.iden]
    ensures v.FunctionCall? ==> (r.Ok? <==> v.callee in tc.functions)
    ensures v.FunctionCall? && r.Ok? ==> r.value == tc.functions[v.callee]
    ensures !(v.NumberValue? || v.BoolValue? || v.StringValue? || v.IdentifierValue? || v.FunctionCall?)
            ==> r.Err?
  {
    match v
    case NumberValue(_) => Ok(NumberType)
    case BoolValue(_) => Ok(BoolType)
    case StringValue(_) => Ok(StringType)
    case IdentifierValue(iden) =>
      if iden in tc.variables then Ok(tc.variables[iden]) else Err("Variable " + iden + " not found")
    case FunctionCall(name, _) =>
      if name in tc.functions then Ok(tc.functions[name]) else Err("Function " + name + " not found")
    case _ => Err("explicit panic")
  }

  /** The type of an expression. The operator's text is taken first, then the left
      operand and then the right one are typed; the first failure is the result. */
  function EvalBinaryExpression(tc: Typechecker, v: NodeValue): (r: Checked)
  {
    match v
    case Binary(left, right, op) =>
      (match TokenToOp(op)
       case Err(e) => Panic(e)
       case Ok(o) =>
         (match EvalBinaryExpression(tc, left)
          case Typed(lt) =>
            (match EvalBinaryExpression(tc, right)
             case Typed(rt) => FromTable(BinaryReturnType(o, lt, rt))
             case other => other)
          case other => other))
    case _ =>
      match GetValueType(tc, v)
      case Ok(t) => Typed(t)
      case Err(e) => Panic(e)
  }

  function FromTable(r: Result<Type>): Checked {
    match r
    case Ok(t) => Typed(t)
    case Err(_) => Mismatch
  }

  /** A failure in either operand of a binary expression is the failure of the
      whole; an unknown operator panics before either operand is looked at; and an
      expression without a binary node is typed as its leaf. */
  lemma {:induction false} FailurePropagates(tc: Typechecker, left: NodeValue, right: NodeValue, op: Token)
    ensures TokenToOp(op).Err? ==> EvalBinaryExpression(tc, Binary(left, right, op)).Panic?
    ensures TokenToOp(op).Ok? && !EvalBinaryExpression(tc, left).Typed? ==>
              EvalBinaryExpression(tc, Binary(left, right, op)) == EvalBinaryExpression(tc, left)
    ensures TokenToOp(op).Ok? && EvalBinaryExpression(tc, left).Typed? && !EvalBinaryExpression(tc, right).Typed? ==>
              EvalBinaryExpression(tc, Binary(left, right, op)) == EvalBinaryExpression(tc, right)
    ensures EvalBinaryExpression(tc, Binary(left, right, op)).Typed? ==>
              var r := EvalBinaryExpression(tc, Binary(left, right, op));
              EvalBinaryExpression(tc, left).Typed? && EvalBinaryExpression(tc, right).Typed?
              && TableByKinds(TokenToOp(op).value, EvalBinaryExpression(tc, left).t,
                              EvalBinaryExpression(tc, right).t) == Ok(r.t)
  {
    if TokenToOp(op).Ok? && EvalBinaryExpression(tc, left).Typed? && EvalBinaryExpression(tc, right).Typed? {
      TableAgrees(TokenToOp(op).value, EvalBinaryExpression(tc, left).t, EvalBinaryExpression(tc, right).t);
    }
  }

  /** A well-typed expression only mentions known variables and functions. */
  predicate NamesKnown(tc: Typechecker, v: NodeValue) {
    match v
    case Binary(l, r, _) => NamesKnown(tc, l) && NamesKnown(tc, r)
    case IdentifierValue(x) => x in tc.variables
    case FunctionCall(f, _) => f in tc.functions
    case _ => true
  }

  /** A typed expression never refers to an unknown name: typing fails rather than
      guessing. */
  lemma {:induction false} TypedNamesKnown(tc: Typechecker, v: NodeValue)
    requires EvalBinaryExpression(tc, v).Typed?
    ensures NamesKnown(tc, v)
  {
    if v.Binary? {
      TypedNamesKnown(tc, v.left);
      TypedNamesKnown(tc, v.right);
    }
  }

  /** The function a node declares at top level, if any. */
  function Declared(n: NodeValue): Option<(string, Type)> {
    if n.FunctionDecleration? then Some((n.fname, n.returnType)) else Option.None
  }

  /** `initialise`: registers the return type of every top-level function, in
      program order, so a later declaration of a name replaces an earlier one. */
  function Initialise(functions: map<string, Type>, program: seq<NodeValue>): (r: map<string, Type>)
    decreases |program|
  {
    if |program| == 0 then functions
    else
      var before := Initialise(functions, program[..|program| - 1]);
      var last := program[|program| - 1];
      if last.FunctionDecleration? then before[last.fname := last.returnType] else before
  }

  /** The return type of the last top-level declaration of `name`, scanning the
      program from its end. */
  function LastDeclared(program: seq<NodeValue>, name: string): Option<Type>
    decreases |program|
  {
    if |program| == 0 then Option.None
    else
      var n := program[|program| - 1];
      if n.FunctionDecleration? && n.fname == name then Some(n.returnType)
      else LastDeclared(program[..|program| - 1], name)
  }

  /** After `initialise`, a name declared in the program maps to the return type of
      its last declaration, and every other name is as before. */
  lemma {:induction false} InitialiseRegisters(functions: map<string, Type>, program: seq<NodeValue>, name: string)
    decreases |program|
    ensures LastDeclared(program, name).Some? ==>
              name in Initialise(functions, program)
              && Initialise(functions, program)[name] == LastDeclared(program, name).value
    ensures LastDeclared(program, name).None? ==>
              (name in Initialise(functions, program) <==> name in functions)
              && (name in functions ==> Initialise(functions, program)[name] == functions[name])
  {
    if |program| > 0 {
      InitialiseRegisters(functions, program[..|program| - 1], name);
    }
  }

  /** One top-level statement: a declaration is recorded when its value's type is its
      annotation, and an `if` needs every condition to be typed. */
  function CheckNode(tc: Typechecker, n: NodeValue): (r: Result<Typechecker>)
    ensures r.Ok? ==> r.value.functions == tc.functions
    ensures r.Ok? && !n.VariableDecleration? ==> r.value == tc
  {
    match n
    case VariableDecleration(name, value, _, _, annotation) =>
      (match EvalBinaryExpression(tc, value)
       case Typed(t) =>
         if annotation == t then Ok(tc.(variables := tc.variables[name := t]))
         else Err("Expected type")
       case Mismatch => Err("Error in variable decleration: Invalid Types.")
       case Panic(e) => Err(e))
    case If(ontrue, elseifs, _) =>
      (match EvalBinaryExpression(tc, ontrue.cond)
       case Typed(_) => CheckConditions(tc, elseifs)
       case Mismatch => Err(IF_INVALID)
       case Panic(e) => Err(e))
    case _ => Ok(tc)
  }

  const IF_INVALID := "Error in if statement (IF): Invalid types"
  const ELSEIF_INVALID := "Error in if statement (ELSEIF): Invalid types"

  /** The failure an untyped condition stops checking with: the panic of a lookup
      as it is, and the table's failure as the statement's own message. */
  function ConditionFailure(c: Checked, message: string): string
    requires !c.Typed?
  {
    if c.Panic? then c.msg else message
  }

  function CheckConditions(tc: Typechecker, elseifs: seq<CondBlock>): (r: Result<Typechecker>)
    ensures r.Ok? <==> forall i :: 0 <= i < |elseifs| ==> EvalBinaryExpression(tc, elseifs[i].cond).Typed?
    ensures r.Ok? ==> r.value == tc
    decreases |elseifs|
  {
    if |elseifs| == 0 then Ok(tc)
    else
      match EvalBinaryExpression(tc, elseifs[0].cond)
      case Mismatch => Err(ELSEIF_INVALID)
      case Panic(e) => Err(e)
      case Typed(_) =>
        var r := CheckConditions(tc, elseifs[1..]);
        assert forall i :: 1 <= i < |elseifs| ==> elseifs[i] == elseifs[1..][i - 1];
        r
  }

  /** The first condition that is not typed decides the failure: its lookup's
      panic, or the `else if` message when the table refuses its operands. */
  lemma {:induction false} FirstUntypedDecides(tc: Typechecker, elseifs: seq<CondBlock>, i: nat)
    requires i < |elseifs| && !EvalBinaryExpression(tc, elseifs[i].cond).Typed?
    requires forall j :: 0 <= j < i ==> EvalBinaryExpression(tc, elseifs[j].cond).Typed?
    ensures CheckConditions(tc, elseifs) == Err(ConditionFailure(EvalBinaryExpression(tc, elseifs[i].cond), ELSEIF_INVALID))
    decreases i
  {
    if i > 0 {
      assert EvalBinaryExpression(tc, elseifs[0].cond).Typed?;
      assert elseifs[1..][i - 1] == elseifs[i];
      forall j | 0 <= j < i - 1 ensures EvalBinaryExpression(tc, elseifs[1..][j].cond).Typed? {
        assert elseifs[1..][j] == elseifs[j + 1];
      }
      FirstUntypedDecides(tc, elseifs[1..], i - 1);
    }
  }

  /** An `if` whose own condition is not typed fails with that condition's
      failure; a lookup's panic is not replaced by the statement's message. */
  lemma IfFailure(tc: Typechecker, ontrue: CondBlock, elseifs: seq<CondBlock>, onfalse: ElseBlock)
    requires !EvalBinaryExpression(tc, ontrue.cond).Typed?
    ensures CheckNode(tc, If(ontrue, elseifs, onfalse))
            == Err(ConditionFailure(EvalBinaryExpression(tc, ontrue.cond), IF_INVALID))
  {
  }

  /** An `if` whose own condition is typed fails on its first untyped `else if`
      condition, with that condition's failure. */
  lemma ElseIfFailure(tc: Typechecker, ontrue: CondBlock, elseifs: seq<CondBlock>, onfalse: ElseBlock, i: nat)
    requires EvalBinaryExpression(tc, ontrue.cond).Typed?
    requires i < |elseifs| && !EvalBinaryExpression(tc, elseifs[i].cond).Typed?
    requires forall j :: 0 <= j < i ==> EvalBinaryExpression(tc, elseifs[j].cond).Typed?
    ensures CheckNode(tc, If(ontrue, elseifs, onfalse))
            == Err(ConditionFailure(EvalBinaryExpression(tc, elseifs[i].cond), ELSEIF_INVALID))
  {
    FirstUntypedDecides(tc, elseifs, i);
  }

  /** `if y { }` with `y` undeclared stops with the lookup's panic, not with the
      `if` statement's message. */
  lemma UndeclaredCondition(tc: Typechecker, y: string, block: seq<NodeValue>, elseifs: seq<CondBlock>,
                            onfalse: ElseBlock)
    requires y !in tc.variables
    ensures CheckNode(tc, If(CondBlock(IdentifierValue(y), block), elseifs, onfalse)) == Err("Variable " + y + " not found")
  {
  }

  /** The statements of the program in order, from the given state. */
  function CheckAll(tc: Typechecker, program: seq<NodeValue>): (r: Result<Typechecker>)
    ensures r.Ok? ==> r.value.functions == tc.functions
    decreases |program|
  {
    if |program| == 0 then Ok(tc)
    else
      var next :- CheckNode(tc, program[0]);
      CheckAll(next, program[1..])
  }

  /** `check`: every function's return type is registered first, then the statements
      are checked in order. */
  function Check(program: seq<NodeValue>): (r: Result<Typechecker>)
    ensures r.Ok? ==> r.value.functions == Initialise(map[], program)
  {
    CheckAll(Typechecker(Initialise(map[], program), map[]), program)
  }

  /** A declaration is recorded exactly when its value's type equals its annotation;
      otherwise checking stops with a failure. */
  lemma DeclarationRecorded(tc: Typechecker, name: string, value: NodeValue, public: bool, mutable: bool,
                            annotation: Type)
    ensures var r := CheckNode(tc, VariableDecleration(name, value, public, mutable, annotation));
      (r.Ok? <==> EvalBinaryExpression(tc, value) == Typed(annotation))
      && (r.Ok? ==> r.value.variables == tc.variables[name := annotation])
  {
  }

  /** A function may be called before its declaration: with `let x: T = f()` ahead of
      `fn f(): T`, checking succeeds and records `x: T`. */
  lemma CallBeforeDeclaration(f: string, x: string, t: Type, body: seq<NodeValue>)
    ensures var program := [VariableDecleration(x, FunctionCall(f, []), false, false, t),
                            FunctionDecleration(f, body, [], false, t)];
      Check(program).Ok? && Check(program).value.variables == map[x := t]
  {
    var program := [VariableDecleration(x, FunctionCall(f, []), false, false, t),
                    FunctionDecleration(f, body, [], false, t)];
    var funs := Initialise(map[], program);
    assert Initialise(map[], program[..1]) == map[];
    assert funs == map[f := t];
    var after := Typechecker(funs, map[x := t]);
    assert CheckAll(Typechecker(funs, map[]), program) == CheckAll(after, program[1..]);
    assert CheckNode(after, program[1]) == Ok(after);
    assert program[1..][1..] == [];
    assert CheckAll(after, program[1..]) == CheckAll(after, program[1..][1..]);
  }
}
