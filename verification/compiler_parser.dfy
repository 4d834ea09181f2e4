/** The recursive-descent parser of the first-generation compiler, over a token sequence.

The parser's state is a position in the token sequence: its current token is the
token at that position, or `End` once the tokens are exhausted, and advancing past
the last token stays at the end. Every parsing function takes the position of its
first token and returns the node it built together with the position after it.
Reporting an error and exiting, a `todo!` and a `panic!` all become `Err`. */
module CompilerParser {
  import opened Wrappers
  import opened CompilerAst

  type Tokens = seq<Token>

  /** A parsed value and the position right after it. */
  datatype Parsed<+T> = Parsed(value: T, pos: nat)

  /** The current token: `End` once the tokens are exhausted. */
  function Current(toks: Tokens, pos: nat): Token {
    if pos < |toks| then toks[pos] else End
  }

  /** Moves to the next token; at the end of the tokens the position stays put. */
  function Advance(toks: Tokens, pos: nat): (p: nat)
    requires pos <= |toks|
    ensures p <= |toks|
    ensures pos < |toks| ==> p == pos + 1
    ensures pos == |toks| ==> p == pos && Current(toks, p) == End
  {
    if pos < |toks| then pos + 1 else pos
  }

  /** Once the tokens are exhausted the current token is `End`, however often the
      parser advances. */
  lemma ExhaustedIsEnd(toks: Tokens, pos: nat, k: nat)
    requires |toks| <= pos
    ensures Current(toks, pos + k) == End
  {
  }

  /** The precedence levels of binary operators, loosest first. The source also
      defines three bitwise levels that no other level refers to. */
  datatype Precedence = Logical | Comparison | Additive | Multiplicative

  function Operators(l: Precedence): seq<Token> {
    match l
    case Logical => [KwAnd, KwOr]
    case Comparison => [OpEq, OpBangEq, OpLess, OpMore, OpMoreEq, OpLessEq]
    case Additive => [OpAdd, OpSub]
    case Multiplicative => [OpMul, OpDiv, OpMod, OpPow, OpLeftShift, OpRightShift]
  }

  /** The next tighter level, for the levels that have one. */
  function Tighter(l: Precedence): Precedence
    requires !l.Multiplicative?
  {
    match l
    case Logical => Comparison
    case Comparison => Additive
    case Additive => Multiplicative
  }

  function Rank(l: Precedence): nat {
    match l
    case Logical => 9
    case Comparison => 7
    case Additive => 5
    case Multiplicative => 3
  }

  /** The operators any level can build a `Binary` node with. */
  predicate IsExpressionOperator(t: Token) {
    t in Operators(Logical) || t in Operators(Comparison) || t in Operators(Additive)
    || t in Operators(Multiplicative)
  }

  /** Every `Binary` node in `n` carries an operator of one of the four levels. */
  predicate Operated(n: NodeValue) {
    match n
    case Binary(l, r, op) => IsExpressionOperator(op) && Operated(l) && Operated(r)
    case Unary(v, _) => Operated(v)
    case FunctionCall(_, args) => AllOperated(args)
    case ArrayValue(elems) => AllOperated(elems)
    case _ => true
  }

  predicate AllOperated(ns: seq<NodeValue>)
    decreases ns
  {
    |ns| == 0 || (Operated(ns[0]) && AllOperated(ns[1..]))
  }

  lemma {:induction false} AllOperatedAppend(ns: seq<NodeValue>, n: NodeValue)
    requires AllOperated(ns) && Operated(n)
    ensures AllOperated(ns + [n])
    decreases ns
  {
    if |ns| > 0 {
      assert (ns + [n])[1..] == ns[1..] + [n];
      AllOperatedAppend(ns[1..], n);
    }
  }

  // ---------------------------------------------------------------- expressions

  /** `expression`: the loosest level. */
  function Expression(toks: Tokens, pos: nat): (r: Result<Parsed<NodeValue>>)
    requires pos <= |toks|
    decreases |toks| - pos, 10
    ensures r.Ok? ==> pos < r.value.pos <= |toks|
    ensures r.Ok? ==> Operated(r.value.value)
  {
    Level(toks, pos, Logical)
  }

  /** `binary_expression`: an operand of the next tighter kind, then a left fold over
      every following operator of this level and its right operand. */
  function Level(toks: Tokens, pos: nat, l: Precedence): (r: Result<Parsed<NodeValue>>)
    requires pos <= |toks|
    decreases |toks| - pos, Rank(l)
    ensures r.Ok? ==> pos < r.value.pos <= |toks|
    ensures r.Ok? ==> Operated(r.value.value)
  {
    var left :- Operand(toks, pos, l);
    BinaryLoop(toks, l, left.value, left.pos)
  }

  /** The operand parser of a level: the next level, or `unary` below the
      multiplicative operators. */
  function Operand(toks: Tokens, pos: nat, l: Precedence): (r: Result<Parsed<NodeValue>>)
    requires pos <= |toks|
    decreases |toks| - pos, Rank(l) - 1
    ensures r.Ok? ==> pos < r.value.pos <= |toks|
    ensures r.Ok? ==> Operated(r.value.value)
  {
    if l.Multiplicative? then UnaryExpr(toks, pos) else Level(toks, pos, Tighter(l))
  }

  /** The `while` loop of `binary_expression`, from the token after `left`. */
  function BinaryLoop(toks: Tokens, l: Precedence, left: NodeValue, pos: nat): (r: Result<Parsed<NodeValue>>)
    requires pos <= |toks|
    requires Operated(left)
    decreases |toks| - pos, 0
    ensures r.Ok? ==> pos <= r.value.pos <= |toks|
    ensures r.Ok? ==> r.value.pos == pos || Current(toks, pos) in Operators(l)
    ensures r.Ok? ==> Current(toks, r.value.pos) !in Operators(l)
    ensures r.Ok? ==> Operated(r.value.value)
  {
    var op := Current(toks, pos);
    if op in Operators(l) then
      var right :- Operand(toks, Advance(toks, pos), l);
      BinaryLoop(toks, l, Binary(left, right.value, op), right.pos)
    else
      Ok(Parsed(left, pos))
  }

  /** `unary`: `!` applies to a single value, `-` and `typeof` to a unary. */
  function UnaryExpr(toks: Tokens, pos: nat): (r: Result<Parsed<NodeValue>>)
    requires pos <= |toks|
    decreases |toks| - pos, 1
    ensures r.Ok? ==> pos < r.value.pos <= |toks|
    ensures r.Ok? ==> Operated(r.value.value)
  {
    match Current(toks, pos)
    case OpBang =>
      var v :- Value(toks, Advance(toks, pos));
      Ok(Parsed(Unary(v.value, Not), v.pos))
    case OpSub =>
      var v :- UnaryExpr(toks, Advance(toks, pos));
      Ok(Parsed(Unary(v.value, Negate), v.pos))
    case KwTypeof =>
      var v :- UnaryExpr(toks, Advance(toks, pos));
      Ok(Parsed(Unary(v.value, Typeof), v.pos))
    case _ => Value(toks, pos)
  }

  /** `value`: a literal, an identifier or a call, an array, or a parenthesised
      expression (which yields the inner node itself). */
  function Value(toks: Tokens, pos: nat): (r: Result<Parsed<NodeValue>>)
    requires pos <= |toks|
    decreases |toks| - pos, 0
    ensures r.Ok? ==> pos < r.value.pos <= |toks|
    ensures r.Ok? ==> Operated(r.value.value)
  {
    var p := Advance(toks, pos);
    match Current(toks, pos)
    case Number(n) => Ok(Parsed(NumberValue(n), p))
    case True => Ok(Parsed(BoolValue(true), p))
    case False => Ok(Parsed(BoolValue(false), p))
    case String(s) => Ok(Parsed(StringValue(s), p))
    case Identifier(iden) =>
      if Current(toks, p) == LeftParen then
        var args :- Items(toks, Advance(toks, p), RightParen);
        Ok(Parsed(FunctionCall(iden, args.value), Advance(toks, args.pos)))
      else
        Ok(Parsed(IdentifierValue(iden), p))
    case LeftSquare =>
      var elems :- Items(toks, p, RightSquare);
      Ok(Parsed(ArrayValue(elems.value), Advance(toks, elems.pos)))
    case LeftParen =>
      var e :- Expression(toks, p);
      if Current(toks, e.pos) != RightParen then Err("Expected ')' after expression.")
      else Ok(Parsed(e.value, Advance(toks, e.pos)))
    case _ => Err("not yet implemented")
  }

  /** Comma-separated expressions up to `closer`; a comma right before the closer
      is accepted. The closer itself is not consumed here, and not checked by the
      caller either: whatever token ends the list is skipped. */
  function Items(toks: Tokens, pos: nat, closer: Token): (r: Result<Parsed<seq<NodeValue>>>)
    requires pos <= |toks|
    decreases |toks| - pos, 11
    ensures r.Ok? ==> pos <= r.value.pos <= |toks|
    ensures r.Ok? ==> Current(toks, r.value.pos) == closer || Current(toks, r.value.pos) != Comma
    ensures r.Ok? ==> AllOperated(r.value.value)
  {
    if Current(toks, pos) == closer then Ok(Parsed([], pos))
    else
      var first :- Expression(toks, pos);
      assert AllOperated([first.value]) by { AllOperatedAppend([], first.value); }
      ItemsRest(toks, first.pos, [first.value], closer)
  }

  function ItemsRest(toks: Tokens, pos: nat, acc: seq<NodeValue>, closer: Token)
    : (r: Result<Parsed<seq<NodeValue>>>)
    requires pos <= |toks|
    requires AllOperated(acc)
    decreases |toks| - pos, 0
    ensures r.Ok? ==> pos <= r.value.pos <= |toks|
    ensures r.Ok? ==> Current(toks, r.value.pos) == closer || Current(toks, r.value.pos) != Comma
    ensures r.Ok? ==> |r.value.value| >= |acc| && r.value.value[..|acc|] == acc
    ensures r.Ok? ==> AllOperated(r.value.value)
  {
    if Current(toks, pos) != Comma then Ok(Parsed(acc, pos))
    else
      var p := Advance(toks, pos);
      if Current(toks, p) == closer then Ok(Parsed(acc, p))
      else
        var e :- Expression(toks, p);
        AllOperatedAppend(acc, e.value);
        var r := ItemsRest(toks, e.pos, acc + [e.value], closer);
        assert r.Ok? ==> r.value.value[..|acc|] == r.value.value[..|acc| + 1][..|acc|];
        r
  }

  // ----------------------------------------------------------------- statements

  /** `parse_type`: one of the three named types. */
  function ParseType(toks: Tokens, pos: nat): (r: Result<Parsed<Type>>)
    requires pos <= |toks|
    ensures r.Ok? <==> Current(toks, pos).Identifier? && Current(toks, pos).name in {"number", "bool", "string"}
    ensures r.Ok? ==> r.value.pos == pos + 1
  {
    match Current(toks, pos)
    case Identifier(t) =>
      if t == "number" then Ok(Parsed(NumberType, Advance(toks, pos)))
      else if t == "bool" then Ok(Parsed(BoolType, Advance(toks, pos)))
      else if t == "string" then Ok(Parsed(StringType, Advance(toks, pos)))
      else Err("Unknown type.")
    case _ => Err("Expected Identifier")
  }

  /** `statement`, at the position of its first token. An identifier starts an
      expression that becomes an assignment when it is a lone identifier followed
      by `=`. */
  function Statement(toks: Tokens, pos: nat): (r: Result<Parsed<NodeValue>>)
    requires pos <= |toks|
    decreases |toks| - pos, 12
    ensures r.Ok? ==> pos < r.value.pos <= |toks|
  {
    match Current(toks, pos)
    case KwLet => VariableDecl(toks, pos, false)
    case KwFn => FunctionDecl(toks, pos, false)
    case KwPub =>
      var p := Advance(toks, pos);
      if Current(toks, p) == KwLet then VariableDecl(toks, p, true)
      else if Current(toks, p) == KwFn then FunctionDecl(toks, p, true)
      else Err("Expected 'let' or 'fn' after 'pub'")
    case KwWhile => While(toks, pos)
    case KwUse => Import(toks, pos)
    case KwIf => IfStatement(toks, pos)
    case Identifier(_) =>
      var e :- Expression(toks, pos);
      if e.value.IdentifierValue? && Current(toks, e.pos) == Assign then
        Assignment(toks, e.value.iden, e.pos)
      else Ok(e)
    case Number(_) => Expression(toks, pos)
    case String(_) => Expression(toks, pos)
    case FormattedString(_) => Expression(toks, pos)
    case PrimitiveFnIdentifier(_) => Expression(toks, pos)
    case LeftSquare => Expression(toks, pos)
    case True => Expression(toks, pos)
    case False => Expression(toks, pos)
    case None => Expression(toks, pos)
    case KwTypeof => Expression(toks, pos)
    case OpBang => Expression(toks, pos)
    case OpSub => Expression(toks, pos)
    case _ => Err("not yet implemented")
  }

  /** `variable_assignment`, at the `=`. */
  function Assignment(toks: Tokens, name: string, pos: nat): (r: Result<Parsed<NodeValue>>)
    requires pos < |toks|
    decreases |toks| - pos, 0
    ensures r.Ok? ==> pos < r.value.pos <= |toks|
    ensures r.Ok? ==> r.value.value.VariableAssignment? && r.value.value.aname == name
  {
    var v :- Expression(toks, Advance(toks, pos));
    Ok(Parsed(VariableAssignment(name, v.value), v.pos))
  }

  /** `variable_decleration`, at the `let`: an optional `mut`, the name, `:`, the
      type, `=` and the value. */
  function VariableDecl(toks: Tokens, pos: nat, public: bool): (r: Result<Parsed<NodeValue>>)
    requires pos < |toks|
    decreases |toks| - pos, 11
    ensures r.Ok? ==> pos < r.value.pos <= |toks|
    ensures r.Ok? ==> r.value.value.VariableDecleration? && r.value.value.vpublic == public
  {
    var p1 := Advance(toks, pos);
    var name :- if Current(toks, p1) == KwMut then
        var p2 := Advance(toks, p1);
        if Current(toks, p2).Identifier? then Ok((true, Current(toks, p2).name, p2))
        else Err("Expected Identifier after 'mut'")
      else if Current(toks, p1).Identifier? then Ok((false, Current(toks, p1).name, p1))
      else Err("Expected either 'mut' or Identifier.");
    var (mutable, iden, p) := name;
    var p3 := Advance(toks, p);
    if Current(toks, p3) != Colon then Err("Expected ':'")
    else
      var t :- ParseType(toks, Advance(toks, p3));
      if Current(toks, t.pos) != Assign then Err("Expected '='")
      else
        var v :- Expression(toks, Advance(toks, t.pos));
        Ok(Parsed(VariableDecleration(iden, v.value, public, mutable, t.value), v.pos))
  }

  /** `function_decleration`, at the `fn`: name, parameter list, optional return
      type (`Void` when absent) and body. */
  function FunctionDecl(toks: Tokens, pos: nat, public: bool): (r: Result<Parsed<NodeValue>>)
    requires pos < |toks|
    decreases |toks| - pos, 11
    ensures r.Ok? ==> pos < r.value.pos <= |toks|
    ensures r.Ok? ==> r.value.value.FunctionDecleration? && r.value.value.public == public
  {
    var p1 := Advance(toks, pos);
    if !Current(toks, p1).Identifier? then Err("Expected identifier")
    else
      var name := Current(toks, p1).name;
      var p2 := Advance(toks, p1);
      if Current(toks, p2) != LeftParen then Err("Expected '(' after function name.")
      else
        var params :- Params(toks, Advance(toks, p2), []);
        var p5 := Advance(toks, params.pos);
        var ret :- if Current(toks, p5) == LeftCurly then Ok(Parsed(Void, Advance(toks, p5)))
          else if Current(toks, p5) == Colon then
            var t :- ParseType(toks, Advance(toks, p5));
            if Current(toks, t.pos) != LeftCurly then Err("Expected '{'")
            else Ok(Parsed(t.value, Advance(toks, t.pos)))
          else Err("Expected ':' or '{'");
        var body :- Block(toks, ret.pos, []);
        Ok(Parsed(FunctionDecleration(name, body.value, params.value, public, ret.value),
                  Advance(toks, body.pos)))
  }

  /** The parameter loop of `function_decleration`, up to the closing parenthesis:
      `name: type` or `mut name: type`, with commas skipped wherever they occur. */
  function Params(toks: Tokens, pos: nat, acc: seq<Parameter>): (r: Result<Parsed<seq<Parameter>>>)
    requires pos <= |toks|
    decreases |toks| - pos, 1
    ensures r.Ok? ==> pos <= r.value.pos < |toks| && Current(toks, r.value.pos) == RightParen
  {
    match Current(toks, pos)
    case RightParen => Ok(Parsed(acc, pos))
    case Comma => Params(toks, Advance(toks, pos), acc)
    case Identifier(iden) => Param(toks, Advance(toks, pos), acc, iden, false)
    case KwMut =>
      var p := Advance(toks, pos);
      if Current(toks, p).Identifier? then Param(toks, Advance(toks, p), acc, Current(toks, p).name, true)
      else Err("Expected identifier")
    case _ => Err("Expected either `mut` or identifier.")
  }

  /** The `: type` part of a parameter, then the rest of the loop. */
  function Param(toks: Tokens, pos: nat, acc: seq<Parameter>, name: string, mutable: bool)
    : (r: Result<Parsed<seq<Parameter>>>)
    requires pos <= |toks|
    decreases |toks| - pos + 1, 0
    ensures r.Ok? ==> pos <= r.value.pos < |toks| && Current(toks, r.value.pos) == RightParen
  {
    if Current(toks, pos) != Colon then Err("Expected ':' after parameter name.")
    else
      var t :- ParseType(toks, Advance(toks, pos));
      Params(toks, t.pos, acc + [Parameter(name, mutable, t.value)])
  }

  /** Statements up to the closing `}`, which is left for the caller to skip. */
  function Block(toks: Tokens, pos: nat, acc: seq<NodeValue>): (r: Result<Parsed<seq<NodeValue>>>)
    requires pos <= |toks|
    decreases |toks| - pos, 13
    ensures r.Ok? ==> pos <= r.value.pos < |toks| && Current(toks, r.value.pos) == RightCurly
  {
    if Current(toks, pos) == RightCurly then Ok(Parsed(acc, pos))
    else
      var s :- Statement(toks, pos);
      Block(toks, s.pos, acc + [s.value])
  }

  /** `while_statement`, at the `while`. */
  function While(toks: Tokens, pos: nat): (r: Result<Parsed<NodeValue>>)
    requires pos < |toks|
    decreases |toks| - pos, 11
    ensures r.Ok? ==> pos < r.value.pos <= |toks|
    ensures r.Ok? ==> r.value.value.WhileStatement?
  {
    var c :- Expression(toks, Advance(toks, pos));
    if Current(toks, c.pos) != LeftCurly then Err("Expected '{' after while statement.")
    else
      var body :- Block(toks, Advance(toks, c.pos), []);
      Ok(Parsed(WhileStatement(c.value, body.value), Advance(toks, body.pos)))
  }

  /** `import_statement`, at the `use`: the path, one token that is skipped whatever
      it is (the source expects `as` there but ignores the check), and the name. */
  function Import(toks: Tokens, pos: nat): (r: Result<Parsed<NodeValue>>)
    requires pos < |toks|
    ensures r.Ok? ==> pos < r.value.pos <= |toks|
    ensures r.Ok? <==> Current(toks, pos + 1).String? && Current(toks, pos + 3).Identifier?
    ensures r.Ok? ==> r.value == Parsed(ImportStatement(toks[pos + 1].str, toks[pos + 3].name), pos + 4)
  {
    var p1 := Advance(toks, pos);
    if !Current(toks, p1).String? then Err("Expected path to file.")
    else
      var p3 := Advance(toks, Advance(toks, p1));
      if !Current(toks, p3).Identifier? then Err("Expected path to file.")
      else Ok(Parsed(ImportStatement(Current(toks, p1).str, Current(toks, p3).name), Advance(toks, p3)))
  }

  /** The part of `if_statement` before a possible `else`: the condition, the block,
      and the position after its `}`. */
  function IfHead(toks: Tokens, pos: nat): (r: Result<(CondBlock, nat)>)
    requires pos < |toks|
    decreases |toks| - pos, 10
    ensures r.Ok? ==> pos < r.value.1 <= |toks|
  {
    var c :- Expression(toks, Advance(toks, pos));
    if Current(toks, c.pos) != LeftCurly then Err("Expected '{' after if statement.")
    else
      var body :- Block(toks, Advance(toks, c.pos), []);
      Ok((CondBlock(c.value, body.value), Advance(toks, body.pos)))
  }

  /** `if_statement`, at the `if`. `else if` is flattened: the nested statement's
      first block and its else-ifs follow this one's, and its else becomes this
      one's. An empty else is no else. */
  function IfStatement(toks: Tokens, pos: nat): (r: Result<Parsed<NodeValue>>)
    requires pos < |toks|
    decreases |toks| - pos, 11
    ensures r.Ok? ==> pos < r.value.pos <= |toks|
    ensures r.Ok? ==> r.value.value.If?
    ensures r.Ok? && r.value.value.onfalse.Else? ==> |r.value.value.onfalse.elseBody| > 0
  {
    var head :- IfHead(toks, pos);
    var (first, p) := head;
    var rest :- if Current(toks, p) != KwElse then Ok(([], [], p))
      else
        var q := Advance(toks, p);
        if Current(toks, q) == LeftCurly then
          var b :- Block(toks, Advance(toks, q), []);
          Ok(([], b.value, Advance(toks, b.pos)))
        else if Current(toks, q) == KwIf then
          var inner :- IfStatement(toks, q);
          var n := inner.value;
          Ok(([n.ontrue] + n.elseifs, if n.onfalse.Else? then n.onfalse.elseBody else [], inner.pos))
        else Err("Expected '{' or 'if'.");
    var (elseifs, elseBody, end) := rest;
    Ok(Parsed(If(first, elseifs, if |elseBody| == 0 then NoElse else Else(elseBody)), end))
  }

  /** `parse`: one node per statement until the current token is `End`. Creating the
      parser takes the first token, and fails without one. */
  function Parse(toks: Tokens): (r: Result<seq<NodeValue>>)
    ensures |toks| == 0 ==> r.Err?
  {
    if |toks| == 0 then Err("called `Option::unwrap()` on a `None` value")
    else
      var nodes :- Statements(toks, 0, []);
      Ok(nodes.value)
  }

  function Statements(toks: Tokens, pos: nat, acc: seq<NodeValue>): (r: Result<Parsed<seq<NodeValue>>>)
    requires pos <= |toks|
    decreases |toks| - pos, 13
    ensures r.Ok? ==> pos <= r.value.pos <= |toks| && Current(toks, r.value.pos) == End
    ensures r.Ok? ==> |r.value.value| >= |acc| && r.value.value[..|acc|] == acc
  {
    if Current(toks, pos) == End then Ok(Parsed(acc, pos))
    else
      var s :- Statement(toks, pos);
      var r := Statements(toks, s.pos, acc + [s.value]);
      assert r.Ok? ==> r.value.value[..|acc|] == r.value.value[..|acc| + 1][..|acc|];
      r
  }

  // ------------------------------------------------------------------ properties

  /** The left fold of a first operand and (operator, operand) pairs. */
  function FoldLeft(left: NodeValue, rest: seq<(Token, NodeValue)>): NodeValue
    decreases |rest|
  {
    if |rest| == 0 then left else FoldLeft(Binary(left, rest[0].1, rest[0].0), rest[1..])
  }

  /** The tokens from `ps[0]` on read `op_1 x_1 op_2 x_2 ... op_n x_n` for
      `rest == [(op_1, x_1), ..., (op_n, x_n)]`: each `op_i` at `ps[i - 1]` is an operator
      of level `l`, its operand `x_i` ends at `ps[i]`, and no operator of the level
      follows the last operand. */
  predicate FoldSteps(toks: Tokens, l: Precedence, ps: seq<nat>, rest: seq<(Token, NodeValue)>)
    decreases |rest|
  {
    |ps| == |rest| + 1 && ps[0] <= |toks|
    && if |rest| == 0 then Current(toks, ps[0]) !in Operators(l)
       else
         ps[0] < |toks| && toks[ps[0]] == rest[0].0 && rest[0].0 in Operators(l)
         && Operand(toks, ps[0] + 1, l) == Ok(Parsed(rest[0].1, ps[1]))
         && FoldSteps(toks, l, ps[1..], rest[1..])
  }

  /** Operators of one level associate to the left: over `op_1 x_1 ... op_n x_n` the
      operator loop builds `(..((left op_1 x_1) op_2 x_2) ..) op_n x_n`. */
  lemma {:induction false} BinaryLoopFolds(toks: Tokens, l: Precedence, left: NodeValue, ps: seq<nat>,
                                           rest: seq<(Token, NodeValue)>)
    requires FoldSteps(toks, l, ps, rest) && Operated(left)
    decreases |rest|
    ensures BinaryLoop(toks, l, left, ps[0]) == Ok(Parsed(FoldLeft(left, rest), ps[|rest|]))
  {
    if |rest| > 0 {
      var left' := FoldFirst(toks, l, left, ps, rest);
      BinaryLoopFolds(toks, l, left', ps[1..], rest[1..]);
    } else {
      BinaryStop(toks, l, left, ps[0]);
    }
  }

  /** The first turn of a fold: the loop continues from the first operand's end with
      the first operator applied. */
  lemma FoldFirst(toks: Tokens, l: Precedence, left: NodeValue, ps: seq<nat>, rest: seq<(Token, NodeValue)>)
    returns (left': NodeValue)
    requires FoldSteps(toks, l, ps, rest) && Operated(left) && |rest| > 0
    ensures left' == Binary(left, rest[0].1, rest[0].0) && Operated(left')
    ensures FoldSteps(toks, l, ps[1..], rest[1..]) && ps[1..][0] <= |toks|
    ensures BinaryLoop(toks, l, left, ps[0]) == BinaryLoop(toks, l, left', ps[1..][0])
    ensures FoldLeft(left, rest) == FoldLeft(left', rest[1..]) && ps[|rest|] == ps[1..][|rest[1..]|]
  {
    left' := Binary(left, rest[0].1, rest[0].0);
    BinaryStep(toks, l, left, ps[0], rest[0].1, ps[1]);
  }

  /** The operators of the levels tighter than `l`. */
  function TighterOperators(l: Precedence): seq<Token>
    decreases Rank(l)
  {
    if l.Multiplicative? then [] else Operators(Tighter(l)) + TighterOperators(Tighter(l))
  }

  /** The next looser level, for the levels that have one. */
  function Looser(l: Precedence): Precedence
    requires !l.Logical?
  {
    match l
    case Comparison => Logical
    case Additive => Comparison
    case Multiplicative => Additive
  }

  /** The operators of the levels looser than `l`. */
  function LooserOperators(l: Precedence): seq<Token>
    decreases 9 - Rank(l)
  {
    if l.Logical? then [] else Operators(Looser(l)) + LooserOperators(Looser(l))
  }

  /** A unary operand followed by no operator of a tighter level is the operand of
      level `l` as it stands. */
  lemma {:induction false} OperandOfUnary(toks: Tokens, pos: nat, l: Precedence, v: NodeValue, p: nat)
    requires pos <= p <= |toks|
    requires UnaryExpr(toks, pos) == Ok(Parsed(v, p))
    requires Current(toks, p) !in TighterOperators(l)
    decreases Rank(l)
    ensures Operand(toks, pos, l) == Ok(Parsed(v, p))
  {
    if !l.Multiplicative? {
      var t := Tighter(l);
      assert Current(toks, p) !in Operators(t) && Current(toks, p) !in TighterOperators(t);
      OperandOfUnary(toks, pos, t, v, p);
      assert BinaryLoop(toks, t, v, p) == Ok(Parsed(v, p));
    }
  }

  /** A level's result followed by no operator of a looser level is the whole
      expression. */
  lemma {:induction false} ClimbLevels(toks: Tokens, pos: nat, l: Precedence, v: NodeValue, p: nat)
    requires pos <= p <= |toks|
    requires Level(toks, pos, l) == Ok(Parsed(v, p))
    requires Current(toks, p) !in LooserOperators(l)
    decreases 9 - Rank(l)
    ensures Expression(toks, pos) == Ok(Parsed(v, p))
  {
    if !l.Logical? {
      assert Operand(toks, pos, Looser(l)) == Level(toks, pos, l);
      ClimbLevels(toks, pos, Looser(l), v, p);
    }
  }

  /** A number literal is a unary operand on its own. */
  lemma LiteralUnary(toks: Tokens, pos: nat)
    requires pos < |toks| && toks[pos].Number?
    ensures UnaryExpr(toks, pos) == Ok(Parsed(NumberValue(toks[pos].num), pos + 1))
  {
  }

  /** One turn of the operator loop: an operator of the level and its right operand. */
  lemma BinaryStep(toks: Tokens, l: Precedence, left: NodeValue, pos: nat, right: NodeValue, q: nat)
    requires pos < |toks| && toks[pos] in Operators(l) && Operated(left)
    requires Operand(toks, pos + 1, l) == Ok(Parsed(right, q))
    ensures BinaryLoop(toks, l, left, pos) == BinaryLoop(toks, l, Binary(left, right, toks[pos]), q)
  {
  }

  /** The operator loop stops at a token that is no operator of the level. */
  lemma BinaryStop(toks: Tokens, l: Precedence, left: NodeValue, pos: nat)
    requires pos <= |toks| && Current(toks, pos) !in Operators(l) && Operated(left)
    ensures BinaryLoop(toks, l, left, pos) == Ok(Parsed(left, pos))
  {
  }

  /** A level starts with its operand and continues with the operator loop. */
  lemma LevelStart(toks: Tokens, pos: nat, l: Precedence, v: NodeValue, p: nat)
    requires pos <= |toks|
    requires Operand(toks, pos, l) == Ok(Parsed(v, p))
    ensures p <= |toks| && Level(toks, pos, l) == BinaryLoop(toks, l, v, p)
  {
  }

  /** The three operands of `1 - 2 - 3`, each a literal standing alone at the
      additive level. */
  lemma SubtractionOperands(toks: Tokens)
    requires toks == [Number(1.0), OpSub, Number(2.0), OpSub, Number(3.0)]
    ensures Operand(toks, 0, Additive) == Ok(Parsed(NumberValue(1.0), 1))
    ensures Operand(toks, 2, Additive) == Ok(Parsed(NumberValue(2.0), 3))
    ensures Operand(toks, 4, Additive) == Ok(Parsed(NumberValue(3.0), 5))
  {
    LiteralUnary(toks, 0);
    LiteralUnary(toks, 2);
    LiteralUnary(toks, 4);
    assert OpSub !in TighterOperators(Additive) && End !in TighterOperators(Additive);
    OperandOfUnary(toks, 0, Additive, NumberValue(1.0), 1);
    OperandOfUnary(toks, 2, Additive, NumberValue(2.0), 3);
    OperandOfUnary(toks, 4, Additive, NumberValue(3.0), 5);
  }

  /** `1 - 2 - 3` parses as `(1 - 2) - 3`. */
  lemma SubtractionAssociatesLeft()
    ensures Expression([Number(1.0), OpSub, Number(2.0), OpSub, Number(3.0)], 0)
            == Ok(Parsed(Binary(Binary(NumberValue(1.0), NumberValue(2.0), OpSub), NumberValue(3.0), OpSub), 5))
  {
    var toks := [Number(1.0), OpSub, Number(2.0), OpSub, Number(3.0)];
    var n1, n2, n3 := NumberValue(1.0), NumberValue(2.0), NumberValue(3.0);
    SubtractionOperands(toks);
    LevelStart(toks, 0, Additive, n1, 1);
    BinaryStep(toks, Additive, n1, 1, n2, 3);
    BinaryStep(toks, Additive, Binary(n1, n2, OpSub), 3, n3, 5);
    BinaryStop(toks, Additive, Binary(Binary(n1, n2, OpSub), n3, OpSub), 5);
    assert End !in LooserOperators(Additive);
    ClimbLevels(toks, 0, Additive, Binary(Binary(n1, n2, OpSub), n3, OpSub), 5);
  }

  /** A number literal followed by no binary operator is a whole expression. */
  lemma LiteralExpression(toks: Tokens, pos: nat)
    requires pos < |toks| && toks[pos].Number? && !IsExpressionOperator(Current(toks, pos + 1))
    ensures Expression(toks, pos) == Ok(Parsed(NumberValue(toks[pos].num), pos + 1))
  {
    var v := NumberValue(toks[pos].num);
    LiteralUnary(toks, pos);
    OperandOfUnary(toks, pos, Multiplicative, v, pos + 1);
    LevelStart(toks, pos, Multiplicative, v, pos + 1);
    BinaryStop(toks, Multiplicative, v, pos + 1);
    ClimbLevels(toks, pos, Multiplicative, v, pos + 1);
  }

  /** `a * b` over two number literals, followed by no multiplicative operator, is
      one multiplicative level. */
  lemma ProductLevel(toks: Tokens, pos: nat)
    requires pos + 2 < |toks| && toks[pos].Number? && toks[pos + 1] == OpMul && toks[pos + 2].Number?
    requires Current(toks, pos + 3) !in Operators(Multiplicative)
    ensures Level(toks, pos, Multiplicative)
            == Ok(Parsed(Binary(NumberValue(toks[pos].num), NumberValue(toks[pos + 2].num), OpMul), pos + 3))
  {
    var a, b := NumberValue(toks[pos].num), NumberValue(toks[pos + 2].num);
    LiteralUnary(toks, pos);
    LiteralUnary(toks, pos + 2);
    LevelStart(toks, pos, Multiplicative, a, pos + 1);
    BinaryStep(toks, Multiplicative, a, pos + 1, b, pos + 3);
    BinaryStop(toks, Multiplicative, Binary(a, b, OpMul), pos + 3);
  }

  /** `a + b * c` over number literals, at the end of an expression, parses as
      `a + (b * c)`: the multiplicative level binds tighter. */
  lemma ProductBindsTighter(toks: Tokens, pos: nat)
    requires pos + 4 < |toks| && toks[pos].Number? && toks[pos + 1] == OpAdd
    requires toks[pos + 2].Number? && toks[pos + 3] == OpMul && toks[pos + 4].Number?
    requires !IsExpressionOperator(Current(toks, pos + 5))
    ensures Expression(toks, pos)
            == Ok(Parsed(Binary(NumberValue(toks[pos].num),
                                Binary(NumberValue(toks[pos + 2].num), NumberValue(toks[pos + 4].num), OpMul),
                                OpAdd), pos + 5))
  {
    var a := NumberValue(toks[pos].num);
    var product := Binary(NumberValue(toks[pos + 2].num), NumberValue(toks[pos + 4].num), OpMul);
    ProductLevel(toks, pos + 2);
    assert Operand(toks, pos + 2, Additive) == Level(toks, pos + 2, Multiplicative);
    LiteralUnary(toks, pos);
    assert OpAdd !in TighterOperators(Additive);
    OperandOfUnary(toks, pos, Additive, a, pos + 1);
    LevelStart(toks, pos, Additive, a, pos + 1);
    BinaryStep(toks, Additive, a, pos + 1, product, pos + 5);
    BinaryStop(toks, Additive, Binary(a, product, OpAdd), pos + 5);
    assert Current(toks, pos + 5) !in LooserOperators(Additive);
    ClimbLevels(toks, pos, Additive, Binary(a, product, OpAdd), pos + 5);
  }

  /** `1 + 2 * 3` parses as `1 + (2 * 3)`. */
  lemma ProductExample()
    ensures Expression([Number(1.0), OpAdd, Number(2.0), OpMul, Number(3.0)], 0)
            == Ok(Parsed(Binary(NumberValue(1.0), Binary(NumberValue(2.0), NumberValue(3.0), OpMul), OpAdd), 5))
  {
    ProductBindsTighter([Number(1.0), OpAdd, Number(2.0), OpMul, Number(3.0)], 0);
  }

  /** The bitwise operators never reach the tree: every binary node any expression
      yields carries an operator of one of the four levels. */
  lemma ExpressionsAreOperated(toks: Tokens, pos: nat)
    requires pos <= |toks| && Expression(toks, pos).Ok?
    ensures Operated(Expression(toks, pos).value.value)
    ensures !Expression(toks, pos).value.value.Binary?
            || Expression(toks, pos).value.value.operator !in [BitwiseOr, BitwiseXor, BitwiseAnd]
  {
  }

  /** `!` takes a single value: `! - x` is rejected, whatever `x` is. */
  lemma NotTakesValue(toks: Tokens, pos: nat)
    requires pos + 1 < |toks| && toks[pos] == OpBang && toks[pos + 1] == OpSub
    ensures UnaryExpr(toks, pos).Err?
  {
  }

  /** `-` takes a whole unary: `- ! n` negates the negation of `n`. */
  lemma NegateTakesUnary(toks: Tokens, pos: nat)
    requires pos + 2 < |toks| && toks[pos] == OpSub && toks[pos + 1] == OpBang && toks[pos + 2].Number?
    ensures UnaryExpr(toks, pos)
            == Ok(Parsed(Unary(Unary(NumberValue(toks[pos + 2].num), Not), Negate), pos + 3))
  {
    assert UnaryExpr(toks, pos + 1)
           == Ok(Parsed(Unary(NumberValue(toks[pos + 2].num), Not), pos + 3));
  }

  /** A call's argument list accepts a comma right before the `)`: `f(n,)` is the
      call `f(n)`, and so is `f(n)` itself. */
  lemma TrailingCommaAccepted(toks: Tokens, pos: nat, name: string, n: real)
    requires pos + 4 < |toks| && toks[pos] == Identifier(name) && toks[pos + 1] == LeftParen
    requires toks[pos + 2] == Number(n) && toks[pos + 4] == RightParen
    requires toks[pos + 3] in [Comma, RightParen]
    ensures Value(toks, pos)
            == Ok(Parsed(FunctionCall(name, [NumberValue(n)]), if toks[pos + 3] == Comma then pos + 5 else pos + 4))
  {
    var close := if toks[pos + 3] == Comma then pos + 4 else pos + 3;
    OneArgumentItems(toks, pos + 2, n);
    ParsedCall(toks, pos, name, [NumberValue(n)], close);
  }

  /** One literal argument, with or without a trailing comma, up to the `)`. */
  lemma OneArgumentItems(toks: Tokens, pos: nat, n: real)
    requires pos + 2 < |toks| && toks[pos] == Number(n) && toks[pos + 2] == RightParen
    requires toks[pos + 1] in [Comma, RightParen]
    ensures Items(toks, pos, RightParen)
            == Ok(Parsed([NumberValue(n)], if toks[pos + 1] == Comma then pos + 2 else pos + 1))
  {
    LiteralExpression(toks, pos);
    assert Items(toks, pos, RightParen) == ItemsRest(toks, pos + 1, [NumberValue(n)], RightParen);
  }

  /** A name and `(` whose arguments end at the `)` at `close` is a call. */
  lemma ParsedCall(toks: Tokens, pos: nat, name: string, args: seq<NodeValue>, close: nat)
    requires pos + 2 <= |toks| && toks[pos] == Identifier(name) && toks[pos + 1] == LeftParen
    requires Items(toks, pos + 2, RightParen) == Ok(Parsed(args, close))
    requires close < |toks|
    ensures Value(toks, pos) == Ok(Parsed(FunctionCall(name, args), close + 1))
  {
  }

  /** A statement that starts with an identifier becomes an assignment exactly when
      its expression is that lone identifier followed by `=`; any other expression
      statement is kept as parsed. */
  lemma AssignmentOrExpression(toks: Tokens, pos: nat, e: Parsed<NodeValue>)
    requires pos < |toks| && toks[pos].Identifier?
    requires Expression(toks, pos) == Ok(e)
    ensures e.value.IdentifierValue? && Current(toks, e.pos) == Assign ==>
              e.pos < |toks| && Statement(toks, pos) == Assignment(toks, e.value.iden, e.pos)
    ensures !(e.value.IdentifierValue? && Current(toks, e.pos) == Assign) ==>
              Statement(toks, pos) == Ok(e)
  {
    IdentifierStatement(toks, pos);
  }

  /** The identifier case of `statement`, on its own. */
  lemma IdentifierStatement(toks: Tokens, pos: nat)
    requires pos < |toks| && toks[pos].Identifier?
    ensures Statement(toks, pos)
            == (var e :- Expression(toks, pos);
                if e.value.IdentifierValue? && Current(toks, e.pos) == Assign then
                  Assignment(toks, e.value.iden, e.pos)
                else Ok(e))
  {
  }

  /** `if c { .. } else if ..` flattens the nested statement: its first block and its
      else-ifs follow the outer block, and its else is the outer else. */
  lemma ElseIfFlattened(toks: Tokens, pos: nat, head: CondBlock, p: nat, inner: Parsed<NodeValue>)
    requires pos < |toks| && IfHead(toks, pos) == Ok((head, p))
    requires p + 1 < |toks| && toks[p] == KwElse && toks[p + 1] == KwIf
    requires IfStatement(toks, p + 1) == Ok(inner)
    ensures inner.value.If?
    ensures IfStatement(toks, pos)
            == Ok(Parsed(If(head, [inner.value.ontrue] + inner.value.elseifs, inner.value.onfalse), inner.pos))
  {
  }

  /** An `if` without `else`, or with an empty `else { }`, has no else block. */
  lemma EmptyElseIsNone(toks: Tokens, pos: nat, head: CondBlock, p: nat)
    requires pos < |toks| && IfHead(toks, pos) == Ok((head, p))
    requires Current(toks, p) != KwElse
             || (p + 2 < |toks| && toks[p] == KwElse && toks[p + 1] == LeftCurly && toks[p + 2] == RightCurly)
    ensures IfStatement(toks, pos)
            == Ok(Parsed(If(head, [], NoElse), if Current(toks, p) == KwElse then p + 3 else p))
  {
    if Current(toks, p) == KwElse {
      EmptyElseBlock(toks, pos, head, p);
    }
  }

  /** `else { }` parses as an empty block three tokens on, and so as no else. */
  lemma EmptyElseBlock(toks: Tokens, pos: nat, head: CondBlock, p: nat)
    requires pos < |toks| && IfHead(toks, pos) == Ok((head, p))
    requires p + 2 < |toks| && toks[p] == KwElse && toks[p + 1] == LeftCurly && toks[p + 2] == RightCurly
    ensures IfStatement(toks, pos) == Ok(Parsed(If(head, [], NoElse), p + 3))
  {
    assert Current(toks, p) == KwElse && Advance(toks, p) == p + 1;
    assert Current(toks, p + 1) == LeftCurly && Advance(toks, p + 1) == p + 2;
    assert Block(toks, p + 2, []) == Ok(Parsed([], p + 2));
  }

  /** The statements of a whole token sequence end at `End` with one node per
      statement, in order: an empty remainder adds nothing, and otherwise the first
      statement's node comes first. */
  lemma StatementsInOrder(toks: Tokens, pos: nat, acc: seq<NodeValue>)
    requires pos <= |toks|
    ensures Current(toks, pos) == End ==> Statements(toks, pos, acc) == Ok(Parsed(acc, pos))
    ensures Current(toks, pos) != End && Statement(toks, pos).Ok? ==>
              var s := Statement(toks, pos).value;
              Statements(toks, pos, acc) == Statements(toks, s.pos, acc + [s.value])
    ensures Current(toks, pos) != End && Statement(toks, pos).Err? ==> Statements(toks, pos, acc).Err?
  {
  }
}
