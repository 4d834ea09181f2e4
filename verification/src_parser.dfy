/** The third generation's parser (`src/parser.rs`): each token group the lexer
made becomes one expression tree, split by bracket depth.

Every `raise` in the parser prints a message and ends the process; here it is an
`Err` carrying that message. The line context a `raise` prints is not modelled.
`parse_mul_div` visits every multiplicative operator, at any bracket depth, and
keeps the split made at the last one, re-parsing the tokens before it as one
value; `asWritten` selects that behaviour, and `asWritten == false` the evidently
intended split at the first operator outside brackets, the way
`parse_expression` splits at `+` and `-`.
 */
module SrcParser {
  import opened Wrappers
  import L = SrcLexer

  type Token = L.Token

  datatype Node =
    | Unary(v: Token)
    | FunctionCall(name: string, args: seq<Node>)
    | List(items: seq<Node>)
    | Binary(a: Node, b: Node, o: string)

  const ADD_OPS: seq<string> := ["+", "-"]
  const MUL_OPS: seq<string> := ["*", "/", "%", "^", ">>", "<<"]

  const EXPECTED_VALUE := "Expected string, int, float, list or function call."
  const ONE_VALUE := "Expected only one value. Perhaps you forgot a comma?"
  const UNCLOSED := "Unexpected opening parenthesis. Perhaps you forgot to close them?"
  const INVALID_SYNTAX := "Invalid syntax. Perhaps you forgot a comma?"
  const EXPECTED_PAREN := "Expected parenthesis after function name."

  predicate IsOpening(t: Token) { t.LParen? || t.LCurly? || t.LSquare? }
  predicate IsClosing(t: Token) { t.RParen? || t.RCurly? || t.RSquare? }

  /** The height of the bracket stack after `t`: an opening bracket pushes, a
      closing one pops, and popping an empty stack leaves it empty. */
  function Step(d: nat, t: Token): nat {
    if IsOpening(t) then d + 1
    else if IsClosing(t) then (if d == 0 then 0 else d - 1)
    else d
  }

  /** The height of the bracket stack after `ts`, starting from height `d`. */
  function Depth(d: nat, ts: seq<Token>): nat
    decreases |ts|
  {
    if |ts| == 0 then d else Step(Depth(d, ts[..|ts| - 1]), ts[|ts| - 1])
  }

  /** `t` is one of the operators `ops`. */
  predicate IsOp(t: Token, ops: seq<string>) {
    t.Operator? && t.s in ops
  }

  /** Index `k` holds one of `ops` outside every bracket. */
  predicate TopLevelAt(ts: seq<Token>, ops: seq<string>, k: nat)
    requires k < |ts|
  {
    IsOp(ts[k], ops) && Depth(0, ts[..k]) == 0
  }

  /** Where the loop that looks for one of `ops` outside brackets stops, from
      index `i` with stack height `d`: that operator's index, or the end. */
  function SplitAt(ts: seq<Token>, ops: seq<string>, i: nat, d: nat): (k: nat)
    requires i <= |ts|
    decreases |ts| - i
    ensures i <= k <= |ts|
    ensures k < |ts| ==> IsOp(ts[k], ops)
  {
    if i == |ts| then |ts|
    else if IsOp(ts[i], ops) && d == 0 then i
    else SplitAt(ts, ops, i + 1, Step(d, ts[i]))
  }

  /** The loop of `has_operators` from index `i` with stack height `d`. */
  function HasOperatorsFrom(ts: seq<Token>, ops: seq<string>, i: nat, d: nat): (r: bool)
    requires i <= |ts|
    decreases |ts| - i
    ensures r <==> SplitAt(ts, ops, i, d) < |ts|
  {
    if i == |ts| then false
    else if IsOpening(ts[i]) || IsClosing(ts[i]) then HasOperatorsFrom(ts, ops, i + 1, Step(d, ts[i]))
    else if IsOp(ts[i], ops) && d == 0 then true
    else HasOperatorsFrom(ts, ops, i + 1, d)
  }

  /** `has_operators`: one of `ops` occurs outside every bracket. */
  function HasOperators(ts: seq<Token>, ops: seq<string>): bool {
    HasOperatorsFrom(ts, ops, 0, 0)
  }

  /** The stack height after one more token. */
  lemma DepthSnoc(ts: seq<Token>, i: nat)
    requires i < |ts|
    ensures Depth(0, ts[..i + 1]) == Step(Depth(0, ts[..i]), ts[i])
  {
    assert ts[..i + 1][..i] == ts[..i];
  }

  /** The split loop stops at the first operator of `ops` outside brackets at or
      after `i`, and finds none when it reaches the end. */
  lemma {:induction false} SplitMeaning(ts: seq<Token>, ops: seq<string>, i: nat, d: nat)
    requires i <= |ts| && d == Depth(0, ts[..i])
    decreases |ts| - i
    ensures var k := SplitAt(ts, ops, i, d);
      (k < |ts| ==> TopLevelAt(ts, ops, k))
      && (forall j :: i <= j < k ==> !TopLevelAt(ts, ops, j))
  {
    if i < |ts| && !(IsOp(ts[i], ops) && d == 0) {
      DepthSnoc(ts, i);
      SplitMeaning(ts, ops, i + 1, Step(d, ts[i]));
    }
  }

  /** `has_operators` holds exactly when some index holds one of `ops` outside
      every bracket, and the first such index is where the expression splits. */
  lemma HasOperatorsMeaning(ts: seq<Token>, ops: seq<string>)
    ensures HasOperators(ts, ops) <==> exists k :: 0 <= k < |ts| && TopLevelAt(ts, ops, k)
    ensures var k := SplitAt(ts, ops, 0, 0);
      k < |ts| ==> TopLevelAt(ts, ops, k) && forall j :: 0 <= j < k ==> !TopLevelAt(ts, ops, j)
  {
    assert ts[..0] == [];
    SplitMeaning(ts, ops, 0, 0);
  }

  const COMMA: Token := L.Operator(",")

  /** The elements joined back together with a comma between neighbours. */
  function JoinCommas(es: seq<seq<Token>>): seq<Token>
    requires |es| > 0
    decreases |es|
  {
    if |es| == 1 then es[0] else es[0] + [COMMA] + JoinCommas(es[1..])
  }

  /** The loop of `parse_list` that cuts the tokens into elements at each comma
      outside brackets, from index `i` with stack height `d`. */
  function SplitFrom(ts: seq<Token>, i: nat, d: nat, es: seq<seq<Token>>): (r: seq<seq<Token>>)
    requires i <= |ts| && |es| > 0
    requires forall j :: 0 <= j < |es| ==> |es[j]| <= i
    decreases |ts| - i
    ensures |r| > 0
    ensures forall j :: 0 <= j < |r| ==> |r[j]| <= |ts|
  {
    if i == |ts| then es
    else if ts[i] == COMMA && d == 0 then SplitFrom(ts, i + 1, d, es + [[]])
    else SplitFrom(ts, i + 1, Step(d, ts[i]), L.AddToken(es, ts[i]))
  }

  /** The elements of a list or an argument list. */
  function SplitList(ts: seq<Token>): (r: seq<seq<Token>>)
    ensures |r| > 0
    ensures forall j :: 0 <= j < |r| ==> |r[j]| <= |ts|
  {
    SplitFrom(ts, 0, 0, [[]])
  }

  /** Adding a token to the last element adds it at the end of the joined text. */
  lemma {:induction false} JoinAddToken(es: seq<seq<Token>>, t: Token)
    requires |es| > 0
    decreases |es|
    ensures JoinCommas(L.AddToken(es, t)) == JoinCommas(es) + [t]
  {
    var r := L.AddToken(es, t);
    if |es| > 1 {
      assert r[1..] == L.AddToken(es[1..], t);
      JoinAddToken(es[1..], t);
      assert r[0] == es[0];
    } else {
      assert r == [es[0] + [t]];
    }
  }

  /** Starting a new element adds a comma at the end of the joined text. */
  lemma {:induction false} JoinNewElement(es: seq<seq<Token>>)
    requires |es| > 0
    decreases |es|
    ensures JoinCommas(es + [[]]) == JoinCommas(es) + [COMMA]
  {
    var r := es + [[]];
    assert r[0] == es[0];
    if |es| > 1 {
      assert r[1..] == es[1..] + [[]];
      JoinNewElement(es[1..]);
    } else {
      assert r[1..] == [[]];
    }
  }

  /** The split loses and adds nothing: joining what it made so far with the rest
      of the text gives the whole text back. */
  lemma {:induction false} SplitFromJoins(ts: seq<Token>, i: nat, d: nat, es: seq<seq<Token>>)
    requires i <= |ts| && |es| > 0
    requires forall j :: 0 <= j < |es| ==> |es[j]| <= i
    requires JoinCommas(es) == ts[..i]
    decreases |ts| - i
    ensures JoinCommas(SplitFrom(ts, i, d, es)) == ts
  {
    if i == |ts| {
      assert ts[..i] == ts;
    } else {
      assert ts[..i + 1] == ts[..i] + [ts[i]];
      if ts[i] == COMMA && d == 0 {
        JoinNewElement(es);
        SplitFromJoins(ts, i + 1, d, es + [[]]);
      } else {
        JoinAddToken(es, ts[i]);
        SplitFromJoins(ts, i + 1, Step(d, ts[i]), L.AddToken(es, ts[i]));
      }
    }
  }

  /** Joining the elements with commas gives back the tokens they were cut
      from. */
  lemma SplitListJoins(ts: seq<Token>)
    ensures JoinCommas(SplitList(ts)) == ts
  {
    assert ts[..0] == [];
    SplitFromJoins(ts, 0, 0, [[]]);
  }

  /** `parse_list`: the elements parsed in order; the first failure ends the
      parse. An empty list, or an empty element, fails as an empty value. */
  function ParseList(ts: seq<Token>, asWritten: bool): (r: Result<seq<Node>>)
    decreases |ts|, 4, 0
    ensures r.Ok? ==> |r.value| == |SplitList(ts)|
  {
    ParseElements(SplitList(ts), |ts|, asWritten)
  }

  function ParseElements(es: seq<seq<Token>>, n: nat, asWritten: bool): (r: Result<seq<Node>>)
    requires forall j :: 0 <= j < |es| ==> |es[j]| <= n
    decreases n, 3, |es|
    ensures r.Ok? ==> |r.value| == |es|
  {
    if |es| == 0 then Ok([])
    else
      var first :- ParseExpression(es[0], asWritten);
      var rest :- ParseElements(es[1..], n, asWritten);
      Ok([first] + rest)
  }

  /** `parse_function_call`: the name, then `(`, the arguments, `)`; `f()` has no
      arguments. */
  function ParseFunctionCall(ts: seq<Token>, asWritten: bool): (r: Result<Node>)
    requires |ts| >= 2
    decreases |ts|, 0, 0
    ensures r.Ok? ==> r.value.FunctionCall?
    ensures r.Ok? <==>
      (ts[1].LParen? && ts[|ts| - 1].RParen? && (|ts| == 3 || ParseList(ts[2..|ts| - 1], asWritten).Ok?))
  {
    var name := if ts[0].Identifier? then ts[0].s else "NaN";
    if !ts[1].LParen? then Err(EXPECTED_PAREN)
    else if !ts[|ts| - 1].RParen? then Err(INVALID_SYNTAX)
    else if |ts| == 3 then Ok(FunctionCall(name, []))
    else
      var args :- ParseList(ts[2..|ts| - 1], asWritten);
      Ok(FunctionCall(name, args))
  }

  /** A literal token: a string, a number or a formatted string. */
  predicate IsLiteral(t: Token) {
    t.Str? || t.Int? || t.Float? || t.FormattedStr?
  }

  /** `parse_value`: a literal or a name alone, a call, or a bracketed list. */
  function ParseValue(ts: seq<Token>, asWritten: bool): (r: Result<Node>)
    decreases |ts|, 0, 1
    ensures |ts| == 0 ==> r == Err(EXPECTED_VALUE)
    ensures r.Ok? && r.value.Unary? ==> ts == [r.value.v] && (IsLiteral(r.value.v) || r.value.v.Identifier?)
    ensures r.Ok? ==> !r.value.Binary?
  {
    if |ts| == 0 then Err(EXPECTED_VALUE)
    else if IsLiteral(ts[0]) then
      if |ts| == 1 then Ok(Unary(ts[0])) else Err(ONE_VALUE)
    else if ts[0].Identifier? then
      if |ts| == 1 then Ok(Unary(ts[0]))
      else if |ts| == 2 then Err(if ts[1].LParen? then UNCLOSED else ONE_VALUE)
      else ParseFunctionCall(ts, asWritten)
    else if ts[0].LSquare? then
      if ts[|ts| - 1].RSquare? then
        var items :- ParseList(ts[1..|ts| - 1], asWritten);
        Ok(List(items))
      else Err(INVALID_SYNTAX)
    else Err(EXPECTED_VALUE)
  }

  /** `parse_mul_div`. */
  function ParseMulDiv(ts: seq<Token>, asWritten: bool): (r: Result<Node>)
    decreases |ts|, 1, |ts| + 2
    ensures r.Ok? ==> r.value.Binary?
  {
    if asWritten then MulDivLoop(ts, 0, Binary(Unary(L.Int(0)), Unary(L.Int(0)), " "), asWritten)
    else
      var k := SplitAt(ts, MUL_OPS, 0, 0);
      if k == |ts| then Ok(Binary(Unary(L.Int(0)), Unary(L.Int(0)), " "))
      else MulDivSplit(ts, k, asWritten)
  }

  /** The tokens before operator `k` as one value, the operator, and the tokens
      after it as a product or a value. */
  function MulDivSplit(ts: seq<Token>, k: nat, asWritten: bool): (r: Result<Node>)
    requires k < |ts| && ts[k].Operator?
    decreases |ts|, 1, |ts| - k
    ensures r.Ok? ==> r.value.Binary? && r.value.o == ts[k].s
  {
    var l :- ParseValue(ts[..k], asWritten);
    var r :- ParseProduct(ts[k + 1..], asWritten);
    Ok(Binary(l, r, ts[k].s))
  }

  /** A product when the tokens hold a multiplicative operator outside
      brackets, else a single value. */
  function ParseProduct(ts: seq<Token>, asWritten: bool): (r: Result<Node>)
    decreases |ts|, 1, |ts| + 3
  {
    if HasOperators(ts, MUL_OPS) then ParseMulDiv(ts, asWritten) else ParseValue(ts, asWritten)
  }

  /** The loop of `parse_mul_div` as written: every multiplicative operator,
      inside brackets or not, splits the whole token list again, and the last
      split is kept. */
  function MulDivLoop(ts: seq<Token>, idx: nat, acc: Node, asWritten: bool): (r: Result<Node>)
    requires idx <= |ts| && acc.Binary?
    decreases |ts|, 1, |ts| - idx + 1
    ensures r.Ok? ==> r.value.Binary?
  {
    if idx == |ts| then Ok(acc)
    else if IsOp(ts[idx], MUL_OPS) then
      var next :- MulDivSplit(ts, idx, asWritten);
      MulDivLoop(ts, idx + 1, next, asWritten)
    else MulDivLoop(ts, idx + 1, acc, asWritten)
  }

  /** `parse_expression`: a sum when the tokens hold `+` or `-` outside
      brackets, else a product or a value. */
  function ParseExpression(ts: seq<Token>, asWritten: bool): (r: Result<Node>)
    decreases |ts|, 2, 1
  {
    if HasOperators(ts, ADD_OPS) then ParseSum(ts, SplitAt(ts, ADD_OPS, 0, 0), asWritten)
    else ParseProduct(ts, asWritten)
  }

  /** A sum split at operator `k`: the tokens before it are a product or a
      value, the tokens after it the rest of the sum. */
  function ParseSum(ts: seq<Token>, k: nat, asWritten: bool): (r: Result<Node>)
    requires k < |ts| && ts[k].Operator?
    decreases |ts|, 2, 0
    ensures r.Ok? ==> r.value.Binary? && r.value.o == ts[k].s
  {
    var ln :- ParseProduct(ts[..k], asWritten);
    var rn :- ParseExpression(ts[k + 1..], asWritten);
    Ok(Binary(ln, rn, ts[k].s))
  }

  /** `parse`: one tree per non-empty token group, in order. */
  function Parse(groups: seq<seq<Token>>, asWritten: bool): (r: Result<seq<Node>>)
    decreases |groups|
    ensures r.Ok? ==> |r.value| == |NonEmpty(groups)|
  {
    if |groups| == 0 then Ok([])
    else if |groups[0]| == 0 then Parse(groups[1..], asWritten)
    else
      var n :- ParseExpression(groups[0], asWritten);
      var rest :- Parse(groups[1..], asWritten);
      Ok([n] + rest)
  }

  /** The groups that hold at least one token. */
  function NonEmpty(groups: seq<seq<Token>>): seq<seq<Token>>
    decreases |groups|
  {
    if |groups| == 0 then []
    else if |groups[0]| == 0 then NonEmpty(groups[1..])
    else [groups[0]] + NonEmpty(groups[1..])
  }

  /** The tokens a tree stands for: the operands around their operator, a call's
      name and its arguments in parentheses, a list's items in square brackets,
      and neighbouring arguments or items separated by commas. */
  function Unparse(n: Node): seq<Token>
    decreases n, 1
  {
    match n
    case Unary(t) => [t]
    case FunctionCall(name, args) => [L.Identifier(name), L.LParen] + UnparseItems(args) + [L.RParen]
    case List(items) => [L.LSquare] + UnparseItems(items) + [L.RSquare]
    case Binary(a, b, o) => Unparse(a) + [L.Operator(o)] + Unparse(b)
  }

  function UnparseItems(ns: seq<Node>): seq<Token>
    decreases ns, 0
  {
    if |ns| == 0 then []
    else if |ns| == 1 then Unparse(ns[0])
    else Unparse(ns[0]) + [COMMA] + UnparseItems(ns[1..])
  }

  /** Each tree's tokens, in order. */
  function UnparseAll(ns: seq<Node>): (r: seq<seq<Token>>)
    decreases |ns|
    ensures |r| == |ns|
  {
    if |ns| == 0 then [] else [Unparse(ns[0])] + UnparseAll(ns[1..])
  }

  // Parsing loses no token and invents none: whenever a parse succeeds, the
  // tree stands for exactly the tokens it was parsed from. This holds for the
  // code as written as well as for the corrected product split.

  lemma {:induction false} ExpressionUnparse(ts: seq<Token>, asWritten: bool)
    requires ParseExpression(ts, asWritten).Ok?
    decreases |ts|, 2, 1
    ensures Unparse(ParseExpression(ts, asWritten).value) == ts
  {
    if HasOperators(ts, ADD_OPS) {
      SumUnparse(ts, SplitAt(ts, ADD_OPS, 0, 0), asWritten);
    } else {
      ProductUnparse(ts, asWritten);
    }
  }

  lemma {:induction false} SumUnparse(ts: seq<Token>, k: nat, asWritten: bool)
    requires k < |ts| && ts[k].Operator? && ParseSum(ts, k, asWritten).Ok?
    decreases |ts|, 2, 0
    ensures Unparse(ParseSum(ts, k, asWritten).value) == ts
  {
    ProductUnparse(ts[..k], asWritten);
    ExpressionUnparse(ts[k + 1..], asWritten);
    assert ts == ts[..k] + [L.Operator(ts[k].s)] + ts[k + 1..];
  }

  lemma {:induction false} ProductUnparse(ts: seq<Token>, asWritten: bool)
    requires ParseProduct(ts, asWritten).Ok?
    decreases |ts|, 1, |ts| + 3
    ensures Unparse(ParseProduct(ts, asWritten).value) == ts
  {
    if HasOperators(ts, MUL_OPS) {
      MulDivUnparse(ts, asWritten);
    } else {
      ValueUnparse(ts, asWritten);
    }
  }

  lemma {:induction false} MulDivUnparse(ts: seq<Token>, asWritten: bool)
    requires HasOperators(ts, MUL_OPS) && ParseMulDiv(ts, asWritten).Ok?
    decreases |ts|, 1, |ts| + 2
    ensures Unparse(ParseMulDiv(ts, asWritten).value) == ts
  {
    if asWritten {
      LoopUnparse(ts, 0, Binary(Unary(L.Int(0)), Unary(L.Int(0)), " "), asWritten);
    } else {
      SplitUnparse(ts, SplitAt(ts, MUL_OPS, 0, 0), asWritten);
    }
  }

  lemma {:induction false} SplitUnparse(ts: seq<Token>, k: nat, asWritten: bool)
    requires k < |ts| && ts[k].Operator? && MulDivSplit(ts, k, asWritten).Ok?
    decreases |ts|, 1, |ts| - k
    ensures Unparse(MulDivSplit(ts, k, asWritten).value) == ts
  {
    ValueUnparse(ts[..k], asWritten);
    ProductUnparse(ts[k + 1..], asWritten);
    assert ts == ts[..k] + [L.Operator(ts[k].s)] + ts[k + 1..];
  }

  lemma {:induction false} LoopUnparse(ts: seq<Token>, idx: nat, acc: Node, asWritten: bool)
    requires idx <= |ts| && acc.Binary? && MulDivLoop(ts, idx, acc, asWritten).Ok?
    requires Unparse(acc) == ts || exists j :: idx <= j < |ts| && IsOp(ts[j], MUL_OPS)
    decreases |ts|, 1, |ts| - idx + 1
    ensures Unparse(MulDivLoop(ts, idx, acc, asWritten).value) == ts
  {
    if idx < |ts| {
      if IsOp(ts[idx], MUL_OPS) {
        SplitUnparse(ts, idx, asWritten);
        LoopUnparse(ts, idx + 1, MulDivSplit(ts, idx, asWritten).value, asWritten);
      } else {
        LoopUnparse(ts, idx + 1, acc, asWritten);
      }
    }
  }

  lemma {:induction false} ValueUnparse(ts: seq<Token>, asWritten: bool)
    requires ParseValue(ts, asWritten).Ok?
    decreases |ts|, 0, 1
    ensures Unparse(ParseValue(ts, asWritten).value) == ts
  {
    if ts[0].Identifier? && |ts| > 2 {
      CallUnparse(ts, asWritten);
    } else if ts[0].LSquare? {
      var inner := ts[1..|ts| - 1];
      ListUnparse(inner, asWritten);
      assert ts == [L.LSquare] + inner + [L.RSquare];
    }
  }

  lemma {:induction false} CallUnparse(ts: seq<Token>, asWritten: bool)
    requires |ts| >= 2 && ts[0].Identifier? && ParseFunctionCall(ts, asWritten).Ok?
    decreases |ts|, 0, 0
    ensures Unparse(ParseFunctionCall(ts, asWritten).value) == ts
  {
    var head := [L.Identifier(ts[0].s), L.LParen];
    if |ts| == 3 {
      assert ts == head + [L.RParen];
    } else {
      var inner := ts[2..|ts| - 1];
      ListUnparse(inner, asWritten);
      assert ts == head + inner + [L.RParen];
    }
  }

  lemma {:induction false} ListUnparse(ts: seq<Token>, asWritten: bool)
    requires ParseList(ts, asWritten).Ok?
    decreases |ts|, 4, 0
    ensures UnparseItems(ParseList(ts, asWritten).value) == ts
  {
    ElementsUnparse(SplitList(ts), |ts|, asWritten);
    SplitListJoins(ts);
  }

  lemma {:induction false} ElementsUnparse(es: seq<seq<Token>>, n: nat, asWritten: bool)
    requires |es| > 0 && forall j :: 0 <= j < |es| ==> |es[j]| <= n
    requires ParseElements(es, n, asWritten).Ok?
    decreases n, 3, |es|
    ensures UnparseItems(ParseElements(es, n, asWritten).value) == JoinCommas(es)
  {
    var ns := ParseElements(es, n, asWritten).value;
    ExpressionUnparse(es[0], asWritten);
    if |es| > 1 {
      ElementsUnparse(es[1..], n, asWritten);
      assert ns[1..] == ParseElements(es[1..], n, asWritten).value;
    }
  }

  /** Each tree of a parsed program stands for one non-empty group, in order. */
  lemma {:induction false} ParseUnparse(groups: seq<seq<Token>>, asWritten: bool)
    requires Parse(groups, asWritten).Ok?
    decreases |groups|
    ensures UnparseAll(Parse(groups, asWritten).value) == NonEmpty(groups)
  {
    if |groups| > 0 {
      if |groups[0]| > 0 {
        ExpressionUnparse(groups[0], asWritten);
        var ns := Parse(groups, asWritten).value;
        ParseUnparse(groups[1..], asWritten);
        assert ns[1..] == Parse(groups[1..], asWritten).value;
      } else {
        ParseUnparse(groups[1..], asWritten);
      }
    }
  }

  /** A literal or a name on its own. */
  predicate IsLeaf(n: Node) {
    n.Unary? && (IsLiteral(n.v) || n.v.Identifier?)
  }

  /** A product the way `parse_mul_div` builds one: a leaf, or a leaf times a
      product. */
  predicate IsProduct(n: Node)
    decreases n
  {
    IsLeaf(n) || (n.Binary? && n.o in MUL_OPS && IsLeaf(n.a) && IsProduct(n.b))
  }

  /** A sum the way `parse_expression` builds one: a product, or a product plus
      a sum. */
  predicate IsSum(n: Node)
    decreases n
  {
    IsProduct(n) || (n.Binary? && n.o in ADD_OPS && IsProduct(n.a) && IsSum(n.b))
  }

  /** No bracket and no operator of `ops` from index `i` up to `j`. */
  predicate Plain(ts: seq<Token>, ops: seq<string>, i: nat, j: nat)
    requires i <= j <= |ts|
  {
    forall k :: i <= k < j ==> !IsOp(ts[k], ops) && !IsOpening(ts[k]) && !IsClosing(ts[k])
  }

  /** The split loop walks over a plain stretch without stopping. */
  lemma {:induction false} SkipPlain(ts: seq<Token>, ops: seq<string>, i: nat, j: nat)
    requires i <= j <= |ts| && Plain(ts, ops, i, j)
    decreases j - i
    ensures SplitAt(ts, ops, i, 0) == SplitAt(ts, ops, j, 0)
  {
    if i < j {
      SkipPlain(ts, ops, i + 1, j);
    }
  }

  /** The corrected parser reads a product's tokens back as that product: a
      leaf as a value, a chain of multiplicative operators split at the first
      one. */
  lemma {:induction false} ProductParses(n: Node)
    requires IsProduct(n)
    decreases n
    ensures var ts := Unparse(n);
      Plain(ts, ADD_OPS, 0, |ts|)
      && (HasOperators(ts, MUL_OPS) <==> n.Binary?)
      && ParseProduct(ts, false) == Ok(n)
  {
    if n.Binary? {
      ProductParses(n.b);
      var tb := Unparse(n.b);
      var ts := Unparse(n);
      assert ts == [n.a.v, L.Operator(n.o)] + tb;
      assert SplitAt(ts, MUL_OPS, 0, 0) == 1;
      assert ts[..1] == [n.a.v] && ts[2..] == tb;
      assert MulDivSplit(ts, 1, false) == Ok(n);
    }
  }

  /** The corrected parser reads a sum's tokens back as that sum: the tokens
      stand for exactly one tree of this shape. */
  lemma {:induction false} SumParses(n: Node)
    requires IsSum(n)
    decreases n
    ensures HasOperators(Unparse(n), ADD_OPS) <==> !IsProduct(n)
    ensures ParseExpression(Unparse(n), false) == Ok(n)
  {
    var ts := Unparse(n);
    if IsProduct(n) {
      ProductParses(n);
      SkipPlain(ts, ADD_OPS, 0, |ts|);
    } else {
      ProductParses(n.a);
      SumParses(n.b);
      var ta := Unparse(n.a);
      var tb := Unparse(n.b);
      assert ts == ta + [L.Operator(n.o)] + tb;
      assert Plain(ts, ADD_OPS, 0, |ta|);
      SkipPlain(ts, ADD_OPS, 0, |ta|);
      assert ts[..|ta|] == ta && ts[|ta| + 1..] == tb;
      assert ParseSum(ts, |ta|, false) == Ok(n);
    }
  }

  /** `2 * 3 * 4`. */
  function ThreeFactors(): seq<Token> {
    [L.Int(2), L.Operator("*"), L.Int(3), L.Operator("*"), L.Int(4)]
  }

  /** The product `2 * 3 * 4`, grouped from the right like every chain the
      parser builds. */
  function ThreeFactorsTree(): Node {
    Binary(Unary(L.Int(2)), Binary(Unary(L.Int(3)), Unary(L.Int(4)), "*"), "*")
  }

  /** As written, `2 * 3 * 4` is rejected: at the second `*` the loop re-parses
      `2 * 3` as a single value. */
  lemma ThreeFactorsAsWritten()
    ensures ParseExpression(ThreeFactors(), true) == Err(ONE_VALUE)
  {
    var ts := ThreeFactors();
    assert !HasOperators(ts, ADD_OPS);
    assert HasOperators(ts, MUL_OPS);
    var first := MulDivSplit(ts, 1, true);
    assert ts[..1] == [L.Int(2)] && ts[2..] == [L.Int(3), L.Operator("*"), L.Int(4)];
    ThreeFactorsTail();
    assert first.Ok?;
    assert ts[..3] == [L.Int(2), L.Operator("*"), L.Int(3)];
    assert MulDivSplit(ts, 3, true) == Err(ONE_VALUE);
    assert MulDivLoop(ts, 3, first.value, true) == Err(ONE_VALUE);
  }

  /** `3 * 4` alone parses on either path. */
  lemma ThreeFactorsTail()
    ensures ParseProduct([L.Int(3), L.Operator("*"), L.Int(4)], true).Ok?
  {
    var ts := [L.Int(3), L.Operator("*"), L.Int(4)];
    assert HasOperators(ts, MUL_OPS);
    assert ts[..1] == [L.Int(3)] && ts[2..] == [L.Int(4)];
    assert !HasOperators([L.Int(4)], MUL_OPS);
    assert MulDivSplit(ts, 1, true).Ok?;
    assert MulDivLoop(ts, 2, MulDivSplit(ts, 1, true).value, true).Ok?;
  }

  /** The corrected split reads `2 * 3 * 4` as the product it spells. */
  lemma ThreeFactorsCorrected()
    ensures ParseExpression(ThreeFactors(), false) == Ok(ThreeFactorsTree())
  {
    SumParses(ThreeFactorsTree());
    assert Unparse(ThreeFactorsTree()) == ThreeFactors();
  }

  /** An empty list literal `[]` is rejected: its one element is empty. */
  lemma EmptyListRejected(asWritten: bool)
    ensures ParseExpression([L.LSquare, L.RSquare], asWritten) == Err(EXPECTED_VALUE)
  {
    var ts := [L.LSquare, L.RSquare];
    assert !HasOperators(ts, ADD_OPS) && !HasOperators(ts, MUL_OPS);
    var empty: seq<Token> := [];
    assert ts[1..|ts| - 1] == empty;
    assert SplitList(empty) == [[]];
  }
}
