/** The third generation's compiler (`src/compiler.rs`): an expression tree
becomes postfix code in a flat word stream, operands loaded through a
deduplicated constant pool.

`compile` matches a `Node::Assignment` variant that `src/parser.rs` does not
declare; the model gives `compile` its own input, a statement that is an
assignment or any other tree, and `compile` skips the latter as the source's
`_ => {}` does. `raise_internal` is not part of this model: its failures are an
`Err` carrying the internal code it is given.
 */
module SrcCompiler {
  import opened Wrappers
  import L = SrcLexer
  import P = SrcParser
  import opened SrcOpcode
  import ConstantPool

  const BAD_LITERAL := "0001"
  const BAD_OPERATOR := "0002"

  /** `to_literal`: strings, formatted strings and names become strings, numbers
      keep their value; any other token is an internal error. */
  function ToLiteral(t: L.Token): (r: Result<Value>)
    ensures r.Ok? <==> P.IsLiteral(t) || t.Identifier?
    ensures r.Err? ==> r.msg == BAD_LITERAL
    ensures r.Ok? && t.Int? ==> r.value == Integer(t.n)
    ensures r.Ok? && t.Float? ==> r.value == Float(t.x)
    ensures r.Ok? && (t.Str? || t.FormattedStr? || t.Identifier?) ==> r.value == String(t.s)
  {
    match t
    case Str(s) => Ok(String(s))
    case FormattedStr(s) => Ok(String(s))
    case Int(n) => Ok(Integer(n))
    case Float(x) => Ok(Float(x))
    case Identifier(s) => Ok(String(s))
    case _ => Err(BAD_LITERAL)
  }

  /** The opcodes an operator compiles to. */
  predicate IsArithmetic(c: OpCode) {
    c.Add? || c.Sub? || c.Mul? || c.Div? || c.Mod? || c.Pow? || c.RShift? || c.LShift?
  }

  /** How an arithmetic opcode is spelled in the source text. */
  function Spelling(c: OpCode): string
    requires IsArithmetic(c)
  {
    match c
    case Add => "+"
    case Sub => "-"
    case Mul => "*"
    case Div => "/"
    case Mod => "%"
    case Pow => "^"
    case RShift => ">>"
    case LShift => "<<"
  }

  /** `get_operator_opcode`. */
  function OperatorOpcode(o: string): (r: Result<Code>)
    ensures r.Err? ==> r.msg == BAD_OPERATOR
    ensures r.Ok? ==> r.value.Op? && IsArithmetic(r.value.op)
  {
    if o == "+" then Ok(Op(Add))
    else if o == "-" then Ok(Op(Sub))
    else if o == "*" then Ok(Op(Mul))
    else if o == "/" then Ok(Op(Div))
    else if o == "%" then Ok(Op(Mod))
    else if o == "^" then Ok(Op(Pow))
    else if o == ">>" then Ok(Op(RShift))
    else if o == "<<" then Ok(Op(LShift))
    else Err(BAD_OPERATOR)
  }

  /** An operator compiles exactly when the parser splits at it, and to the one
      arithmetic opcode spelled that way. */
  lemma OperatorOpcodeMeaning(o: string, c: OpCode)
    ensures OperatorOpcode(o).Ok? <==> o in P.ADD_OPS || o in P.MUL_OPS
    ensures OperatorOpcode(o) == Ok(Op(c)) <==> IsArithmetic(c) && Spelling(c) == o
  {
  }

  /** The code of one expression appended to `co`: a leaf loads its constant
      (a name as a variable, then a formatted string is formatted), a binary
      node its two operands and then the operator, a list its items and then
      builds the list; a function call adds nothing. */
  function CompileExpression(n: P.Node, co: CodeObject): (r: Result<CodeObject>)
    decreases n, 1
    ensures r.Ok? ==> co.code <= r.value.code && co.constants <= r.value.constants
  {
    match n
    case Unary(v) =>
      var lit :- ToLiteral(v);
      Ok(LoadLeaf(v, lit, co))
    case Binary(a, b, o) =>
      var c1 :- CompileExpression(a, co);
      var c2 :- CompileExpression(b, c1);
      var op :- OperatorOpcode(o);
      Ok(AddCode(c2, op))
    case List(items) =>
      var c :- CompileItems(items, co);
      Ok(AddCode(AddCode(c, Op(BuildList)), Number(|items|)))
    case FunctionCall(_, _) => Ok(co)
  }

  /** A leaf `v` whose constant is `lit`. */
  function LoadLeaf(v: L.Token, lit: Value, co: CodeObject): (r: CodeObject)
    ensures co.code <= r.code && co.constants <= r.constants
  {
    var (co1, idx) := AddConstant(co, lit);
    var co2 := AddCode(co1, Op(if v.Identifier? then LoadVariable else LoadConst));
    var co3 := AddCode(co2, Number(idx));
    if v.FormattedStr? then AddCode(co3, Op(FormatString)) else co3
  }

  function CompileItems(items: seq<P.Node>, co: CodeObject): (r: Result<CodeObject>)
    decreases items, 0
    ensures r.Ok? ==> co.code <= r.value.code && co.constants <= r.value.constants
  {
    if |items| == 0 then Ok(co)
    else
      var c :- CompileExpression(items[0], co);
      CompileItems(items[1..], c)
  }

  /** What `compile` is given: an assignment, or any other tree, which it
      skips. */
  datatype Statement = Assignment(name: string, value: P.Node) | Other(node: P.Node)

  /** `compile`: every assignment's value, then its name loaded as a constant,
      then `AssignVar`. */
  function Compile(statements: seq<Statement>): (r: Result<CodeObject>) {
    CompileFrom(statements, Empty())
  }

  function CompileFrom(statements: seq<Statement>, co: CodeObject): (r: Result<CodeObject>)
    decreases |statements|
    ensures r.Ok? ==> co.code <= r.value.code && co.constants <= r.value.constants
  {
    if |statements| == 0 then Ok(co)
    else
      var next :- CompileStatement(statements[0], co);
      CompileFrom(statements[1..], next)
  }

  function CompileStatement(s: Statement, co: CodeObject): (r: Result<CodeObject>)
    ensures r.Ok? ==> co.code <= r.value.code && co.constants <= r.value.constants
  {
    match s
    case Other(_) => Ok(co)
    case Assignment(name, value) =>
      var c1 :- CompileExpression(value, co);
      var (c2, idx) := AddConstant(c1, String(name));
      Ok(AddCode(AddCode(AddCode(c2, Op(LoadConst)), Number(idx)), Op(AssignVar)))
  }

  // The partner of the compiler: reading the word stream back as postfix
  // instructions gives the tree's postfix form, however the pool was shared.

  /** One instruction of the stream, with its constant looked up. */
  datatype Instr =
    | Push(v: Value)
    | Load(name: string)
    | Format
    | Build(n: nat)
    | Apply(op: OpCode)
    | Assign

  /** The first instruction of a stream and how many words it takes:
      `LoadConst`, `LoadVariable` and `BuildList` take the number after them; a
      stray number, a missing one, or an index outside the pool makes it
      unreadable. */
  function Head(words: seq<Code>, pool: seq<Value>): (r: Option<(Instr, nat)>)
    requires |words| > 0
    ensures r.Some? ==> 1 <= r.value.1 <= |words|
  {
    if !words[0].Op? then None
    else
      var c := words[0].op;
      if c.LoadConst? || c.LoadVariable? || c.BuildList? then
        if |words| < 2 || !words[1].Number? then None
        else
          var k := words[1].n;
          if c.BuildList? then Some((Build(k), 2))
          else if k >= |pool| then None
          else if c.LoadConst? then Some((Push(pool[k]), 2))
          else if pool[k].String? then Some((Load(pool[k].s), 2))
          else None
      else Some((if c.FormatString? then Format else if c.AssignVar? then Assign else Apply(c), 1))
  }

  /** The word stream read as instructions, one after another. */
  function Decode(words: seq<Code>, pool: seq<Value>): (r: Option<seq<Instr>>)
    decreases |words|
  {
    if |words| == 0 then Some([])
    else
      match Head(words, pool)
      case None => None
      case Some((ins, w)) =>
        match Decode(words[w..], pool)
        case None => None
        case Some(rest) => Some([ins] + rest)
  }

  /** A stream that is exactly one instruction. */
  lemma DecodeSingle(words: seq<Code>, pool: seq<Value>)
    requires |words| > 0 && Head(words, pool).Some? && Head(words, pool).value.1 == |words|
    ensures Decode(words, pool) == Some([Head(words, pool).value.0])
  {
    var (ins, w) := Head(words, pool).value;
    assert words[w..] == [];
    assert Decode(words[w..], pool) == Some([]);
    assert [ins] + [] == [ins];
  }

  /** The trees the compiler accepts: leaves that are literals or names, and
      operators it has an opcode for. */
  predicate Compilable(n: P.Node)
    decreases n
  {
    match n
    case Unary(v) => P.IsLiteral(v) || v.Identifier?
    case Binary(a, b, o) => Compilable(a) && Compilable(b) && OperatorOpcode(o).Ok?
    case List(items) => forall m :: m in items ==> Compilable(m)
    case FunctionCall(_, _) => true
  }

  /** The postfix form of a tree: operands before their operator, items before
      the list they build; a leaf is pushed as its constant, or loaded by name. */
  function Postfix(n: P.Node): seq<Instr>
    requires Compilable(n)
    decreases n, 1
  {
    match n
    case Unary(v) =>
      if v.Identifier? then [Load(v.s)]
      else [Push(ToLiteral(v).value)] + (if v.FormattedStr? then [Format] else [])
    case Binary(a, b, o) => Postfix(a) + Postfix(b) + [Apply(OperatorOpcode(o).value.op)]
    case List(items) => PostfixItems(items) + [Build(|items|)]
    case FunctionCall(_, _) => []
  }

  function PostfixItems(items: seq<P.Node>): seq<Instr>
    requires forall m :: m in items ==> Compilable(m)
    decreases items, 0
  {
    if |items| == 0 then [] else Postfix(items[0]) + PostfixItems(items[1..])
  }

  /** The postfix form of a program: each assignment's value, then its name
      pushed and assigned. */
  function ProgramPostfix(statements: seq<Statement>): seq<Instr>
    requires forall s :: s in statements ==> StatementCompilable(s)
    decreases |statements|
  {
    if |statements| == 0 then []
    else
      var s := statements[0];
      assert s in statements;
      assert StatementCompilable(s);
      assert s.Assignment? ==> Compilable(s.value);
      var here := if s.Assignment? then Postfix(s.value) + [Push(String(s.name)), Assign] else [];
      here + ProgramPostfix(statements[1..])
  }

  predicate StatementCompilable(s: Statement) {
    s.Assignment? ==> Compilable(s.value)
  }

  /** A nonempty stream reads as its first instruction, then the rest. */
  lemma DecodeUnfold(words: seq<Code>, pool: seq<Value>)
    requires |words| > 0 && Head(words, pool).Some?
    requires Decode(words[Head(words, pool).value.1..], pool).Some?
    ensures Decode(words, pool)
      == Some([Head(words, pool).value.0] + Decode(words[Head(words, pool).value.1..], pool).value)
  {
  }

  /** Two readable streams read as one. */
  lemma {:induction false} DecodeAppend(a: seq<Code>, b: seq<Code>, pool: seq<Value>)
    requires Decode(a, pool).Some? && Decode(b, pool).Some?
    decreases |a|
    ensures Decode(a + b, pool) == Some(Decode(a, pool).value + Decode(b, pool).value)
  {
    var y := Decode(b, pool).value;
    if |a| > 0 {
      var (ins, w) := Head(a, pool).value;
      var rest := a[w..];
      assert Decode(rest, pool).Some?;
      var x := Decode(rest, pool).value;
      assert Decode(a, pool).value == [ins] + x by {
        DecodeUnfold(a, pool);
      }
      assert Decode(rest + b, pool) == Some(x + y) by {
        DecodeAppend(rest, b, pool);
      }
      assert Decode(a + b, pool) == Some([ins] + (x + y)) by {
        HeadPrefix(a, b, pool);
        assert (a + b)[w..] == rest + b;
        DecodeUnfold(a + b, pool);
      }
      assert [ins] + (x + y) == [ins] + x + y;
    } else {
      assert a + b == b;
      assert [] + y == y;
    }
  }

  /** The first instruction depends on the first words only. */
  lemma HeadPrefix(a: seq<Code>, b: seq<Code>, pool: seq<Value>)
    requires |a| > 0 && Head(a, pool).Some?
    ensures Head(a + b, pool) == Head(a, pool)
  {
    assert (a + b)[0] == a[0];
    if |a| >= 2 {
      assert (a + b)[1] == a[1];
    }
  }

  /** A stream reads the same against a larger pool that starts with the old
      one. */
  lemma {:induction false} DecodeGrow(words: seq<Code>, pool: seq<Value>, bigger: seq<Value>)
    requires pool <= bigger && Decode(words, pool).Some?
    decreases |words|
    ensures Decode(words, bigger) == Decode(words, pool)
  {
    if |words| > 0 {
      assert Head(words, bigger) == Head(words, pool);
      DecodeGrow(words[Head(words, pool).value.1..], pool, bigger);
    }
  }

  /** The words added to `co` to get `r`. */
  function Added(co: CodeObject, r: CodeObject): seq<Code>
    requires co.code <= r.code
  {
    r.code[|co.code|..]
  }

  /** Words added in two steps read as what each step added. */
  lemma Chain(co: CodeObject, c: CodeObject, r: CodeObject, p1: seq<Instr>, p2: seq<Instr>)
    requires co.code <= c.code <= r.code && c.constants <= r.constants
    requires Decode(Added(co, c), c.constants) == Some(p1)
    requires Decode(Added(c, r), r.constants) == Some(p2)
    ensures Decode(Added(co, r), r.constants) == Some(p1 + p2)
  {
    var x, y := Added(co, c), Added(c, r);
    assert Added(co, r) == x + y by {
      assert r.code == c.code + y;
      assert c.code == co.code + x;
    }
    DecodeGrow(x, c.constants, r.constants);
    DecodeAppend(x, y, r.constants);
  }

  /** A step that adds no word reads as nothing. */
  lemma NoWords(co: CodeObject, r: CodeObject)
    requires co.code == r.code
    ensures Decode(Added(co, r), r.constants) == Some([])
  {
    assert Added(co, r) == [];
  }

  /** One opcode without an operand. */
  lemma OneWord(c: CodeObject, op: OpCode)
    requires !(op.LoadConst? || op.LoadVariable? || op.BuildList?)
    ensures Decode(Added(c, AddCode(c, Op(op))), c.constants)
      == Some([if op.FormatString? then Format else if op.AssignVar? then Assign else Apply(op)])
  {
    assert Added(c, AddCode(c, Op(op))) == [Op(op)];
    DecodeSingle([Op(op)], c.constants);
  }

  /** One opcode and its operand. */
  lemma TwoWords(c: CodeObject, op: OpCode, k: nat)
    requires op.LoadConst? || op.LoadVariable? || op.BuildList?
    requires Head([Op(op), Number(k)], c.constants).Some?
    ensures Decode(Added(c, AddCode(AddCode(c, Op(op)), Number(k))), c.constants)
      == Some([Head([Op(op), Number(k)], c.constants).value.0])
  {
    assert Added(c, AddCode(AddCode(c, Op(op)), Number(k))) == [Op(op), Number(k)];
    DecodeSingle([Op(op), Number(k)], c.constants);
  }

  /** A leaf's words read back as the leaf's postfix form. */
  lemma LeafDecodes(v: L.Token, co: CodeObject)
    requires P.IsLiteral(v) || v.Identifier?
    ensures var r := LoadLeaf(v, ToLiteral(v).value, co);
      Decode(Added(co, r), r.constants) == Some(Postfix(P.Unary(v)))
  {
    var lit := ToLiteral(v).value;
    var (co1, idx) := AddConstant(co, lit);
    var op := if v.Identifier? then LoadVariable else LoadConst;
    var co3 := AddCode(AddCode(co1, Op(op)), Number(idx));
    NoWords(co, co1);
    TwoWords(co1, op, idx);
    var load := if v.Identifier? then Load(v.s) else Push(lit);
    assert Head([Op(op), Number(idx)], co1.constants) == Some((load, 2));
    Chain(co, co1, co3, [], [load]);
    if v.FormattedStr? {
      OneWord(co3, FormatString);
      Chain(co, co3, AddCode(co3, Op(FormatString)), [load], [Format]);
    }
  }

  /** The compiler accepts exactly the compilable trees, and the words it adds
      read back as the tree's postfix form against the pool it leaves. */
  lemma {:induction false} CompileDecodes(n: P.Node, co: CodeObject)
    decreases n, 1
    ensures CompileExpression(n, co).Ok? <==> Compilable(n)
    ensures CompileExpression(n, co).Ok? ==>
      var r := CompileExpression(n, co).value;
      Decode(Added(co, r), r.constants) == Some(Postfix(n))
  {
    match n
    case Unary(v) =>
      if P.IsLiteral(v) || v.Identifier? {
        LeafDecodes(v, co);
      }
    case Binary(a, b, o) =>
      CompileDecodes(a, co);
      if Compilable(a) {
        var c1 := CompileExpression(a, co).value;
        CompileDecodes(b, c1);
        if Compilable(b) && OperatorOpcode(o).Ok? {
          var c2 := CompileExpression(b, c1).value;
          var op := OperatorOpcode(o).value.op;
          Chain(co, c1, c2, Postfix(a), Postfix(b));
          OneWord(c2, op);
          Chain(co, c2, AddCode(c2, Op(op)), Postfix(a) + Postfix(b), [Apply(op)]);
        }
      }
    case List(items) =>
      ItemsDecode(items, co);
      if forall m :: m in items ==> Compilable(m) {
        var c := CompileItems(items, co).value;
        var k := |items|;
        TwoWords(c, BuildList, k);
        Chain(co, c, AddCode(AddCode(c, Op(BuildList)), Number(k)), PostfixItems(items), [Build(k)]);
      }
    case FunctionCall(_, _) =>
      NoWords(co, co);
  }

  lemma {:induction false} ItemsDecode(items: seq<P.Node>, co: CodeObject)
    decreases items, 0
    ensures CompileItems(items, co).Ok? <==> forall m :: m in items ==> Compilable(m)
    ensures CompileItems(items, co).Ok? ==>
      var r := CompileItems(items, co).value;
      Decode(Added(co, r), r.constants) == Some(PostfixItems(items))
  {
    if |items| == 0 {
      NoWords(co, co);
    } else {
      CompileDecodes(items[0], co);
      assert forall m :: m in items <==> m == items[0] || m in items[1..];
      if Compilable(items[0]) {
        var c := CompileExpression(items[0], co).value;
        ItemsDecode(items[1..], c);
        if CompileItems(items[1..], c).Ok? {
          Chain(co, c, CompileItems(items[1..], c).value, Postfix(items[0]), PostfixItems(items[1..]));
        }
      }
    }
  }

  /** The words after an assignment's value: its name pushed, then assigned. */
  lemma AssignTail(name: string, c1: CodeObject)
    ensures var (c2, idx) := AddConstant(c1, String(name));
      var r := AddCode(AddCode(AddCode(c2, Op(LoadConst)), Number(idx)), Op(AssignVar));
      Decode(Added(c1, r), r.constants) == Some([Push(String(name)), Assign])
  {
    var (c2, idx) := AddConstant(c1, String(name));
    var c3 := AddCode(AddCode(c2, Op(LoadConst)), Number(idx));
    NoWords(c1, c2);
    TwoWords(c2, LoadConst, idx);
    assert Head([Op(LoadConst), Number(idx)], c2.constants) == Some((Push(String(name)), 2));
    Chain(c1, c2, c3, [], [Push(String(name))]);
    assert [] + [Push(String(name))] == [Push(String(name))];
    OneWord(c3, AssignVar);
    Chain(c1, c3, AddCode(c3, Op(AssignVar)), [Push(String(name))], [Assign]);
    assert [Push(String(name))] + [Assign] == [Push(String(name)), Assign];
  }

  /** An assignment's words read as its value's postfix form, then its name
      pushed and assigned. */
  lemma StatementDecodes(s: Statement, co: CodeObject)
    ensures CompileStatement(s, co).Ok? <==> StatementCompilable(s)
    ensures CompileStatement(s, co).Ok? ==>
      var r := CompileStatement(s, co).value;
      Decode(Added(co, r), r.constants)
        == Some(if s.Assignment? then Postfix(s.value) + [Push(String(s.name)), Assign] else [])
  {
    if s.Assignment? {
      CompileDecodes(s.value, co);
      if Compilable(s.value) {
        var c1 := CompileExpression(s.value, co).value;
        AssignTail(s.name, c1);
        Chain(co, c1, CompileStatement(s, co).value, Postfix(s.value), [Push(String(s.name)), Assign]);
      }
    } else {
      NoWords(co, co);
    }
  }

  /** The program compiles exactly when every assignment's value does, and its
      whole stream reads back as the program's postfix form. */
  lemma {:induction false} ProgramDecodes(statements: seq<Statement>, co: CodeObject)
    decreases |statements|
    ensures CompileFrom(statements, co).Ok? <==> forall s :: s in statements ==> StatementCompilable(s)
    ensures CompileFrom(statements, co).Ok? ==>
      var r := CompileFrom(statements, co).value;
      Decode(Added(co, r), r.constants) == Some(ProgramPostfix(statements))
  {
    if |statements| == 0 {
      NoWords(co, co);
    } else {
      StatementDecodes(statements[0], co);
      assert forall s :: s in statements <==> s == statements[0] || s in statements[1..];
      if StatementCompilable(statements[0]) {
        var c := CompileStatement(statements[0], co).value;
        ProgramDecodes(statements[1..], c);
        if CompileFrom(statements[1..], c).Ok? {
          var s := statements[0];
          var here := if s.Assignment? then Postfix(s.value) + [Push(String(s.name)), Assign] else [];
          Chain(co, c, CompileFrom(statements[1..], c).value, here, ProgramPostfix(statements[1..]));
        }
      }
    }
  }

  /** `compile` succeeds exactly when every assignment's value is compilable,
      and its word stream, read against its pool, is the program's postfix
      form. */
  lemma CompileRoundTrip(statements: seq<Statement>)
    ensures Compile(statements).Ok? <==> forall s :: s in statements ==> StatementCompilable(s)
    ensures Compile(statements).Ok? ==>
      Decode(Compile(statements).value.code, Compile(statements).value.constants)
        == Some(ProgramPostfix(statements))
  {
    ProgramDecodes(statements, Empty());
    if Compile(statements).Ok? {
      assert Added(Empty(), Compile(statements).value) == Compile(statements).value.code;
    }
  }

  /** The compiled pool never holds a constant twice. */
  lemma {:induction false} PoolDistinct(statements: seq<Statement>)
    requires Compile(statements).Ok?
    ensures ConstantPool.Distinct(Compile(statements).value.constants)
  {
    DistinctFrom(statements, Empty());
  }

  lemma {:induction false} DistinctFrom(statements: seq<Statement>, co: CodeObject)
    requires ConstantPool.Distinct(co.constants) && CompileFrom(statements, co).Ok?
    decreases |statements|
    ensures ConstantPool.Distinct(CompileFrom(statements, co).value.constants)
  {
    if |statements| > 0 {
      var s := statements[0];
      if s.Assignment? {
        ExpressionDistinct(s.value, co);
        var c1 := CompileExpression(s.value, co).value;
        ConstantPool.AddConstantKeepsDistinct(c1.constants, String(s.name));
      }
      DistinctFrom(statements[1..], CompileStatement(s, co).value);
    }
  }

  lemma {:induction false} ExpressionDistinct(n: P.Node, co: CodeObject)
    requires ConstantPool.Distinct(co.constants) && CompileExpression(n, co).Ok?
    decreases n, 1
    ensures ConstantPool.Distinct(CompileExpression(n, co).value.constants)
  {
    match n
    case Unary(v) =>
      ConstantPool.AddConstantKeepsDistinct(co.constants, ToLiteral(v).value);
    case Binary(a, b, o) =>
      ExpressionDistinct(a, co);
      ExpressionDistinct(b, CompileExpression(a, co).value);
    case List(items) =>
      ItemsDistinct(items, co);
    case FunctionCall(_, _) =>
  }

  lemma {:induction false} ItemsDistinct(items: seq<P.Node>, co: CodeObject)
    requires ConstantPool.Distinct(co.constants) && CompileItems(items, co).Ok?
    decreases items, 0
    ensures ConstantPool.Distinct(CompileItems(items, co).value.constants)
  {
    if |items| > 0 {
      ExpressionDistinct(items[0], co);
      ItemsDistinct(items[1..], CompileExpression(items[0], co).value);
    }
  }
}
