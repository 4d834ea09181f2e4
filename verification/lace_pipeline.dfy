/** The second generation end to end: `lacec` compiles a syntax tree into a
constant pool and an instruction chunk (which its command line serializes into an
`.o` file), and `lace` runs that chunk on a new machine over the same pool.
 */
module LacePipeline {
  import opened Wrappers
  import opened LacecCommon
  import I = LacecInstruction
  import T = LacecToken
  import ConstantPool
  import LacecCompiler
  import LaceVm
  import LaceMacros

  /** Compiles a program and runs it. */
  function CompileAndRun(source: seq<Node>, fuel: nat): (r: Result<(Outcome<Value>, LaceVm.Machine)>)
    ensures r.Ok? <==> LacecCompiler.Compile(source, []).Ok?
    ensures r.Ok? ==> r.value.1.constants == LacecCompiler.Compile(source, []).value.constants
    ensures r.Ok? && r.value.0.Returned? ==> r.value.1.frames == []
  {
    var st :- LacecCompiler.Compile(source, []);
    Ok(LaceVm.Execute(st.constants, st.code, fuel))
  }

  /** `let x = 2; writeln!(x + 3)`. */
  function Example(): seq<Node> {
    [VariableDeclr("x", ValueNode(Number(2)), false, Dynamic),
     PrimitiveFunctionCall("writeln!", [Binary(ValueNode(Identifier("x")), ValueNode(Number(3)), T.OpAdd)])]
  }

  /** The example compiles to a pool holding the literal, the variable name, the
      primitive's name and the second literal, in that order of first use, and to a
      chunk that stores `x`, loads it back and prints the sum. */
  lemma ExampleCompiles()
    ensures LacecCompiler.Compile(Example(), []) == Ok(LacecCompiler.State(ExamplePool(), ExampleCode()))
  {
    var s0 := LacecCompiler.State([], []);
    DeclarationCompiles();
    CallCompiles();
    assert Example()[1..][1..] == [];
    assert LacecCompiler.CompileNodes(Example()[1..], Declared()) == Ok(LacecCompiler.State(ExamplePool(), ExampleCode()));
    assert LacecCompiler.CompileNodes(Example(), s0) == LacecCompiler.CompileNodes(Example()[1..], Declared());
  }

  /** `let x = 2` stores the literal and the name. */
  lemma DeclarationCompiles()
    ensures LacecCompiler.CompileNode(Example()[0], LacecCompiler.State([], [])) == Ok(Declared())
  {
    var s0 := LacecCompiler.State([], []);
    var s1 := LacecCompiler.State([Number(2)], [I.LoadConstant(0)]);
    assert Example()[0] == VariableDeclr("x", ValueNode(Number(2)), false, Dynamic);
    LiteralLoads();
    NameStored();
    LacecCompiler.DeclarationFrom("x", ValueNode(Number(2)), false, Dynamic, s0, s1);
  }

  lemma LiteralLoads()
    ensures LacecCompiler.CompileExpression(ValueNode(Number(2)), LacecCompiler.State([], []))
            == Ok(LacecCompiler.State([Number(2)], [I.LoadConstant(0)]))
  {
    var empty: seq<Value> := [];
    var none: seq<I.Instruction> := [];
    assert ConstantPool.FirstIndex(empty, Number(2)) == 0;
    assert empty + [Number(2)] == [Number(2)];
    assert none + [I.LoadConstant(0)] == [I.LoadConstant(0)];
    assert ConstantPool.AddConstant(empty, Number(2)) == ([Number(2)], 0);
    assert LacecCompiler.Load(LacecCompiler.State([], []), Number(2))
        == LacecCompiler.State([Number(2)], [I.LoadConstant(0)]);
  }

  lemma NameStored()
    ensures LacecCompiler.AssignTo(LacecCompiler.State([Number(2)], [I.LoadConstant(0)]), "x") == Declared()
  {
    var empty: seq<Value> := [];
    assert [Number(2)][1..] == empty;
    assert ConstantPool.FirstIndex([Number(2)], Identifier("x")) == 1;
    assert [Number(2)] + [Identifier("x")] == [Number(2), Identifier("x")];
    assert ConstantPool.AddConstant([Number(2)], Identifier("x")) == ([Number(2), Identifier("x")], 1);
    assert [I.LoadConstant(0)] + [I.AssignVariable(1)] == [I.LoadConstant(0), I.AssignVariable(1)];
  }

  /** The pool and chunk after `let x = 2`. */
  function Declared(): LacecCompiler.State {
    LacecCompiler.State([Number(2), Identifier("x")], [I.LoadConstant(0), I.AssignVariable(1)])
  }

  /** The state after the argument `x + 3` of `writeln!`: the primitive's name is
      already in the pool. */
  function Summed(): LacecCompiler.State {
    LacecCompiler.State(ExamplePool(), Declared().code + [I.LoadVariable(1), I.LoadConstant(3), I.Add])
  }

  /** `writeln!(x + 3)` adds the primitive's name, then loads `x` by name and the
      literal by index. */
  lemma CallCompiles()
    ensures LacecCompiler.CompileNode(Example()[1], Declared()) == Ok(LacecCompiler.State(ExamplePool(), ExampleCode()))
  {
    assert Example()[1] == PrimitiveFunctionCall("writeln!", [SumNode()]);
    PrimitiveCallCompiles();
  }

  /** `x + 3`, the one argument of the example's call. */
  function SumNode(): Node {
    Binary(ValueNode(Identifier("x")), ValueNode(Number(3)), T.OpAdd)
  }

  lemma PrimitiveCallCompiles()
    ensures LacecCompiler.CompileExpression(PrimitiveFunctionCall("writeln!", [SumNode()]), Declared())
            == Ok(LacecCompiler.State(ExamplePool(), ExampleCode()))
  {
    var pool := [Number(2), Identifier("x"), Identifier("writeln!")];
    PoolLookups();
    assert Declared().constants + [Identifier("writeln!")] == pool;
    assert ConstantPool.AddConstant(Declared().constants, Identifier("writeln!")) == (pool, 2);
    SumCompiles();
    LacecCompiler.OneArgumentFrom(SumNode(), LacecCompiler.State(pool, Declared().code), Summed());
    LacecCompiler.PrimitiveCallFrom("writeln!", [SumNode()], Declared(), pool, 2, Summed());
    assert Summed().code + [I.CallPrimitiveFunction(1, 2)] == ExampleCode();
  }

  lemma SumCompiles()
    ensures LacecCompiler.CompileExpression(SumNode(),
              LacecCompiler.State([Number(2), Identifier("x"), Identifier("writeln!")], Declared().code))
            == Ok(Summed())
  {
    var a0 := LacecCompiler.State(CallPool(), Declared().code);
    var a1 := LacecCompiler.State(CallPool(), a0.code + [I.LoadVariable(1)]);
    var a2 := LacecCompiler.State(ExamplePool(), a1.code + [I.LoadConstant(3)]);
    NameLoads();
    LiteralThreeLoads();
    AddInstruction();
    LacecCompiler.BinaryFrom(ValueNode(Identifier("x")), ValueNode(Number(3)), T.OpAdd, a0, a1, a2, I.Add);
    assert a2.code + [I.Add] == Summed().code;
  }

  lemma AddInstruction()
    ensures LacecCompiler.BinaryInstruction(T.OpAdd) == Ok(I.Add)
  {
  }

  /** The pool once the primitive's name is in it. */
  function CallPool(): seq<Value> {
    [Number(2), Identifier("x"), Identifier("writeln!")]
  }

  /** `x` is loaded by its name's index. */
  lemma NameLoads()
    ensures LacecCompiler.CompileExpression(ValueNode(Identifier("x")), LacecCompiler.State(CallPool(), Declared().code))
            == Ok(LacecCompiler.State(CallPool(), Declared().code + [I.LoadVariable(1)]))
  {
    PoolLookups();
    assert ConstantPool.AddConstant(CallPool(), Identifier("x")) == (CallPool(), 1);
  }

  /** The literal 3 is new, so it goes to the end of the pool. */
  lemma LiteralThreeLoads()
    ensures var code := Declared().code + [I.LoadVariable(1)];
      LacecCompiler.CompileExpression(ValueNode(Number(3)), LacecCompiler.State(CallPool(), code))
      == Ok(LacecCompiler.State(ExamplePool(), code + [I.LoadConstant(3)]))
  {
    PoolLookups();
    assert CallPool() + [Number(3)] == ExamplePool();
    assert ConstantPool.AddConstant(CallPool(), Number(3)) == (ExamplePool(), 3);
  }

  /** Where the example's names and literals are found in the growing pool. */
  lemma PoolLookups()
    ensures ConstantPool.FirstIndex([Number(2), Identifier("x")], Identifier("writeln!")) == 2
    ensures ConstantPool.FirstIndex([Number(2), Identifier("x"), Identifier("writeln!")], Identifier("x")) == 1
    ensures ConstantPool.FirstIndex([Number(2), Identifier("x"), Identifier("writeln!")], Number(3)) == 3
  {
    var p := [Number(2), Identifier("x"), Identifier("writeln!")];
    assert p[1..] == [Identifier("x"), Identifier("writeln!")];
    assert p[1..][1..] == [Identifier("writeln!")];
    assert p[1..][1..][1..] == [];
    assert p[..2][1..] == [Identifier("x")];
    assert p[..2][1..][1..] == [];
    assert p[..2] == [Number(2), Identifier("x")];
  }

  function ExamplePool(): seq<Value> {
    [Number(2), Identifier("x"), Identifier("writeln!"), Number(3)]
  }

  function ExampleCode(): seq<I.Instruction> {
    [I.LoadConstant(0), I.AssignVariable(1), I.LoadVariable(1), I.LoadConstant(3), I.Add,
     I.CallPrimitiveFunction(1, 2)]
  }

  /** The machine before instruction `ip` of the example's run. */
  function ExampleState(ip: nat): LaceVm.Machine
    requires ip <= 6
  {
    var pool := ExamplePool();
    var globals := map["x" := Number(2)];
    if ip == 0 then LaceVm.New(pool)
    else if ip == 1 then LaceVm.Machine([Number(2)], pool, [map[]], [])
    else if ip == 2 then LaceVm.Machine([], pool, [globals], [])
    else if ip == 3 then LaceVm.Machine([Number(2)], pool, [globals], [])
    else if ip == 4 then LaceVm.Machine([Number(2), Number(3)], pool, [globals], [])
    else if ip == 5 then LaceVm.Machine([Number(5)], pool, [globals], [])
    else LaceVm.Machine([], pool, [globals], [[Number(5)]])
  }

  /** Each instruction of the example moves to the next state. */
  lemma ExampleStep(ip: nat, fuel: nat)
    requires ip < 6
    ensures LaceVm.Step(ExampleCode(), ip, ExampleState(ip), fuel) == LaceVm.Continue(ip + 1, ExampleState(ip + 1))
  {
    if ip == 4 {
      assert Add(Number(2), Number(3)) == Ok(Number(5));
    } else if ip == 5 {
      PrintStep(fuel);
    }
  }

  /** `writeln!` pops its one argument and records it as printed. */
  lemma PrintStep(fuel: nat)
    ensures LaceVm.Step(ExampleCode(), 5, ExampleState(5), fuel) == LaceVm.Continue(6, ExampleState(6))
  {
    var m := ExampleState(5);
    assert ExampleCode()[5] == I.CallPrimitiveFunction(1, 2);
    assert LaceVm.ConstantName(m, 2) == Ok("writeln!");
    assert m.stack[..0] == [] && m.stack[0..] == [Number(5)];
    assert LaceMacros.Printable(Number(5));
  }

  /** From instruction `ip`, the rest of the example runs to the end. */
  lemma {:induction false} ExampleRunsFrom(ip: nat)
    requires ip <= 6
    decreases 6 - ip
    ensures LaceVm.Run(ExampleCode(), ip, ExampleState(ip), 7 - ip)
            == (Returned(Value.None), ExampleState(6).(frames := []))
  {
    if ip < 6 {
      ExampleStep(ip, 6 - ip);
      ExampleRunsFrom(ip + 1);
    }
  }

  /** Running the compiled example prints `5` once, returns `None`, and pops the
      global frame on the way out. */
  lemma ExampleRuns()
    ensures CompileAndRun(Example(), 7) == Ok((Returned(Value.None),
      LaceVm.Machine([], ExamplePool(), [], [[Number(5)]])))
  {
    ExampleCompiles();
    ExampleExecutes();
  }

  lemma ExampleExecutes()
    ensures LaceVm.Execute(ExamplePool(), ExampleCode(), 7)
            == (Returned(Value.None), LaceVm.Machine([], ExamplePool(), [], [[Number(5)]]))
  {
    var final := LaceVm.Machine([], ExamplePool(), [], [[Number(5)]]);
    ExampleRunsFrom(0);
    assert ExampleState(0) == LaceVm.New(ExamplePool());
    assert ExampleState(6).(frames := []) == final;
    assert LaceVm.Run(ExampleCode(), 0, LaceVm.New(ExamplePool()), 7) == (Returned(Value.None), final);
  }
}
