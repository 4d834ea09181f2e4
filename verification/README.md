# lace-lang in Dafny

A model of the core of lace-lang, a small scripting language written in Rust,
with proofs about it. The repository holds three generations of the same
toolchain. Each generation has a front end, a bytecode compiler and a stack
virtual machine. The model keeps each generation's own datatypes and does not
reconcile them.

- **Generation A** (`compiler/` and `hlvm/`).
  - `CompilerAst` and `CompilerParser`: the recursive-descent parser over a token sequence.
  - `CompilerTypecheck`: the operator/type table and the checker.
  - `CompilerCodegen`: lowering of the tree to HIR.
  - `HlvmHir`: lowering of HIR to LIR, including the backpatched `if` and `while` jumps.
  - `HlvmLir`, `HlvmModule`, `HlvmDev` and `HlvmVm`: the high-level virtual machine.
    This covers its values, the `system` module, the value operations, the call frames and the dispatch loop.
- **Generation B** (`lacec/` and `lace/`).
  - `LacecToken`, `LacecInstruction` and `LacecCommon`: the tokens, the instruction set, and the `i32` value operations with truthiness.
  - `LacecCompiler`: the compiler with its deduplicating constant pool and `while` patching.
  - `LaceMacros`: the `writeln!` renderer.
  - `LaceVm`: the frame-based virtual machine.
  - `LacePipeline`: a compiled-and-run example.
- **Generation C** (`src/`).
  - `SrcLexer`: the line lexer.
  - `SrcParser`: the bracket-depth expression splitter.
  - `SrcOpcode` and `SrcCompiler`: the word-stream compiler.
  - `VmOpcode`, `VmCommon`, `VmArithmetic`, `VmMacro` and `VmRun`: the straight-line virtual machine and its checked 64-bit arithmetic.
  - `ValueOperation`, `ValueConversion` and `ValueException`: the 32-bit value layer with explicit conversion.
- Shared helpers.
  - `Wrappers`: `Option` and `Result`.
  - `ConstantPool`: the deduplicating pool used by generations B and C. Generation B's `Constants::add_constant` and generation C's two `CodeObject::add_constant`s are the same function over their own value types.
  - `Ints`: integer ranges, truncating division, decimal text, `repeat`.
  - `Floats`: floats as exact reals.

Every operation is a pure function. A Rust `panic!`, `unwrap` on `None` or
`raise` becomes an `Err` or failure outcome carrying the source's message. The
virtual machines run on a fuel budget, and a run that exhausts it ends in a
distinct `NoFuel` outcome. Every virtual machine records what it prints in its
state instead of writing it: the HLVM machine keeps the printed values, the
`lace` machine its `writeln!` argument lists, and the `src/` machine its output
lines and variable dumps. The `println!` debugging lines of the compilers are
not modelled (see Left out).

Where the source has a bug, both versions exist in the model. The as-written
one exhibits the bug. The corrected one is what the rest of the model uses (see
Findings).

## Model

| member | source | states |
|---|---|---|
| HlvmLir.FalsyValues | hlvm/src/lir.rs:30-40 | exactly three values are falsy: `Number(0.0)`, the empty string and `false`; every other value is truthy |
| HlvmLir.CompoundValuesTruthy | hlvm/src/lir.rs:35-38 | functions, builtins, blueprints and instances are truthy whatever they contain |
| HlvmModule.System | hlvm/src/module.rs:5-16 | the system module is an instance with exactly the fields `print` (primitive 0, one argument) and `exit` (primitive 1, no arguments) |
| HlvmDev.Initialize | hlvm/src/dev.rs:23-30 | instantiation succeeds exactly on a blueprint and gives an instance whose fields are the blueprint's attributes |
| HlvmDev.GetAttr | hlvm/src/dev.rs:33-41 | `get` succeeds exactly on an instance that has the field, and yields that field's value |
| HlvmDev.SetAttr | hlvm/src/dev.rs:43-51 | `set` succeeds exactly on an instance; the updated instance has the old fields plus the written one |
| HlvmDev.GetAfterSet | hlvm/src/dev.rs:33-51 | after a successful `set`, `get` of the written field yields the new value and every other field reads as before |
| HlvmDev.AddAsWritten | hlvm/src/dev.rs:87-97 | `add` as written succeeds exactly on two numbers or two strings; other pairs panic |
| HlvmDev.AddAsWrittenIgnoresRight | hlvm/src/dev.rs:90-94 | for two strings the result is the left string followed by the two characters `_b`, so it differs from concatenation |
| HlvmDev.Add | hlvm/src/dev.rs:87-97 | the intended `add` succeeds on the same operand pairs as the written one |
| HlvmDev.AddConcatenates | hlvm/src/dev.rs:90-94 | the intended string `add` keeps the left operand as prefix and the right one as suffix |
| HlvmDev.Sub | hlvm/src/dev.rs:99-104 | `sub` succeeds exactly on two numbers |
| HlvmDev.Mul | hlvm/src/dev.rs:106-114 | `mul` succeeds exactly on two numbers; `String * Number` is `todo!()` and fails |
| HlvmDev.Div | hlvm/src/dev.rs:116-121 | `div` succeeds exactly on two numbers |
| HlvmDev.Eq | hlvm/src/dev.rs:123-125 | `_eq` never fails and yields a boolean |
| HlvmDev.Ne | hlvm/src/dev.rs:127-129 | `_ne` never fails and yields a boolean |
| HlvmDev.EqNeComplementary | hlvm/src/dev.rs:123-129 | `_eq` holds exactly of identical values, is reflexive and symmetric, and `_ne` is its negation |
| HlvmDev.Compare | hlvm/src/dev.rs:131-157 | an ordering comparison succeeds exactly on two numbers and yields the comparison of their values |
| HlvmDev.OrderingConsistent | hlvm/src/dev.rs:131-157 | `gt`, `lt`, `ge`, `le` succeed on the same inputs, `gt` is `lt` with swapped operands, `ge` is `le` swapped, and `ge` is the negation of `lt` |
| HlvmDev.And | hlvm/src/dev.rs:159-161 | `and` is a boolean that holds iff both operands are truthy |
| HlvmDev.Or | hlvm/src/dev.rs:163-165 | `or` is a boolean that holds iff either operand is truthy |
| HlvmDev.Not | hlvm/src/dev.rs:167-169 | `not` is a boolean that holds iff the operand is falsy |
| HlvmDev.LogicFromTruthiness | hlvm/src/dev.rs:159-169 | double negation normalises a value to its truthiness, De Morgan's laws hold, and a truthy `and` has truthy operands |
| HlvmDev.Print | hlvm/src/dev.rs:14-17 | primitive 0 needs at least one argument (indexing `var[0]` panics otherwise) and yields `Number(0.0)`; the value it prints is recorded by `HlvmVm.ExecPrimitive` |
| HlvmVm.New | hlvm/src/vm.rs:14-26 | a new machine has an empty stack and exactly one empty frame, the global one |
| HlvmVm.GlobalScope | hlvm/src/vm.rs:29-35 | the global scope is the first frame; an empty call stack is the `expect` panic |
| HlvmVm.LocalScope | hlvm/src/vm.rs:47-53 | the local scope is the last frame; an empty call stack is the `expect` panic |
| HlvmVm.PopArguments | hlvm/src/vm.rs:108-113 | a primitive receives the top `n` values, the top one first |
| HlvmVm.ExecVariable | hlvm/src/vm.rs:79-99 | `SetGlobal`/`SetLocal` pop into the first/last frame and fail on an empty stack; `GetGlobal`/`GetLocal` push a copy iff the name is bound; `Push` pushes its constant |
| HlvmVm.ExecControl | hlvm/src/vm.rs:96-162 | `Jump` moves to its target without the increment; `JumpIf` pops and jumps exactly when the value is truthy; `ReturnValue` ends with the popped top, `Return` with `Number(0.0)`; an empty stack fails |
| HlvmVm.ExecOperator | hlvm/src/vm.rs:124-150 | a binary operator pops `right` then `left` and pushes `left op right`, or stops with the operator's error; `Not` replaces the top with its negation |
| HlvmVm.ExecPrimitive | hlvm/src/vm.rs:108-122 | `CallPrimitive(i, n)` pops `n` values; primitive 0 pushes `Number(0.0)` (and fails with no argument), primitive 1 exits, any other index panics |
| HlvmVm.ExecObject | hlvm/src/vm.rs:164-190 | `GetAttribute` replaces the top with the field iff it exists; `SetAttribute` pops the value and updates the object below in place; `Instantiate` succeeds iff the top is a blueprint |
| HlvmVm.Exec1 | hlvm/src/vm.rs:77-195 | every instruction except the jumps continues at `ip + 1`; the instructions the loop leaves to `todo!` (`Negate`, `Typeof`, `BinaryAnd`, `BinaryOr`, `Get`) fail |
| HlvmVm.BindArgs | hlvm/src/dev.rs:62-70 | binding succeeds iff the stack holds a value per parameter, and pops exactly that many values |
| HlvmVm.BindArgsValues | hlvm/src/dev.rs:62-70 | parameter `k` receives the `k`-th popped value unless a later parameter has the same name; other names keep their binding |
| HlvmVm.BindArgsValueAt | hlvm/src/dev.rs:62-70 | a parameter not repeated later receives the value popped in its turn |
| HlvmVm.BindArgsKeys | hlvm/src/dev.rs:62-70 | every parameter is bound afterwards |
| HlvmVm.BindArgsKeeps | hlvm/src/dev.rs:62-70 | a name that is not a parameter keeps its binding |
| HlvmVm.ReversedArgumentsBindInOrder | hlvm/src/lir.rs:47-50 | arguments pushed in reverse order bind, with distinct parameter names, parameter `k` to argument `k`, leaving the stack below untouched |
| HlvmVm.Run | hlvm/src/vm.rs:66-199 | the call-stack depth at the end equals the depth at the start, and running past the end of the code returns `Number(0.0)` |
| HlvmVm.Execute | hlvm/src/vm.rs:66-199 | `execute` from instruction 0 leaves the call-stack depth unchanged |
| HlvmVm.Step | hlvm/src/vm.rs:100-107 | `Call` pops the callee: a returned value is pushed and the run continues, any other ending stops the run with the same outcome; an empty stack fails |
| HlvmVm.CallValue | hlvm/src/dev.rs:54-84 | only a `Function` can be called (any other value fails and leaves the machine as it was); missing arguments fail; the callee's frame is dropped on every outcome |
| HlvmVm.NotJumpIfBranches | hlvm/src/vm.rs:147-162 | `Not` then `JumpIf(t)` falls through exactly when the original value is truthy and goes to `t` otherwise |
| HlvmVm.SystemIndicesAgree | hlvm/src/module.rs:5-16 | calling `print`'s index with its arity prints the argument, appending it to the printed values, and pushes `Number(0.0)`; calling `exit`'s index ends the run with `Exited` |
| HlvmVm.RunPush | hlvm/src/vm.rs:99 | `Push` continues with its value on top |
| HlvmVm.RunSetGlobal | hlvm/src/vm.rs:79-82 | `SetGlobal` continues with the popped value bound in the global frame |
| HlvmVm.RunGetGlobal | hlvm/src/vm.rs:88-90 | `GetGlobal` of a bound name continues with its value pushed |
| HlvmVm.RunGetAttribute | hlvm/src/vm.rs:173-180 | `GetAttribute` of an existing field continues with the field in the instance's place |
| HlvmVm.RunCallEmpty | hlvm/src/vm.rs:100-107 | calling an empty function without parameters continues with `Number(0.0)` pushed and the frames as before |
| HlvmVm.RunAddStrings | hlvm/src/vm.rs:124-130 | `Add` on two strings continues with the left string plus `_b`: the right string is lost at run time |
| HlvmVm.RunJump | hlvm/src/vm.rs:152-155 | `Jump` continues at its target with the machine unchanged |
| HlvmVm.RunGuard | hlvm/src/vm.rs:147-162 | a guard consumes its condition and continues at the guarded block when it is truthy and at the guard's target otherwise |
| HlvmVm.RunPushGuard | hlvm/src/vm.rs:147-162 | a constant condition and its guard continue at the block for `true` and at the target for `false` |
| HlvmVm.GuardedBlockRuns | hlvm/src/hir.rs:149-204 | example: with a `false` condition, a guard patched one short (target 4) still runs the block and leaves its value; the intended target 5 skips it |
| HlvmVm.NestedLoopRuns | hlvm/src/hir.rs:150-216 | example: a `while` holding an `if`, with addresses relocated, returns; with the addresses of the nested block left unrelocated, the run fails on an empty stack |
| HlvmVm.NestedLoopEntry | hlvm/src/hir.rs:206-216 | example: in the nested loop both constant guards are decided, control enters the `if` block and reaches the loop guard's target |
| HlvmHir.FromHir | hlvm/src/hir.rs:89-222 | `from_hir` as written emits exactly `Len(source)` instructions and every jump it emits targets an address within the emitted code |
| HlvmHir.Lower | hlvm/src/hir.rs:89-222 | the corrected lowering has the same length and the same in-range property |
| HlvmHir.Emit | hlvm/src/hir.rs:92-219 | lowering a sequence after earlier code adds exactly `Len(src)` instructions |
| HlvmHir.EmitBlock | hlvm/src/hir.rs:161-212 | a nested block adds exactly its own length, whether lowered from address 0 and appended (as written) or in place (corrected) |
| HlvmHir.EmitOne | hlvm/src/hir.rs:93-217 | one HIR instruction adds exactly its lowered length |
| HlvmHir.ModuleLoad | hlvm/src/hir.rs:142-148 | `LoadModule` expands to exactly five instructions |
| HlvmHir.ModuleLoadRuns | hlvm/src/hir.rs:142-148 | running the expansion with an empty main binds the module instance as a global, calls its main, leaves its `Number(0.0)` on the stack and runs off the end |
| HlvmHir.ModuleBinds | hlvm/src/hir.rs:143-144 | the first two instructions bind the module instance in the global frame |
| HlvmHir.ModuleCallsMain | hlvm/src/hir.rs:145-147 | the last three fetch the module, look up `<hlvm:main>` and call it, leaving its result on the stack |
| HlvmHir.EmitWhile | hlvm/src/hir.rs:205-217 | a lowered `while` adds the condition, the body and three instructions |
| HlvmHir.WhileShape | hlvm/src/hir.rs:205-217 | after the condition come `Not` and a `JumpIf` to just past the loop; the last instruction jumps back to the start of the condition |
| HlvmHir.EmitIf | hlvm/src/hir.rs:149-204 | a lowered if-chain adds every block, every condition and three instructions per alternative |
| HlvmHir.IfUnpatched | hlvm/src/hir.rs:155-181 | before patching, the patch list and block addresses are those recorded at lines 160-175: one guard and one closing jump per alternative, one block address per guard, all inside the chain |
| HlvmHir.EmitElseIfs | hlvm/src/hir.rs:166-177 | the else-if arms add their conditions and blocks and record two placeholders and one block address per arm |
| HlvmHir.EmitArms | hlvm/src/hir.rs:167-176 | each arm's loop turn appends its code and its placeholders in order |
| HlvmHir.PatchIf | hlvm/src/hir.rs:183-203 | the patch loop keeps the code's length |
| HlvmHir.PatchIfKeeps | hlvm/src/hir.rs:186-203 | the patch loop changes no address outside the patch list and writes only in-range targets |
| HlvmHir.PatchIfEffect | hlvm/src/hir.rs:186-203 | at every listed address the loop writes the jump that entry calls for, with the running `index` |
| HlvmHir.PatchedInRange | hlvm/src/hir.rs:188-201 | a patched jump targets the end or one of the recorded block addresses |
| HlvmHir.ChainPatch | hlvm/src/hir.rs:186-203 | the guard of alternative `j` becomes `JumpIf(NextTarget(j))` and its closing jump `Jump(end)` |
| HlvmHir.IfTargets | hlvm/src/hir.rs:149-204 | in the lowered if-chain, alternative `j`'s guard and closing jump are those `ChainPatch` gives |
| HlvmHir.AsWrittenGuards | hlvm/src/hir.rs:188-197 | as written, the last guard jumps to the end of the statement, skipping a non-empty `onfalse`, and guard `j` jumps to block address `j + 1`, one alternative too far |
| HlvmHir.CorrectedGuards | hlvm/src/hir.rs:188-201 | corrected, guard `j` jumps to the instruction after alternative `j`'s closing jump, the last guard reaches `onfalse`, and every closing jump leaves the statement |
| HlvmHir.EmitInRange | hlvm/src/hir.rs:89-222 | lowering keeps every jump of the code in range |
| HlvmHir.EmitAppends | hlvm/src/hir.rs:89-222 | lowering only appends: the code emitted before is unchanged |
| HlvmHir.StraightLine | hlvm/src/hir.rs:92-141 | a block of straight-line instructions lowers one-to-one, same kind and same order |
| HlvmHir.IfElseCode | hlvm/src/hir.rs:149-204 | example: for `false` then if/else, the guard targets 5 (the end) as written and 4 (the `else` block) corrected |
| HlvmHir.IfElseRuns | hlvm/src/hir.rs:149-204 | example: as written the `else` block is skipped; corrected it runs and leaves its value |
| HlvmHir.NestedLoopCode | hlvm/src/hir.rs:161-216 | example: a `while` nested in an `if` keeps, as written, the addresses 4 and 0 it had when lowered from 0; corrected they are 7 and 3 |
| HlvmHir.NestedLoopPatch | hlvm/src/hir.rs:183-203 | example: patching that if sends its guard and closing jump to 8 and changes nothing else |
| HlvmHir.NestedLoopRuns | hlvm/src/hir.rs:161-216 | example: as written the run jumps into the middle of the outer code and fails on an empty stack; corrected it leaves the loop and returns |
| CompilerParser.Advance | compiler/src/parser.rs:104-125 | advancing moves one token on; at the end of the tokens the position stays and the current token is `End` |
| CompilerParser.ExhaustedIsEnd | compiler/src/parser.rs:120-123 | once the tokens are exhausted the current token stays `End` however often the parser advances |
| CompilerParser.Expression | compiler/src/parser.rs:320-374 | `expression` consumes at least one token and yields a tree whose binary nodes carry operators of their level |
| CompilerParser.Level | compiler/src/parser.rs:302-318 | `binary_expression` at any level consumes at least one token and yields an operated tree |
| CompilerParser.Operand | compiler/src/parser.rs:285-296 | the operand parser of a level (`from_builder`) consumes at least one token |
| CompilerParser.BinaryLoop | compiler/src/parser.rs:305-315 | the operator loop stops exactly at the first token that is no operator of the level, and consumes nothing unless it starts at one |
| CompilerParser.UnaryExpr | compiler/src/parser.rs:258-283 | `unary` consumes at least one token |
| CompilerParser.Value | compiler/src/parser.rs:185-256 | `value` consumes at least one token; a parenthesised expression yields the inner node itself |
| CompilerParser.Items | compiler/src/parser.rs:197-235 | an argument or element list stops at the closer or at a token that is not a comma, and consumes only forward |
| CompilerParser.ItemsRest | compiler/src/parser.rs:202-209 | each turn of the comma loop keeps the items already collected as a prefix |
| CompilerParser.ParseType | compiler/src/parser.rs:376-390 | a type succeeds exactly on the identifiers `number`, `bool` and `string`, consuming one token |
| CompilerParser.Statement | compiler/src/parser.rs:653-695 | `statement` consumes at least one token |
| CompilerParser.Assignment | compiler/src/parser.rs:435-443 | `variable_assignment` yields an assignment to the given name |
| CompilerParser.VariableDecl | compiler/src/parser.rs:392-433 | `variable_decleration` yields a declaration with the `pub` flag it was called with |
| CompilerParser.FunctionDecl | compiler/src/parser.rs:445-543 | `function_decleration` yields a function declaration with the given `pub` flag |
| CompilerParser.Params | compiler/src/parser.rs:458-503 | the parameter loop ends at the closing parenthesis |
| CompilerParser.Param | compiler/src/parser.rs:460-495 | a parameter's type part continues the loop, which ends at the closing parenthesis |
| CompilerParser.Block | compiler/src/parser.rs:530-533 | a block's statement loop ends at the closing brace |
| CompilerParser.While | compiler/src/parser.rs:545-566 | `while_statement` yields a while node |
| CompilerParser.Import | compiler/src/parser.rs:568-587 | `use` succeeds exactly when a string and, two tokens later, an identifier follow; the token between them is skipped unchecked |
| CompilerParser.IfHead | compiler/src/parser.rs:589-606 | the condition and block of `if_statement` end after the closing brace |
| CompilerParser.IfStatement | compiler/src/parser.rs:589-651 | `if_statement` yields an if node whose else block, when present, is non-empty |
| CompilerParser.Parse | compiler/src/parser.rs:88-101 | creating the parser takes the first token, so an empty token sequence fails |
| CompilerParser.Statements | compiler/src/parser.rs:697-703 | the statement loop ends at `End` and keeps the nodes already collected as a prefix |
| CompilerParser.BinaryLoopFolds | compiler/src/parser.rs:302-318 | operators of one level associate to the left: the loop builds the left fold over the operator/operand pairs |
| CompilerParser.FoldFirst | compiler/src/parser.rs:305-315 | one turn of the fold applies the first operator and continues from its right operand's end |
| CompilerParser.OperandOfUnary | compiler/src/parser.rs:353-370 | a unary operand followed by no tighter operator is the operand of any level as it stands |
| CompilerParser.ClimbLevels | compiler/src/parser.rs:320-374 | a level's result followed by no looser operator is the whole expression |
| CompilerParser.LiteralUnary | compiler/src/parser.rs:185-190 | a number literal is a unary operand on its own |
| CompilerParser.BinaryStep | compiler/src/parser.rs:305-315 | one turn of the operator loop builds a binary node of the current left and the next operand |
| CompilerParser.BinaryStop | compiler/src/parser.rs:305 | the operator loop stops at a token that is no operator of the level |
| CompilerParser.LevelStart | compiler/src/parser.rs:302-303 | a level starts with its operand and continues with the operator loop |
| CompilerParser.SubtractionOperands | compiler/src/parser.rs:353-355 | example: each literal of `1 - 2 - 3` stands alone at the additive level |
| CompilerParser.SubtractionAssociatesLeft | compiler/src/parser.rs:302-355 | example: `1 - 2 - 3` parses as `(1 - 2) - 3` |
| CompilerParser.LiteralExpression | compiler/src/parser.rs:320-374 | a number literal followed by no binary operator is a whole expression |
| CompilerParser.ProductLevel | compiler/src/parser.rs:357-370 | pattern: `a * b` over number literals is one multiplicative level |
| CompilerParser.ProductBindsTighter | compiler/src/parser.rs:353-370 | pattern, for number-literal operands: `a + b * c` parses as `a + (b * c)` |
| CompilerParser.ProductExample | compiler/src/parser.rs:353-370 | example: `1 + 2 * 3` parses as `1 + (2 * 3)` |
| CompilerParser.ExpressionsAreOperated | compiler/src/parser.rs:320-351 | the bitwise levels are never reached from `expression`, so no binary node carries a bitwise operator |
| CompilerParser.NotTakesValue | compiler/src/parser.rs:260-265 | `!` takes a single value, so `! - x` is rejected |
| CompilerParser.NegateTakesUnary | compiler/src/parser.rs:267-272 | `-` takes a whole unary: `- ! n` negates the negation of `n` |
| CompilerParser.TrailingCommaAccepted | compiler/src/parser.rs:194-215 | pattern, for one literal argument: `f(n,)` parses as the call `f(n)`, as `f(n)` does |
| CompilerParser.AssignmentOrExpression | compiler/src/parser.rs:665-680 | a statement starting with an identifier is an assignment exactly when its expression is that lone identifier followed by `=`; otherwise the expression is kept |
| CompilerParser.IdentifierStatement | compiler/src/parser.rs:665-680 | the identifier case of `statement` parses an expression and then decides on `=` |
| CompilerParser.ElseIfFlattened | compiler/src/parser.rs:622-634 | `else if` flattens the nested statement: its first block and its else-ifs follow the outer block, its else is the outer else |
| CompilerParser.EmptyElseIsNone | compiler/src/parser.rs:609-644 | an `if` without `else`, or with an empty `else { }`, has no else block |
| CompilerParser.StatementsInOrder | compiler/src/parser.rs:697-703 | `parse` adds nothing at `End`, stops on a failing statement, and otherwise puts the first statement's node first |
| CompilerTypecheck.New | compiler/src/typecheck.rs:47-52 | a new checker knows no functions and no variables |
| CompilerTypecheck.TableAgrees | compiler/src/typecheck.rs:12-27 | the row-by-row operator table equals a table stated by kinds: `==`/`!=` on equal primitive types give bool, number with number or bool gives number for every other operator (and for `==` between number and bool), `+` on strings and `*` string-number give string, everything else is rejected |
| CompilerTypecheck.TokenToOp | compiler/src/typecheck.rs:29-44 | exactly the eleven arithmetic and comparison tokens have an operator text; the others panic |
| CompilerTypecheck.TokenToOpInjective | compiler/src/typecheck.rs:29-44 | distinct operator tokens have distinct texts, and only `==`/`!=` have an equality text |
| CompilerTypecheck.GetValueType | compiler/src/typecheck.rs:54-77 | literals have their own type; an identifier or call has its recorded type exactly when the name is known and panics otherwise; any other node panics |
| CompilerTypecheck.FailurePropagates | compiler/src/typecheck.rs:79-88 | an unknown operator panics before the operands are looked at; a failing left, then right, operand is the failure of the whole; a typed binary node has typed operands and the table's result type |
| CompilerTypecheck.TypedNamesKnown | compiler/src/typecheck.rs:59-88 | a typed expression refers only to known variables and functions |
| CompilerTypecheck.InitialiseRegisters | compiler/src/typecheck.rs:90-99 | after `initialise` a declared function maps to the return type of its last declaration and every other name is as before |
| CompilerTypecheck.CheckNode | compiler/src/typecheck.rs:104-133 | one statement never changes the function table, and only a declaration changes the variables |
| CompilerTypecheck.IfFailure | compiler/src/typecheck.rs:117-122 | an `if` whose own condition is untyped fails with that condition's lookup panic as it is, or with the `(IF)` message when the operator table refuses the operands |
| CompilerTypecheck.ElseIfFailure | compiler/src/typecheck.rs:117-130 | with its own condition typed, an `if` fails at its first untyped `else if` condition: with that lookup's panic, or the `(ELSEIF)` message on a table failure |
| CompilerTypecheck.FirstUntypedDecides | compiler/src/typecheck.rs:124-130 | after typed else-if conditions, the first untyped one decides the failure: its panic, or the `(ELSEIF)` message |
| CompilerTypecheck.UndeclaredCondition | compiler/src/typecheck.rs:59-65 | example: `if y { }` with `y` undeclared stops with "Variable y not found", not the `if` message |
| CompilerTypecheck.CheckConditions | compiler/src/typecheck.rs:124-130 | the else-if conditions pass exactly when every one is typed, and change nothing |
| CompilerTypecheck.CheckAll | compiler/src/typecheck.rs:104-134 | checking the statements never changes the function table |
| CompilerTypecheck.Check | compiler/src/typecheck.rs:101-135 | `check` registers every function's return type before checking the statements |
| CompilerTypecheck.DeclarationRecorded | compiler/src/typecheck.rs:106-116 | a declaration passes exactly when its value's type equals its annotation, and then records that type for the name |
| CompilerTypecheck.CallBeforeDeclaration | compiler/src/typecheck.rs:90-116 | example: `let x: T = f()` ahead of `fn f(): T` passes and records `x: T` |
| CompilerCodegen.OpTokenToInstruction | compiler/src/codegen.rs:9-24 | exactly ten operator tokens have an instruction; `%` is `todo!` and every other token panics |
| CompilerCodegen.OperatorRoundTrip | compiler/src/codegen.rs:9-24 | the operator mapping is undone by an inverse mapping, so it is injective, and each instruction it yields lowers one-to-one |
| CompilerCodegen.CompileArms | compiler/src/codegen.rs:104-106 | one compiled arm per else-if, in order |
| CompilerCodegen.ParamNames | compiler/src/codegen.rs:130-134 | the function's parameter names, one per parameter, in declaration order |
| CompilerCodegen.CompileConcatenates | compiler/src/codegen.rs:84-175 | the code of a program `a + b` is the code of `a` followed by the code of `b`, and it fails exactly when one part fails |
| CompilerCodegen.LiteralArgumentsPushed | compiler/src/codegen.rs:42-50 | the arguments of a call on number literals become one `Push` each, last argument first |
| CompilerCodegen.LiteralCallBindsInOrder | compiler/src/codegen.rs:42-53 | with number-literal arguments, the call's pushes leave argument `k` where the callee's binding gives it to parameter `k` |
| CompilerCodegen.ArgumentBlocks | compiler/src/codegen.rs:46-48 | the code of each argument, in source order |
| CompilerCodegen.ReversedLayout | compiler/src/codegen.rs:43-50 | the arguments' code exists exactly when every argument compiles, and is their blocks in reverse source order |
| CompilerCodegen.CallArgumentsBindInOrder | compiler/src/codegen.rs:42-53 | a call compiles iff its arguments do, to their blocks last argument first, then `Get` of the callee and `Call`; without user-function calls among the arguments each block leaves exactly one value; and values pushed in that order bind parameter `k` to argument `k` |
| CompilerCodegen.BinaryLayout | compiler/src/codegen.rs:64-68 | a binary node lowers to the left code, the right code and the operator's instruction, and fails when any of the three does |
| CompilerCodegen.UnaryLayout | compiler/src/codegen.rs:69-77 | a unary node lowers to its operand's code and one instruction of the same operation |
| CompilerCodegen.PrimitiveCallShape | compiler/src/codegen.rs:54-63 | a primitive call lowers to its arguments last one first and one `CallPrimitive` with the index and the argument count |
| CompilerCodegen.ExpressionPushesOne | compiler/src/codegen.rs:26-82 | the code of an expression without user-function calls leaves exactly one more value on the stack than it found |
| CompilerCodegen.OperatorEffect | compiler/src/codegen.rs:9-24 | every operator instruction replaces two values by one |
| CompilerCodegen.ArgumentsPushOneEach | compiler/src/codegen.rs:54-63 | `n` call-free arguments leave exactly `n` values |
| CompilerCodegen.BindingsSetLocal | compiler/src/codegen.rs:89-96 | a declaration and an assignment both lower to the value's code and `SetLocal` of the name, and fail exactly when the value does |
| CompilerCodegen.CompileSingle | compiler/src/codegen.rs:84-175 | a one-statement program compiles as that statement |
| CompilerCodegen.IfShape | compiler/src/codegen.rs:97-118 | an `if` leaves its first condition's code and one `IfStatement`; the else-if list is absent exactly when there are none and otherwise has one arm per else-if; a missing else is an empty block |
| CompilerCodegen.FunctionDeclarationShape | compiler/src/codegen.rs:129-140 | a function declaration is a `Push` of a function whose code is its body lowered by `from_hir` and whose parameters are the names in order, then `SetLocal` of its name; it fails exactly when the body does |
| LacecCommon.Bool2Value | lacec/src/common.rs:33-39 | a Rust boolean becomes `True` exactly when it holds, `False` otherwise |
| LacecCommon.IsTruthy | lacec/src/common.rs:115-129 | truthiness is defined exactly on the public variants (the private ones panic), and `False` and `None` are never truthy |
| LacecCommon.NumericTruthiness | lacec/src/common.rs:120-122 | a number, float or byte is truthy exactly when it is positive: zero and negatives are falsy |
| LacecCommon.ContainerTruthiness | lacec/src/common.rs:117-125 | a string, formatted string, array or function is truthy exactly when it is non-empty |
| LacecCommon.I32Result | lacec/src/common.rs:165-191 | an `i32` result is kept exactly when it fits; otherwise the debug-build overflow panic |
| LacecCommon.Add | lacec/src/common.rs:163-176 | `add` succeeds only on numeric pairs or two strings; a float on either side gives the float sum; two numbers succeed iff the sum fits `i32`; strings concatenate |
| LacecCommon.Sub | lacec/src/common.rs:178-187 | `sub` succeeds only on numeric pairs, floats subtract, and two numbers succeed iff the difference fits `i32` |
| LacecCommon.AddThenSub | lacec/src/common.rs:163-187 | subtracting `y` undoes adding it to `x` when the addition did not overflow |
| LacecCommon.Mul | lacec/src/common.rs:189-199 | `mul` succeeds only on numeric pairs and string-number; two numbers succeed iff the product fits `i32`; a string times a non-negative count succeeds |
| LacecCommon.MulRepeats | lacec/src/common.rs:195 | a string times a non-negative count is the string that many times over: character `k` is character `k mod |s|` |
| LacecCommon.Div | lacec/src/common.rs:201-210 | `div` succeeds only on numeric pairs; two numbers give the truncating quotient, never divide by zero and stay in `i32` |
| LacecCommon.Rem | lacec/src/common.rs:212-221 | `rem` on two numbers succeeds exactly when the divisor is non-zero and the pair is not `MIN % -1` |
| LacecCommon.DivRem | lacec/src/common.rs:201-221 | `div` and `rem` fail on the same `i32` inputs, and otherwise `x == y * q + m` with `|m| < |y|` |
| LacecCommon.Pow | lacec/src/common.rs:223-232 | `pow` succeeds only on numeric pairs; for a non-negative `i32` exponent it succeeds iff the exact power fits `i32` |
| LacecCommon.PowStep | lacec/src/common.rs:225 | raising to `e + 1` is raising to `e` and multiplying once more, overflow included |
| LacecCommon.NegativeExponentOverflows | lacec/src/common.rs:225 | a negative exponent is reinterpreted as a huge unsigned one: `2 ** -1` panics |
| LacecCommon.Eq | lacec/src/common.rs:234-240 | `eq` is `True` exactly on identical values |
| LacecCommon.Ne | lacec/src/common.rs:242-248 | `ne` is `True` exactly on different values |
| LacecCommon.EqNeComplementary | lacec/src/common.rs:234-248 | `ne` is `not` of `eq`, and `eq` is reflexive |
| LacecCommon.Gt | lacec/src/common.rs:250-259 | `gt` succeeds exactly on numeric pairs and compares their values |
| LacecCommon.St | lacec/src/common.rs:261-270 | `st` succeeds exactly on numeric pairs and compares their values |
| LacecCommon.Ge | lacec/src/common.rs:272-281 | `ge` succeeds exactly on numeric pairs and compares their values |
| LacecCommon.Se | lacec/src/common.rs:283-292 | `se` succeeds exactly on numeric pairs and compares their values |
| LacecCommon.OrderingDuality | lacec/src/common.rs:250-292 | `st` is `gt` swapped, `ge` is the negation of `st` and `se` the negation of `gt` |
| LacecCommon.Lsh | lacec/src/common.rs:294-299 | `<<` succeeds exactly on two numbers with a shift count in 0..31, and the result agrees with `a * 2^b` modulo 2^32 |
| LacecCommon.Rsh | lacec/src/common.rs:301-306 | `>>` succeeds exactly on two numbers with a shift count in 0..31 |
| LacecCommon.ShiftRoundTrip | lacec/src/common.rs:294-306 | shifting left and back right by the same count restores a number when no bit was lost |
| LacecCommon.NegateValue | lacec/src/common.rs:308-315 | `negate` succeeds on numbers except `i32::MIN` and on floats, keeps the kind and flips the sign |
| LacecCommon.NegateTwice | lacec/src/common.rs:308-315 | negation is an involution on the values it accepts |
| LacecCommon.Not | lacec/src/common.rs:317-319 | `not` succeeds on the public variants and is `True` exactly when the value is falsy |
| LacecCommon.NotNot | lacec/src/common.rs:317-319 | `not not x` is the truthiness of `x` as a value |
| LacecCommon.Tpyeof | lacec/src/common.rs:321-334 | `tpyeof` names the type of exactly the public variants with a non-empty string |
| LacecCommon.TpyeofSeparatesKinds | lacec/src/common.rs:321-334 | two public values get the same type name exactly when they are of the same kind (both strings, both booleans, ...) |
| LacecCompiler.PoolStaysDistinct | lacec/src/lace/lacec.rs:9-17 | `add_constant` (the shared `ConstantPool.AddConstant`) never puts a second copy of a value into a pool without duplicates |
| LacecCompiler.PoolIndexing | lacec/src/lace/lacec.rs:9-17 | adding a list of values gives one index per value, naming an entry equal to it, and two indices are equal exactly when the values are |
| LacecCompiler.AddAll | lacec/src/lace/lacec.rs:9-17 | repeated `add_constant` only grows the pool and returns one index per value |
| LacecCompiler.Emit | lacec/src/lace/lacec.rs:93-94 | pushing an instruction appends exactly it to the chunk and keeps what was there |
| LacecCompiler.Load | lacec/src/lace/lacec.rs:35-45 | a value operand emits one instruction, `LoadVariable` for an identifier and `LoadConstant` otherwise, whose index names an equal pool entry |
| LacecCompiler.BinaryInstruction | lacec/src/lace/lacec.rs:63-81 | exactly the sixteen listed operator tokens have an instruction; any other panics |
| LacecCompiler.BinaryInstructionInjective | lacec/src/lace/lacec.rs:63-81 | distinct operator tokens get distinct instructions |
| LacecCompiler.CompileExpression | lacec/src/lace/lacec.rs:33-110 | `compile_expression` only appends to the chunk and grows the pool, and keeps a sound state sound |
| LacecCompiler.CompileCall | lacec/src/lace/lacec.rs:83-107 | a call only appends and grows the pool, and keeps soundness |
| LacecCompiler.CompileArguments | lacec/src/lace/lacec.rs:89-104 | the argument loop only appends and grows the pool, and keeps soundness |
| LacecCompiler.ParamNames | lacec/src/lace/lacec.rs:147-151 | the parameter names in declaration order |
| LacecCompiler.CompileNode | lacec/src/lace/lacec.rs:112-181 | `compile_node` only appends to the chunk and grows the pool, and keeps soundness |
| LacecCompiler.CompileNodes | lacec/src/lace/lacec.rs:143-187 | compiling nodes in order only appends and grows the pool, and keeps soundness |
| LacecCompiler.Compile | lacec/src/lace/lacec.rs:26-31 | `compile` starts from an empty pool and keeps the given chunk as prefix |
| LacecCompiler.AssignTo | lacec/src/lace/lacec.rs:126-132 | after the value, one `AssignVariable` whose index names the identifier in the pool |
| LacecCompiler.Define | lacec/src/lace/lacec.rs:153-163 | a function declaration emits `LoadConstant` of the function value and `AssignVariable` of the name, each naming its pool entry |
| LacecCompiler.CloseLoop | lacec/src/lace/lacec.rs:177-178 | the back-edge `Jump` goes to the condition's first instruction and the `JumpF` placeholder is patched to the length reached |
| LacecCompiler.ValueLowering | lacec/src/lace/lacec.rs:35-45 | an identifier becomes one `LoadVariable`, any other value except an array one `LoadConstant`, of a pool entry equal to it; an array node emits nothing |
| LacecCompiler.BinaryLayout | lacec/src/lace/lacec.rs:55-82 | a binary node is the left code, the right code and the operator's instruction, and succeeds exactly on the sixteen operator tokens |
| LacecCompiler.LogicalOperatorsAreBitwise | lacec/src/lace/lacec.rs:78-79 | `and` and `or` compile to `BinaryAnd` and `BinaryOr` |
| LacecCompiler.ArgumentsInOrder | lacec/src/lace/lacec.rs:89-91 | arguments compile in source order: `args + [x]` is `args` then `x` |
| LacecCompiler.CallLayout | lacec/src/lace/lacec.rs:83-95 | the callee's name enters the pool before the arguments compile; then `LoadVariable(name)` and `CallFunction(n)` with `n` the argument count |
| LacecCompiler.PrimitiveCallLayout | lacec/src/lace/lacec.rs:96-107 | a primitive call is the arguments' code and one `CallPrimitiveFunction(n, name)` |
| LacecCompiler.AssignmentLayout | lacec/src/lace/lacec.rs:126-132 | a declaration and an assignment compile alike, to the value's code and one `AssignVariable` of the name, failing exactly when the value does |
| LacecCompiler.WhileLayout | lacec/src/lace/lacec.rs:166-179 | a loop is the condition's code, a `JumpF` to just past the loop, the body, and a back edge to the condition; no placeholder survives |
| LacecCompiler.FunctionLayout | lacec/src/lace/lacec.rs:134-164 | a function body compiles into a fresh chunk, so its jumps stay inside it; the pool entry is the function of that code and the parameter names |
| LacecCompiler.CompileNodesConcatenates | lacec/src/lace/lacec.rs:183-187 | compiling `a + b` is compiling `a` and then `b` |
| LacecCompiler.CompiledProgramSound | lacec/src/lace/lacec.rs:6-187 | a compiled program is sound: no duplicate constants, every constant or name index in range, every jump inside its chunk |
| LaceVm.New | lace/src/vm.rs:24-32 | a new machine has an empty stack, the given constants, nothing printed and exactly one empty global frame |
| LaceVm.ConstantName | lace/src/vm.rs:53 | `extract` of a constant succeeds exactly on an in-range `Identifier` constant and yields its name |
| LaceVm.ExecVariable | lace/src/vm.rs:51-74 | `LoadConstant` pushes an in-range constant; `LoadVariable` pushes the locals' binding, else the globals', and fails for a name bound in neither; `AssignVariable` pops into the locals; no outer frame changes |
| LaceVm.LogicalAnd | lace/src/vm.rs:281-290 | `LogicalAnd` yields `True` or `False` |
| LaceVm.LogicalOr | lace/src/vm.rs:291-300 | `LogicalOr` yields `True` or `False` |
| LaceVm.LogicalTruthTable | lace/src/vm.rs:281-300 | on public operands the logical instructions are the connectives of the truthiness; a falsy left operand decides `&&` and a truthy one `||` without inspecting the right; a private left operand panics |
| LaceVm.ExecOperator | lace/src/vm.rs:131-264 | a binary instruction pops `b`, then `a`, and pushes `a op b` or stops with the operation's panic; a unary one replaces the top; a short stack is the `unwrap` panic |
| LaceVm.ExecControl | lace/src/vm.rs:123-280 | `Jump` moves to its target; `JumpT`/`JumpF` pop and jump when the value is truthy/falsy; `Return` pops the frame and returns the popped top, `ReturnNone` returns `None` |
| LaceVm.ExecPrimitive | lace/src/vm.rs:102-122 | `CallPrimitiveFunction(n, name)` pops `n` values back into pushed order; `writeln!` records them iff all are printable, `exit!` exits, any other name is a runtime error |
| LaceVm.Exec1 | lace/src/vm.rs:50-303 | the constants never change and printing only appends; a returning instruction pops exactly the current frame; `BinaryOr`/`BinaryXor`/`BinaryAnd` fail because their value methods do not exist |
| LaceVm.BindParams | lace/src/vm.rs:84-89 | binding succeeds iff there is a value per parameter, and consumes exactly that many |
| LaceVm.BindParamsValues | lace/src/vm.rs:84-89 | after the reversal, parameter `k` receives the value `|params| - k` from the top, so values bind in pushed order; of two equal names the first parameter wins |
| LaceVm.ArgumentsBindInOrder | lace/src/vm.rs:84-89 | arguments compiled in source order bind, with distinct names, parameter `k` to argument `k` and are consumed |
| LaceVm.Run | lace/src/vm.rs:44-308 | a returning run has popped exactly its own frame; constants never change and printing only appends; running past the end pops the frame and yields `None` |
| LaceVm.Step | lace/src/vm.rs:75-101 | `CallFunction` pops the callee; a returned value is pushed, any other ending stops the run with the same outcome; an empty stack fails |
| LaceVm.CallValue | lace/src/vm.rs:75-101 | only a `Function` can be called, otherwise the runtime error; missing arguments fail; a callee that returns leaves the caller's frames unchanged |
| LaceVm.Execute | lace/src/vm.rs:24-308 | a program run on a new machine that returns has popped the global frame, and the constants are those given |
| LaceVm.AssignThenLoad | lace/src/vm.rs:52-74 | assigning and then loading the same name leaves the stack as it was and the value bound in the innermost frame |
| LaceVm.CalleeSeesGlobals | lace/src/vm.rs:55-66 | a function loading a name it does not bind returns the global of that name |
| LaceVm.RunJumps | lace/src/vm.rs:265-280 | `Jump` continues at its target with the machine unchanged; `JumpF` consumes its condition and continues at the target when it is falsy and at the next instruction when it is truthy |
| LaceMacros.ToString | lace/src/macros.rs:4-31 | `to_string` succeeds exactly on printable values (the public ones, arrays of printable values) |
| LaceMacros.JoinItems | lace/src/macros.rs:14-20 | the element loop succeeds exactly when every element is printable |
| LaceMacros.JoinLength | lace/src/macros.rs:14-20 | `n` elements render with `n - 1` separators of two characters |
| LaceMacros.ArrayRendering | lace/src/macros.rs:10-24 | an array renders as `[`, the joined elements and `]`, so the empty array is `[]` |
| LaceMacros.SingletonRendering | lace/src/macros.rs:10-24 | a one-element array shows its element in brackets without separator |
| LaceMacros.NestedRendering | lace/src/macros.rs:10-28 | example: `[[], 1, true]` renders as itself |
| LaceMacros.NumberRenderingRoundTrip | lace/src/macros.rs:7 | a number's decimal rendering reads back as the same `i32` |
| LaceMacros.WritelnLine | lace/src/macros.rs:33-43 | the printed line exists exactly when every argument is printable, and ends in a space when there is an argument |
| LaceMacros.LaceWriteln | lace/src/macros.rs:33-43 | `lace_writeln` returns `None` and succeeds exactly when every argument is printable |
| LaceMacros.WritelnLength | lace/src/macros.rs:36-39 | the line has one space per argument besides the renderings |
| LacePipeline.CompileAndRun | lace/src/vm.rs:24-44 | compiling and running succeeds exactly when compilation does; the machine runs on the compiled pool, and a returning run has popped the global frame |
| LacePipeline.ExampleCompiles | lacec/src/lace/lacec.rs:33-187 | example: `let x = 2; writeln!(x + 3)` compiles to a pool in order of first use (2, `x`, `writeln!`, 3) and a chunk that stores `x`, loads it back and prints the sum |
| LacePipeline.DeclarationCompiles | lacec/src/lace/lacec.rs:126-132 | example: `let x = 2` stores the literal, then the name |
| LacePipeline.CallCompiles | lacec/src/lace/lacec.rs:96-107 | example: `writeln!(x + 3)` adds the primitive's name before its argument's operands |
| LacePipeline.SumCompiles | lacec/src/lace/lacec.rs:55-82 | example: `x + 3` loads `x` by name and 3 by a new pool index, then `Add` |
| LacePipeline.PoolLookups | lacec/src/lace/lacec.rs:9-17 | example: where the names and literals are found in the growing pool |
| LacePipeline.ExampleStep | lace/src/vm.rs:44-303 | example: each instruction of the compiled program moves to the next machine state |
| LacePipeline.PrintStep | lace/src/vm.rs:102-122 | example: `writeln!` pops its one argument and records it as printed |
| LacePipeline.ExampleRuns | lace/src/vm.rs:44-308 | example: the compiled program prints `5` once, returns `None` and pops the global frame |
| LacePipeline.ExampleExecutes | lace/src/vm.rs:44-308 | example: the same run from the compiled pool and chunk |
| ConstantPool.FirstIndex | src/vm/opcode.rs:79 | `position` finds the first equal constant, or reports none (also `lacec/src/lace/lacec.rs:10`) |
| ConstantPool.AddConstant | src/vm/opcode.rs:78-86 | `add_constant` (here and in `lacec/src/lace/lacec.rs:9-17`) returns the first equal entry's index with the pool unchanged, or appends the value and returns the new last index |
| ConstantPool.AddConstantIdempotent | src/vm/opcode.rs:78-86 | adding the same value again returns the same index and changes nothing |
| ConstantPool.AddConstantKeepsDistinct | src/vm/opcode.rs:78-86 | a pool without duplicates keeps none, and the returned index is the value's first position |
| SrcLexer.Grab | src/lexer.rs:29-45 | `grab` takes no more characters than are left after the starting index |
| SrcLexer.GrabLongest | src/lexer.rs:29-45 | what `grab` takes is the text at the index, every character of the class, followed by the end or by a character outside the class |
| SrcLexer.GrabExact | src/lexer.rs:29-45 | conversely, any run of the class followed by the end or by a character outside it is exactly what `grab` takes |
| SrcLexer.CommentEnd | src/lexer.rs:98-111 | reading resumes strictly after the comment's second slash and within the text |
| SrcLexer.CommentEndMeaning | src/lexer.rs:98-111 | a `//` comment runs up to and including the first newline after it, or to the end when there is none |
| SrcLexer.CommentSkipped | src/lexer.rs:98-111 | a `//` adds no token and resumes after the comment |
| SrcLexer.Lex1 | src/lexer.rs:63-185 | one turn of the loop moves forward within the text and leaves every closed group untouched |
| SrcLexer.Lex1Dispatch | src/lexer.rs:69-158 | brackets, operator characters, quotes, identifier starts and number characters each go to their own reader, in the source's order |
| SrcLexer.SpaceSkipped | src/lexer.rs:63-185 | a space adds no token and moves one character on |
| SrcLexer.ScanSemicolon | src/lexer.rs:66-68 | a `;` opens a new token group |
| SrcLexer.LexOperator | src/lexer.rs:81-127 | an operator turn moves forward and adds to the last group only |
| SrcLexer.OperatorRead | src/lexer.rs:81-127 | every operator spelling (`+=`, `->`, `<<`, `,`, single characters) followed by a space is read back as that operator |
| SrcLexer.LexQuoted | src/lexer.rs:129-142 | a quoted turn moves forward and adds to the last group only |
| SrcLexer.QuotedRead | src/lexer.rs:129-142 | a quoted body between matching quotes is read back as a `Str`, or a `FormattedStr` for backticks, and the closing quote is skipped |
| SrcLexer.LexWord | src/lexer.rs:144-156 | an identifier turn moves forward and adds to the last group only |
| SrcLexer.WordRead | src/lexer.rs:144-156 | a spelled identifier is read back as `Identifier`, and `let` as `Keyword` |
| SrcLexer.LexNumber | src/lexer.rs:158-184 | a number turn, when it succeeds, moves forward and adds to the last group only |
| SrcLexer.NumberToken | src/lexer.rs:165-183 | more than one point is the "one decimal point" error; no point gives an `i32`; one point gives a float |
| SrcLexer.NumberKinds | src/lexer.rs:158-184 | the run of number characters is consumed whole and makes an `Int` exactly without a point and a `Float` exactly with one |
| SrcLexer.DecimalToken | src/lexer.rs:168 | the decimal spelling of a non-negative `i32` parses back to it |
| SrcLexer.LexDigits | src/lexer.rs:158-168 | a decimal spelling followed by a space is read back as that `Int` |
| SrcLexer.LexToken | src/lexer.rs:63-185 | every spellable token followed by a space is read back as itself, and reading resumes right after it |
| SrcLexer.Scan | src/lexer.rs:63-185 | the loop never drops a group |
| SrcLexer.ScanStep | src/lexer.rs:63-185 | a turn that succeeds hands on to the rest of the loop from where it stopped |
| SrcLexer.ScanFails | src/lexer.rs:118-125 | a turn that fails ends the loop with its error |
| SrcLexer.Tokenize | src/lexer.rs:51-188 | `tokenize` gives at least one group |
| SrcLexer.RoundTrip | src/lexer.rs:51-188 | spelling token groups, separated by `;`, and tokenizing the text after a leading space gives the same groups back in both builds |
| SrcLexer.CorrectedRoundTrip | src/lexer.rs:144-161 | with the token at index 0 read like any other, the spelled groups tokenize back into the same groups with no leading space |
| SrcLexer.RoundTripNeedsIndexZero | src/lexer.rs:144-161 | for groups whose first token is an identifier or an integer, the as-written lexer fails on their text while the corrected one gives the groups back |
| SrcLexer.LeadingSpace | src/lexer.rs:58 | after a leading space, the as-written and corrected lexers agree, and both equal the scan after the space |
| SrcLexer.ScanAgrees | src/lexer.rs:146-161 | the `i - 1` behaviour and the intended one agree everywhere after the first character |
| SrcLexer.AsWrittenAgrees | src/lexer.rs:146-161 | a text that does not start with an identifier or a number lexes the same either way |
| SrcLexer.AsWrittenUnderflows | src/lexer.rs:146-159 | as written, a text that starts with an identifier or a number fails with the subtract-overflow error |
| SrcParser.SplitAt | src/parser.rs:263-284 | the split loop stops within the tokens, and where it stops before the end there is one of the operators it looks for |
| SrcParser.HasOperatorsFrom | src/parser.rs:30-52 | the loop of `has_operators` holds exactly when the split loop stops before the end |
| SrcParser.DepthSnoc | src/parser.rs:30-52 | the bracket stack after one more token is one step of the stack after the tokens before it |
| SrcParser.SplitMeaning | src/parser.rs:263-284 | the split loop stops at the first operator of the set that is outside every bracket, and reaches the end when there is none |
| SrcParser.HasOperatorsMeaning | src/parser.rs:30-52 | `has_operators` holds exactly when some token is one of the operators outside every bracket, and the first such token is where the expression splits |
| SrcParser.SkipPlain | src/parser.rs:263-284 | the split loop walks over a stretch without top-level operators without stopping |
| SrcParser.SplitFrom | src/parser.rs:58-89 | the comma loop of `parse_list` makes at least one element, none longer than the tokens |
| SrcParser.SplitList | src/parser.rs:58-89 | a list's tokens make at least one element |
| SrcParser.JoinAddToken | src/parser.rs:84-87 | adding a token to the last element adds it at the end of the text the elements stand for |
| SrcParser.JoinNewElement | src/parser.rs:77-78 | a top-level comma starts a new element |
| SrcParser.SplitFromJoins | src/parser.rs:58-89 | the comma split loses and adds no token |
| SrcParser.SplitListJoins | src/parser.rs:58-89 | joining the elements with commas gives back the list's tokens |
| SrcParser.ParseList | src/parser.rs:58-98 | `parse_list` parses one tree per element |
| SrcParser.ParseElements | src/parser.rs:91-97 | one tree per element, in order |
| SrcParser.ParseFunctionCall | src/parser.rs:100-144 | a call parses exactly when its second token is `(` and its last `)` and the arguments parse, and then it is a `FunctionCall` |
| SrcParser.ParseValue | src/parser.rs:146-220 | no tokens fail as "Expected string, int, float, list or function call."; a single literal or name is a `Unary` of that token; a value is never a `Binary` |
| SrcParser.ParseMulDiv | src/parser.rs:222-254 | `parse_mul_div` gives a `Binary` node |
| SrcParser.MulDivSplit | src/parser.rs:231-242 | splitting at a multiplicative operator gives a `Binary` node with that operator |
| SrcParser.MulDivLoop | src/parser.rs:228-247 | the loop of `parse_mul_div` keeps a `Binary` node |
| SrcParser.ParseSum | src/parser.rs:284-310 | splitting a sum at `+` or `-` gives a `Binary` node with that operator |
| SrcParser.Parse | src/parser.rs:320-353 | `parse` gives one tree per non-empty token group |
| SrcParser.UnparseAll | src/parser.rs:330-350 | one token list per tree |
| SrcParser.ExpressionUnparse | src/parser.rs:256-316 | a parsed expression's tree stands for exactly the tokens it was parsed from |
| SrcParser.SumUnparse | src/parser.rs:256-310 | the same for a sum |
| SrcParser.ProductUnparse | src/parser.rs:290-302 | the same for a product or a value |
| SrcParser.MulDivUnparse | src/parser.rs:222-254 | the same for `parse_mul_div` |
| SrcParser.SplitUnparse | src/parser.rs:231-242 | the same for one multiplicative split |
| SrcParser.LoopUnparse | src/parser.rs:228-247 | the tree the multiplicative loop keeps stands for the whole token list |
| SrcParser.ValueUnparse | src/parser.rs:146-220 | the same for a value |
| SrcParser.CallUnparse | src/parser.rs:100-144 | the same for a call |
| SrcParser.ListUnparse | src/parser.rs:58-98 | a parsed list's trees, joined with commas, stand for the list's tokens |
| SrcParser.ElementsUnparse | src/parser.rs:91-97 | the same element by element |
| SrcParser.ParseUnparse | src/parser.rs:320-353 | each tree of a parsed program stands for one non-empty group, in order |
| SrcParser.ProductParses | src/parser.rs:222-254 | with the corrected split, a product's tokens parse back as that product |
| SrcParser.SumParses | src/parser.rs:256-316 | with the corrected split, a sum's tokens parse back as that sum, and they hold a top-level `+`/`-` exactly when it is not a product |
| SrcParser.ThreeFactorsAsWritten | src/parser.rs:228-247 | as written, `2 * 3 * 4` fails with "Expected only one value": the second `*` re-parses `2 * 3` as one value |
| SrcParser.ThreeFactorsTail | src/parser.rs:222-254 | `3 * 4` alone parses |
| SrcParser.ThreeFactorsCorrected | src/parser.rs:222-254 | with the corrected split, `2 * 3 * 4` parses as the product it spells |
| SrcParser.EmptyListRejected | src/parser.rs:195-199 | `[]` is rejected: its one element is empty |
| SrcCompiler.ToLiteral | src/compiler.rs:6-15 | a literal or a name converts, and any other token is internal error 0001; integers and floats keep their value, and strings, formatted strings and names become `String` |
| SrcCompiler.OperatorOpcode | src/compiler.rs:17-29 | an operator maps to an arithmetic opcode, and anything else is internal error 0002 |
| SrcCompiler.OperatorOpcodeMeaning | src/compiler.rs:17-29 | exactly the parser's additive and multiplicative operators compile, each to the one opcode spelled that way |
| SrcCompiler.CompileExpression | src/compiler.rs:31-63 | compiling an expression only appends code and constants |
| SrcCompiler.LoadLeaf | src/compiler.rs:33-47 | compiling a leaf only appends code and constants |
| SrcCompiler.CompileItems | src/compiler.rs:54-56 | compiling list items only appends code and constants |
| SrcCompiler.CompileStatement | src/compiler.rs:72-84 | compiling an assignment only appends code and constants |
| SrcCompiler.CompileFrom | src/compiler.rs:71-85 | compiling the rest of the program only appends code and constants |
| SrcCompiler.Head | src/compiler.rs:31-88 | reading the first instruction of a word stream takes at least one word and no more than there are |
| SrcCompiler.DecodeSingle | src/compiler.rs:31-88 | a stream that is one instruction reads as that instruction |
| SrcCompiler.DecodeUnfold | src/compiler.rs:31-88 | a stream reads as its first instruction, then the rest |
| SrcCompiler.DecodeAppend | src/compiler.rs:31-88 | two readable streams, one after the other, read as one |
| SrcCompiler.HeadPrefix | src/compiler.rs:31-88 | the first instruction depends on the first words only |
| SrcCompiler.DecodeGrow | src/compiler.rs:31-88 | a stream reads the same against a larger pool that starts with the old one |
| SrcCompiler.Chain | src/compiler.rs:31-88 | words added in two steps read as the two steps' instructions in order |
| SrcCompiler.NoWords | src/compiler.rs:61 | a function call adds no word |
| SrcCompiler.OneWord | src/opcode.rs:43-45 | an opcode without an operand reads back as itself |
| SrcCompiler.TwoWords | src/opcode.rs:43-45 | `LoadConst`, `LoadVariable` and `BuildList` with their number read back as one instruction |
| SrcCompiler.LeafDecodes | src/compiler.rs:33-47 | a leaf's words read back as loading its constant (a name as a variable), then formatting a formatted string |
| SrcCompiler.CompileDecodes | src/compiler.rs:31-63 | an expression compiles exactly when every leaf is a literal or a name and every operator is arithmetic; its words read back as the tree's postfix form, and a list ends with `BuildList` and its length |
| SrcCompiler.ItemsDecode | src/compiler.rs:53-60 | a list's items compile exactly when each does, and read back in order |
| SrcCompiler.AssignTail | src/compiler.rs:76-81 | after an assignment's value come its name loaded as a constant, then `AssignVar` |
| SrcCompiler.StatementDecodes | src/compiler.rs:72-82 | an assignment compiles exactly when its value does, and reads back as the value's postfix form, then the name, then the assignment |
| SrcCompiler.ProgramDecodes | src/compiler.rs:71-85 | a program compiles exactly when every assignment does, and reads back statement by statement |
| SrcCompiler.CompileRoundTrip | src/compiler.rs:65-88 | `compile` succeeds exactly when every assignment's value is compilable, and its word stream read against its pool is the program's postfix form |
| SrcCompiler.PoolDistinct | src/compiler.rs:65-88 | the compiled pool never holds a constant twice |
| SrcCompiler.DistinctFrom | src/compiler.rs:71-85 | compiling statements keeps a pool without duplicates so |
| SrcCompiler.ExpressionDistinct | src/compiler.rs:31-63 | the same for one expression |
| SrcCompiler.ItemsDistinct | src/compiler.rs:54-56 | the same for list items |
| SrcOpcode.AddCode | src/opcode.rs:43-45 | `add_code` appends one word and leaves the pool alone |
| SrcOpcode.AddConstant | src/opcode.rs:47-55 | `add_constant` leaves the code alone, and returns an index holding the value: the first equal entry's index with the pool unchanged, or the new last index after appending |
| SrcOpcode.AddConstantTwice | src/opcode.rs:47-55 | adding the same constant twice returns the same index and adds nothing |
| VmOpcode.ExtractNumber | src/vm/opcode.rs:37-45 | `Extract<usize>` succeeds exactly on a number word |
| VmOpcode.ExtractOpCode | src/vm/opcode.rs:47-55 | `Extract<OpCode>` succeeds exactly on an opcode word |
| VmOpcode.ExtractRecovers | src/vm/opcode.rs:37-55 | exactly one of the two extractions succeeds on every word, and what it gives rebuilds the word |
| VmOpcode.AddCode | src/vm/opcode.rs:74-76 | `add_code` appends one word and leaves the pool alone |
| VmOpcode.AddConstant | src/vm/opcode.rs:78-86 | `add_constant` leaves the code alone, and returns an index holding the value: the first equal entry's index with the pool unchanged, or the new last index after appending |
| VmOpcode.AddConstantTwice | src/vm/opcode.rs:78-86 | adding the same constant twice returns the same index and adds nothing |
| VmCommon.GetType | src/vm/common.rs:3-12 | every kind except a list has a non-empty name; the list arm is commented out |
| VmCommon.UnsupportedOperation | src/vm/common.rs:14-21 | the message exists exactly when neither operand is a list |
| VmCommon.UnsupportedOperationNamesKinds | src/vm/common.rs:14-21 | two equal messages for the same operator come from operands of the same kinds |
| VmCommon.PowerLoopMeaning | src/vm/common.rs:27-34 | the checked-multiplication loop reaches the full power exactly when every partial power fits, and stops with `None` at the first one that does not |
| VmCommon.Exponentiate | src/vm/common.rs:24-37 | `exponentiate` gives `num` itself for every exponent up to 1, and otherwise num^exp when every partial product fits in range and `None` when one does not; a result is always in range |
| VmCommon.ExponentiateStep | src/vm/common.rs:27-34 | one more exponent is one more checked multiplication by `num` |
| VmMacro.ConcatAppend | src/vm/macro.rs:23-32 | rendering a sequence of values one after another renders each part in turn |
| VmMacro.Writeln | src/vm/macro.rs:23-32 | `writeln` returns `None` and prints the renderings of its arguments with nothing between them |
| VmMacro.ListIsBracketedLine | src/vm/macro.rs:8-17 | a list renders as its elements would print on one line, in brackets |
| VmMacro.RenderingLosesBoundaries | src/vm/macro.rs:8-17 | with no separator, `["a", "b"]` and `["ab"]` both render as `[ab]` |
| VmMacro.IntegerRenderingRoundTrip | src/vm/macro.rs:6 | an integer's rendering reads back as the same `i64` |
| VmArithmetic.CheckedInteger | src/vm/arithmetic.rs:13-20 | a checked integer operation gives the exact result when it fits the width, and otherwise the operation's overflow error |
| VmArithmetic.Add | src/vm/arithmetic.rs:6-28 | `add` succeeds exactly on two strings, two numbers with a float among them, or two integers whose sum fits; strings concatenate; mixed numbers add as floats; every other pairing is "Unsupported operation" for `+` |
| VmArithmetic.Sub | src/vm/arithmetic.rs:30-48 | `sub` succeeds exactly on numbers, with an in-range difference for two integers; mixed numbers subtract as floats; other pairings are unsupported for `-` |
| VmArithmetic.Mul | src/vm/arithmetic.rs:50-72 | `mul` succeeds only on numbers or a string times an integer; two integers succeed exactly when the product fits; a string times a non-negative count repeats it; an integer times a string is unsupported |
| VmArithmetic.Div | src/vm/arithmetic.rs:74-92 | `div` succeeds only on numbers; integers divide truncating toward zero, failing on a zero divisor and on the one quotient out of range |
| VmArithmetic.Rem | src/vm/arithmetic.rs:94-112 | `rem` succeeds only on numbers; integers give the truncating remainder, failing on a zero divisor and on MIN % -1 |
| VmArithmetic.Pow | src/vm/arithmetic.rs:142-154 | `pow` succeeds only on two integers, and every other pairing is reported with the operator text `%`; an exponent up to 1 gives the base back |
| VmArithmetic.Eq | src/vm/arithmetic.rs:156-159 | `eq` never fails and gives a bool that holds exactly when the values are equal |
| VmArithmetic.Neq | src/vm/arithmetic.rs:161-164 | `neq` never fails and gives a bool that holds exactly when the values differ |
| VmArithmetic.Compare | src/vm/arithmetic.rs:166-231 | an ordering succeeds exactly on two numbers, compares them as reals, and reports any other pairing as unsupported |
| VmArithmetic.More | src/vm/arithmetic.rs:166-181 | `more` is a > b on numbers |
| VmArithmetic.Less | src/vm/arithmetic.rs:183-198 | `less` is a < b on numbers |
| VmArithmetic.MoreThan | src/vm/arithmetic.rs:200-215 | `more_than` is a >= b on numbers |
| VmArithmetic.LessThan | src/vm/arithmetic.rs:217-231 | `less_than` is a <= b on numbers |
| VmArithmetic.Operate | src/vm/arithmetic.rs:233-248 | `operate` dispatches twelve opcodes, and it is internal error 0012 exactly for the shifts |
| VmArithmetic.AddThenSub | src/vm/arithmetic.rs:6-48 | subtracting the addend again gives back the integer an addition started from |
| VmArithmetic.AddCommutes | src/vm/arithmetic.rs:6-28 | number addition commutes, and string addition does not |
| VmArithmetic.DivRemReassemble | src/vm/arithmetic.rs:74-112 | when both exist, quotient times divisor plus remainder is the dividend, and the remainder is smaller than the divisor and has the dividend's sign |
| VmArithmetic.DivFailsExactly | src/vm/arithmetic.rs:74-112 | for in-range operands, division fails exactly on a zero divisor and on MIN / -1, the same cases in which the remainder fails |
| VmArithmetic.MulRepeats | src/vm/arithmetic.rs:53 | a string times a count has count times its length, and character k is character k mod the length |
| VmArithmetic.PowIsRepeatedMul | src/vm/arithmetic.rs:142-154 | raising to e + 1 is raising to e and multiplying by the base once more, and it overflows exactly when that multiplication does |
| VmArithmetic.EqNeqComplement | src/vm/arithmetic.rs:156-164 | equality and inequality never fail and always disagree |
| VmArithmetic.OrderingDuality | src/vm/arithmetic.rs:166-231 | `more_than` is the negation of `less`, `less_than` the negation of `more`, and `more`/`less` are mirror images |
| VmArithmetic.OrderingOnNumbersOnly | src/vm/arithmetic.rs:166-231 | no ordering accepts a string, a list, a bool or none on either side |
| VmRun.Reverse | src/vm/mod.rs:85 | `reverse`: same length, and element k is element length-1-k of the input |
| VmRun.PopEachMeaning | src/vm/mod.rs:81-83 | popping `n` values succeeds exactly when the stack holds `n`, and gives the rest of the stack and the top `n` values from the top down |
| VmRun.Arguments | src/vm/mod.rs:79-85 | a call's arguments exist exactly when the stack holds `argc` values; they are the top `argc` values in the order they were pushed, and the rest of the stack stays |
| VmRun.Bind | src/vm/mod.rs:133-137 | the argument map binds exactly the parameter names |
| VmRun.BindLast | src/vm/mod.rs:133-137 | a name given twice keeps the argument at its last position, as repeated inserts do |
| VmRun.PositionalBinding | src/vm/mod.rs:133-137 | distinct parameter names receive the arguments positionally |
| VmRun.Simple | src/vm/mod.rs:34-98 | an instruction other than a call only adds output, changes the stack height by its stack effect and never removes a variable; when it fails, nothing more is printed |
| VmRun.BuiltinValues | src/vm/mod.rs:52-57 | `LoadBuiltinValue` pushes `none`, `true` or `false` for 0, 1, 2, and anything else is internal error 0015 |
| VmRun.BinaryStep | src/vm/mod.rs:58-76 | a binary opcode replaces two values by one and touches neither variables nor output; `LessOrEqual` is not listed and changes nothing |
| VmRun.BinaryPopsTwo | src/vm/mod.rs:58-76 | the top two values `a, b` become `operate(a, b)` with 64-bit arithmetic, or the run stops with its error message |
| VmRun.MacroStep | src/vm/mod.rs:77-98 | a macro call replaces its arguments by one value and only adds output |
| VmRun.MacroArguments | src/vm/mod.rs:77-98 | `writeln` prints the top `n` values in the order they were pushed and pushes `none`; any other name raises "Macro … not found." |
| VmRun.LocalShadowsGlobal | src/vm/mod.rs:109-122 | a call finds the calling code object's own function before a global one, and raises exactly when there is neither |
| VmRun.ArityCheckedFirst | src/vm/mod.rs:124-131 | a call with the wrong number of arguments raises before the callee runs |
| VmRun.CallFunctionEffect | src/vm/mod.rs:99-144 | a successful call leaves the caller's variables alone, replaces the arguments by `none`, and runs the callee on its bound parameters with the same global table |
| VmRun.Run | src/vm/mod.rs:11-151 | `run` only adds output, never exits the process, and returns `none` after dumping its variables |
| VmRun.ExecAppend | src/vm/mod.rs:34-147 | code `a + b` runs as `a`, then `b` on the machine `a` leaves |
| VmRun.ExecAppendFrom | src/vm/mod.rs:34-147 | the same from any position inside `a` |
| VmRun.ExecShift | src/vm/mod.rs:34-147 | after `a`, running `a + b` is running `b` |
| VmRun.TopLevelTable | src/vm/mod.rs:18-25 | running without a global table is running with the code object's own functions as the table |
| VmRun.CalleeLoads | src/vm/mod.rs:37-45 | example: the callee's first instruction loads its parameter `x` |
| VmRun.CalleePrints | src/vm/mod.rs:77-98 | example: the callee's second instruction prints it |
| VmRun.CalleeRuns | src/vm/mod.rs:11-151 | example: the callee prints its argument and dumps its variables on returning |
| VmRun.ExampleCall | src/vm/mod.rs:99-151 | example: calling `f(7)` prints `7`, then the callee's variables, then the caller's empty map, and returns `none` |
| ValueOperation.Exponentiate | src/vm/value/operation.rs:6-20 | the `i32` `exponentiate` gives `num` for every exponent up to 1, and otherwise num^exp exactly when every partial product fits in `i32` |
| ValueOperation.Operate | src/vm/value/operation.rs:249-265 | this file's `operate` succeeds exactly when the shared arithmetic at 32 bits does, with the same value, and words its errors with this file's kind names |
| ValueOperation.WidthsAgree | src/vm/value/operation.rs:22-44 | whatever the 32-bit operations compute, the machine's 64-bit ones compute too, with the same result |
| ValueOperation.NarrowOverflow | src/vm/value/operation.rs:29 | example: the largest `i32` plus one overflows here, but not in the 64-bit machine |
| ValueOperation.UnsupportedWording | src/vm/value/exception.rs:14-21 | example: a string plus a number is reported as "Unsupported operation [String + Int]" |
| ValueConversion.Unsupported | src/vm/value/conversion.rs:34 | a pairing `convert` does not handle is always an error |
| ValueConversion.Convert | src/vm/value/conversion.rs:26-72 | `convert` succeeds only for tags up to 4; tag 2 gives a string, tag 4 a bool, tag 3 a one-element array |
| ValueConversion.OwnKindIsIdentity | src/vm/value/conversion.rs:26-65 | converting to a value's own kind gives the value back, for every kind but Array and None |
| ValueConversion.IntegerStringRoundTrip | src/vm/value/conversion.rs:29-55 | an `i32` written as a string and converted back is the same integer |
| ValueConversion.BoolIntegerRoundTrip | src/vm/value/conversion.rs:58-65 | a boolean converted to 1 or 0 and back is the same boolean |
| ValueConversion.SingletonAndTruth | src/vm/value/conversion.rs:26-65 | tag 3 wraps every value but an array or none in a one-element array; tag 4 gives positive numbers, non-empty strings and `true` as true |
| ValueConversion.Rejections | src/vm/value/conversion.rs:66-71 | an array converts only to a string, its rendering; `none` converts to nothing; tags above 4 fail for every value |
| ValueConversion.RejectionWording | src/vm/value/exception.rs:23-37 | example: the rejection names the kind and the tag, as in "Unsupported operation [None as Int]" |
| ValueException.GetType | src/vm/value/exception.rs:3-12 | every kind has a non-empty name |
| ValueException.UnsupportedOperation | src/vm/value/exception.rs:14-21 | the operation message is never empty |
| ValueException.KindTag | src/vm/value/exception.rs:23-37 | each kind's conversion tag is one of 0 to 5 |
| ValueException.TagName | src/vm/value/exception.rs:27-36 | a tag has a name exactly when it is at most 5; a larger one panics |
| ValueException.TagsNameKinds | src/vm/value/exception.rs:3-37 | the tag of a kind is named after the kind, and no two tags share a name |
| ValueException.UnsupportedConversion | src/vm/value/exception.rs:23-37 | `unsupported_conversion` builds "Unsupported operation [kind as tag]" exactly for tags up to 5 |
| Ints.QuotRem | src/vm/arithmetic.rs:77-97 | truncating quotient and remainder reassemble the dividend; the remainder is smaller than the divisor and carries the dividend's sign |
| Ints.CheckedQuotFails | src/vm/arithmetic.rs:77 | `checked_div` of two in-range values fails exactly on a zero divisor and on MIN / -1 |
| Ints.NatToDecimal | src/vm/macro.rs:6 | an integer's `to_string` is a non-empty run of digits without a leading zero |
| Ints.NatToDecimalValue | src/vm/macro.rs:6 | the digits of that rendering have the integer's value |
| Ints.ParseInt | src/lexer.rs:168 | `parse::<i32>` gives only in-range values |
| Ints.ParseIntRoundTrip | src/lexer.rs:168 | rendering an in-range integer and parsing it back gives the integer |
| Ints.Repeat | src/vm/arithmetic.rs:53 | `repeat` makes `n` times the string's length |
| Ints.RepeatAt | src/vm/arithmetic.rs:53 | character k of a repetition is character k mod the length of the string |
| Ints.RepeatString | src/vm/arithmetic.rs:53 | a non-negative count repeats the string; a negative count, cast to `usize`, succeeds only on the empty string |
| Floats.ToI32 | src/vm/value/conversion.rs:41 | `as i32` truncates toward zero, so the result lies within 1 of the float on the side of zero; floats beyond the `i32` range saturate to `i32::MAX` or `i32::MIN` |
| Floats.Trunc | src/vm/value/conversion.rs:41 | truncation toward zero: a non-negative float lies in `[r, r + 1)`, a negative one in `(r - 1, r]` |
| Floats.DotPosition | src/lexer.rs:165 | the first point at or after an index, or the end when there is none |
| Floats.ParseFloat | src/lexer.rs:170 | `parse::<f32>` succeeds only on text holding a digit, with nothing but digits and points after an optional sign; it succeeds on every unsigned digit text with at most one point, giving a value of at least zero |
| Floats.ParseWhole | src/lexer.rs:170 | the decimal spelling of a whole number `n` parses as `n`, and as `-n` after a minus sign |
| Floats.ParseOneDecimal | src/lexer.rs:170 | the text `n.d` parses as `n + d/10`, and as its negation after a minus sign |
| Floats.OneDecimalValue | src/lexer.rs:170 | the text `n.d` is decimal text with one point and value `n + d/10` |
| SrcLexer.OneDecimalToken | src/lexer.rs:165-171 | the number run `n.d` becomes the token `Float(n + d/10)` |
| SrcLexer.LexOneDecimal | src/lexer.rs:157-171 | the number reader takes the whole spelling `n.d` and adds the token `Float(n + d/10)` to the current line |
| ValueConversion.FloatToInteger | src/vm/value/conversion.rs:41 | converting a float to an integer always succeeds, truncating toward zero and saturating at the bounds of `i32` |
| ValueConversion.StringToFloat | src/vm/value/conversion.rs:45-48 | converting unsigned decimal text to a float gives the exact value it spells (`Floats.DecimalValue`, which `Floats.OneDecimalValue` pins to `n + d/10` for `n.d`), and its negation after a minus sign |

## Left out

- `VmArithmetic.OrderingDuality`: floats are exact reals, so there is no NaN. With a NaN operand every comparison in `src/vm/arithmetic.rs` is false, and `more_than` is then not the negation of `less`. The lemma holds only for operands that are not NaN.
- `LacecCommon.OrderingDuality`: the same restriction for the `f32` comparisons of `lacec/src/common.rs`.
- `HlvmDev.Initialize`: `initialize` clones a blueprint's attribute list (`Vec<String>`) into a struct instance, which holds a map. That does not type-check as written. The model makes each attribute a field holding `Number(0.0)`, which is an assumption, not the source's behaviour.
- `CompilerCodegen.CallArgumentsBindInOrder`: binding in source order is proved only for arguments that contain no user-function call. Such a call's value depends on the callee's body. The model has no evaluator for HIR blocks, only the LIR machine, so the lemma does not cover those arguments.
- Panic, `unwrap` and error messages keep only their fixed words. Any part Rust formats from a value (a `{:?}` or `{}` argument, the `: ParseIntError { .. }` suffix `unwrap` adds, the `: the len is N but the index is K` suffix of an index panic) is dropped, because `Debug` and `Display` rendering is not modelled. Terminal colour codes are dropped too: the ANSI escapes `.magenta()` wraps around a name (lace/src/vm.rs:98, :119) are not part of the modelled text. This covers:
  - the `HlvmDev` errors of `initialize`, `get`, `set` and `call`, and the `todo!` arm of the HLVM dispatch loop;
  - `HlvmDev.Print` with no argument ("index out of bounds");
  - `CompilerTypecheck.CheckNode` on a mismatched declaration, which gives "Expected type" without the two types;
  - `SrcLexer.NumberToken` when `parse::<i32>` or `parse::<f32>` fails inside `unwrap`;
  - `VmRun.Simple` and `VmRun.MacroStep` with a constant index past the pool;
  - `LaceVm.ConstantName` and `LaceVm.ExecVariable` with a constant index past the pool;
  - `LaceVm.NOT_CALLABLE` and the unknown-primitive error of `LaceVm`, whose name is written without the colour codes.
- Floats (`f32` and `f64`) are exact reals. Rounding, NaN and infinities are not modelled. Division and remainder by zero and `powf` with a non-natural exponent give `0.0` (`Floats.Div`, `Floats.Rem`, `Floats.Pow`). How a float is written as text is the parameter `showFloat`. `str::parse::<f32>` reads only plain decimal text.
- Integer overflow follows debug builds: an overflowing `i32`/`usize` operation is a failure with Rust's panic message. Release builds would wrap silently, and that is not modelled.
- The generation C lexer works on `char`s, and the source's `ASCII` class tests are modelled as ASCII ranges. Byte offsets and multi-byte characters are not modelled.
- Line numbers, token positions and the `Context`/`BaseContext` a `raise` prints are dropped everywhere. A `raise` becomes an `Err` with its message.
- `src/vm/mod.rs` uses opcodes with operands (`LoadConst(idx)`, `CallMacro(idx, n)`, `CallFunction(idx, n)`, `LoadBuiltinValue(idx)`) and `CodeObject` fields `functions`, `parameters` and `file` that `src/vm/opcode.rs` does not declare. `VmRun` adds them, as the machine's code uses them. The word-stream layout of `src/vm/opcode.rs` is modelled separately in `VmOpcode`.
- `VmCommon.GetType`: the `List` arm of `get_type` is commented out in `src/vm/common.rs`, so the match is not exhaustive. A list has no name in the model, and `unsupported_operation` on a list is `None`.
- `src/vm/value/` is written against a `Value` with `Array`, `i32` and `f32`, while `src/vm/opcode.rs` declares `List`, `i64` and `f64`. The model uses one `Value` and runs the value layer at 32-bit width (`ValueOperation`).
- `src/compiler.rs` matches `Node::Assignment`, which `src/parser.rs` does not declare. `SrcCompiler` takes a sequence of `Statement`s, an assignment or anything else, and compiles only assignments, as the source does.
- `lace/src/vm.rs` executes `BinaryXor`, `LogicalAnd` and `LogicalOr`, which `lacec/src/common.rs` does not declare. For `BinaryOr`, `BinaryXor` and `BinaryAnd` it calls value methods `bo`, `bx` and `ba` that do not exist. The missing instructions are added to `LacecInstruction`. `LogicalAnd` and `LogicalOr` are executed on truthiness, as written. The three bitwise instructions fail with the missing method's name.
- `HlvmInstruction::Get` is emitted by `hlvm/src/hir.rs` and `compiler/src/codegen.rs` but is missing from `hlvm/src/lir.rs`. It is added to the instruction set, and `HlvmVm` fails on it, as the dispatch loop's `todo!` arm would.
- `NodeValue::Return`, `PrimitiveFunctionCall` and `StructInit` are used by `compiler/src/codegen.rs` but are missing from `compiler/src/parser.rs`. They are added to `CompilerAst` so that code generation can be modelled, and the parser never produces them.
- The virtual machines run on a fuel budget: `HlvmVm.Run`, `LaceVm.Run` and `VmRun.Run` end in `NoFuel` when it is exhausted. Runs that do not terminate, and the stack overflow of deep recursion, are not modelled.
- Side effects are recorded, not performed. `print` and `writeln!` append to an output log. `exit` and `exit!` end the run with an `Exited` outcome. `runtime_error`, which prints and exits, becomes a failure with its message.
- `src/vm/mod.rs:149` prints the variables with `{:?}` when a run ends. The model records the map in the output log. The text of `HashMap`'s `Debug` form and its iteration order are not modelled.
- The `println!` debugging lines inside `from_hir` (`hlvm/src/hir.rs:179` and `hlvm/src/hir.rs:193`) are not modelled.
- CompilerParser.Params: the debugging `println!("{:?}", self.current)` inside the parameter loop (`compiler/src/parser.rs:479`) is not modelled; the parser has no output.
- Floats.ParseFloat: `parse::<f32>` rounds to the nearest `f32` and also accepts exponents, `inf` and `NaN`; the model reads decimal text exactly as a real and rejects the other forms.
- `HashMap` and `Vec` capacity hints, cloning and borrowing have no counterpart.
- Not part of this model: the command-line programs and file I/O (`src/main.rs`, `src/io.rs`, `lacec/src/main.rs`, `lace/src/main.rs`, `compiler/src/main.rs`, `shoelace/`), bytecode serialization (`lacec/src/bytecode.rs`), the scanners (`lacec/src/scanner.rs`, `compiler/src/scanner.rs`), and the error printers (`src/error.rs`, `compiler/src/error.rs`). The parsers start from a token sequence.

## Findings

| source | as written | input that shows it | evidently intended | confidence | as-written member | corrected member |
|---|---|---|---|---|---|---|
| hlvm/src/hir.rs:184-197 | the guard of the last alternative jumps to `end_offset`; every other guard jumps to `block_offsets[index + 1]`, one alternative too far | `if false { } else { print(1) }`: the guard jumps past the `else` block, so it never runs | as the doc comment at hlvm/src/hir.rs:75-76 says, `onfalse` runs when every condition is false, and each guard goes to the next alternative | high (not executed) | HlvmHir.AsWrittenGuards | HlvmHir.CorrectedGuards |
| hlvm/src/hir.rs:161-212 | nested blocks are lowered by a recursive `from_hir` that starts addressing at 0, and are appended without relocating their jumps | `if true { while false { } }`: the loop's guard and back edge keep the targets 4 and 0 instead of 7 and 3, and the run fails on an empty stack | jump targets inside a nested block are offset by the block's position | high (not executed) | HlvmHir.NestedLoopCode | HlvmHir.NestedLoopRuns |
| hlvm/src/dev.rs:90-94 | `String + String` appends `stringify!(_b)`, the literal text `_b`, and ignores the right operand | `"a" + "c"` gives `"a_b"` | concatenation, `"ac"` | high (not executed) | HlvmDev.AddAsWrittenIgnoresRight | HlvmDev.AddConcatenates |
| src/lexer.rs:144-161 | identifiers and numbers call `grab(&source, i - 1, …)`, and `i - 1` underflows a `usize` when the token starts at index 0 | `let x = 1` (any program that starts with a letter or digit) panics in a debug build; a release build wraps around harmlessly | read the token at index 0 like any other | medium (not executed) | SrcLexer.AsWrittenUnderflows | SrcLexer.CorrectedRoundTrip |
| src/parser.rs:228-247 | the loop of `parse_mul_div` re-splits the whole token list at every multiplicative operator, and parses everything before the current one as a single value | `2 * 3 * 4`: at the second `*`, `2 * 3` is parsed as one value and raises "Expected only one value" | split at the first top-level operator and parse the rest as a product | high (not executed) | SrcParser.ThreeFactorsAsWritten | SrcParser.ThreeFactorsCorrected |
