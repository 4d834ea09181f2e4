/** The high-level intermediate representation (HIR) and its lowering to LIR.

Straight-line HIR instructions map one-to-one onto LIR; `LoadModule` expands to five
instructions; `IfStatement` and `WhileStatement` are flattened into `Not`, `JumpIf`
and `Jump`, emitted with placeholder targets that are patched once the addresses
are known.

The lowering is written once, with a `Build` switch for the two places where the
source and its documented intent part ways:
- `AsWritten` follows the source: nested blocks are lowered by a fresh call whose
  addresses start at 0 and are appended without relocation, and the k-th guard of
  an if-chain is sent to the start of alternative k+1 (the last one to the end,
  past `onfalse`).
- `Corrected` lowers nested blocks in place (absolute addresses) and sends the k-th
  guard to the start of alternative k, the last one to `onfalse`, as the
  documentation of `onfalse` promises.
`FromHir` is the source's `from_hir`; `Lower` is the corrected lowering.
 */
module HlvmHir {
  import opened Wrappers
  import L = HlvmLir
  import Vm = HlvmVm

  datatype Hir =
    | Push(value: L.HlvmValue)
    | Call
    | CallPrimitive(index: nat, count: nat)
    | Return
    | ReturnValue
    | Get(name: string)
    | GetLocal(name: string)
    | GetGlobal(name: string)
    | SetLocal(name: string)
    | SetGlobal(name: string)
    | GetAttribute(attr: string)
    | SetAttribute(attr: string)
    | Instantiate
      /** Binds a module (a map of members) to a global and calls its `<hlvm:main>`. */
    | LoadModule(name: string, members: map<string, L.HlvmValue>)
    | Add
    | Subtract
    | Multiply
    | Divide
    | Equal
    | NotEqual
    | GreaterThan
    | LessThan
    | GreaterThanOrEqual
    | LessThanOrEqual
    | And
    | Or
    | BinaryAnd
    | BinaryOr
    | Not
    | Negate
    | Typeof
      /** The condition is on top of the stack when the statement starts. */
    | IfStatement(ontrue: seq<Hir>, onelseif: ElseIfs, onfalse: seq<Hir>)
    | WhileStatement(condition: seq<Hir>, body: seq<Hir>)

  /** The optional list of else-if arms. */
  datatype ElseIfs = NoElseIfs | ElseIfs(arms: seq<ElseIf>)

  /** One else-if arm: the code computing its condition, and its block. */
  datatype ElseIf = ElseIf(condition: seq<Hir>, code: seq<Hir>)

  datatype Build = AsWritten | Corrected

  /** The two kinds of placeholder: a guard's `JumpIf` to the next alternative, and a
      block's closing `Jump` to the end of the whole statement. */
  datatype JumpType = Next | End

  type Code = seq<L.HlvmInstruction>

  const MODULE_MAIN := "<hlvm:main>"

  function ArmsOf(e: ElseIfs): seq<ElseIf> {
    match e
    case NoElseIfs => []
    case ElseIfs(arms) => arms
  }

  lemma IfLen(h: Hir)
    requires h.IfStatement?
    ensures InstrLen(h) == 3 + Len(h.ontrue) + ArmsLen(ArmsOf(h.onelseif)) + Len(h.onfalse)
  {
    assert ArmsLen([]) == 0;
  }

  /** Instructions with a direct LIR counterpart. */
  predicate IsSimple(h: Hir) {
    !h.LoadModule? && !h.IfStatement? && !h.WhileStatement?
  }

  /** The LIR instruction of the same kind as a simple HIR instruction. */
  function ToLir(h: Hir): L.HlvmInstruction
    requires IsSimple(h)
  {
    match h
    case Push(v) => L.Push(v)
    case Call => L.Call
    case CallPrimitive(i, n) => L.CallPrimitive(i, n)
    case Return => L.Return
    case ReturnValue => L.ReturnValue
    case Get(n) => L.Get(n)
    case GetLocal(n) => L.GetLocal(n)
    case GetGlobal(n) => L.GetGlobal(n)
    case SetLocal(n) => L.SetLocal(n)
    case SetGlobal(n) => L.SetGlobal(n)
    case GetAttribute(a) => L.GetAttribute(a)
    case SetAttribute(a) => L.SetAttribute(a)
    case Instantiate => L.Instantiate
    case Add => L.Add
    case Subtract => L.Subtract
    case Multiply => L.Multiply
    case Divide => L.Divide
    case Equal => L.Equal
    case NotEqual => L.NotEqual
    case GreaterThan => L.GreaterThan
    case LessThan => L.LessThan
    case GreaterThanOrEqual => L.GreaterThanOrEqual
    case LessThanOrEqual => L.LessThanOrEqual
    case And => L.And
    case Or => L.Or
    case BinaryAnd => L.BinaryAnd
    case BinaryOr => L.BinaryOr
    case Not => L.Not
    case Negate => L.Negate
    case Typeof => L.Typeof
  }

  /** The number of LIR instructions a HIR sequence lowers to, computed from the
      shape of the HIR alone. */
  function Len(src: seq<Hir>): nat
    decreases src
  {
    if |src| == 0 then 0 else InstrLen(src[0]) + Len(src[1..])
  }

  function InstrLen(h: Hir): nat
    decreases h
  {
    match h
    case LoadModule(_, _) => 5
    case IfStatement(t, NoElseIfs, f) => 3 + Len(t) + Len(f)
    case IfStatement(t, ElseIfs(arms), f) => 3 + Len(t) + ArmsLen(arms) + Len(f)
    case WhileStatement(c, b) => Len(c) + 3 + Len(b)
    case _ => 1
  }

  function ArmsLen(arms: seq<ElseIf>): nat
    decreases arms
  {
    if |arms| == 0 then 0
    else 3 + Len(arms[0].condition) + Len(arms[0].code) + ArmsLen(arms[1..])
  }

  /** A jump target, or 0 for an instruction that does not jump. */
  function Target(i: L.HlvmInstruction): nat {
    match i
    case Jump(t) => t
    case JumpIf(t) => t
    case _ => 0
  }

  /** The largest jump target in the code (0 without jumps). */
  function MaxTarget(code: Code): nat
    decreases |code|
  {
    if |code| == 0 then 0
    else var rest := MaxTarget(code[1..]); if Target(code[0]) > rest then Target(code[0]) else rest
  }

  /** Every jump lands inside the code or just past its end. */
  predicate Bounded(code: Code) {
    MaxTarget(code) <= |code|
  }

  /** `MaxTarget` bounds every target and is one of them (or 0). */
  lemma {:induction false} MaxTargetBounds(code: Code)
    decreases |code|
    ensures forall k :: 0 <= k < |code| ==> Target(code[k]) <= MaxTarget(code)
    ensures MaxTarget(code) == 0 || exists k :: 0 <= k < |code| && Target(code[k]) == MaxTarget(code)
  {
    if |code| > 0 {
      MaxTargetBounds(code[1..]);
      forall k | 1 <= k < |code| ensures Target(code[k]) <= MaxTarget(code) {
        assert code[1..][k - 1] == code[k];
      }
      if MaxTarget(code) != Target(code[0]) && MaxTarget(code) != 0 {
        var k :| 0 <= k < |code[1..]| && Target(code[1..][k]) == MaxTarget(code[1..]);
        assert code[k + 1] == code[1..][k];
      }
    }
  }

  /** `Bounded` says exactly that every jump target is at most the code length. */
  lemma BoundedMeans(code: Code)
    ensures Bounded(code) <==> forall k :: 0 <= k < |code| ==> Target(code[k]) <= |code|
  {
    MaxTargetBounds(code);
  }

  lemma {:induction false} MaxTargetAppend(a: Code, b: Code)
    decreases |a|
    ensures MaxTarget(a + b) == if MaxTarget(a) > MaxTarget(b) then MaxTarget(a) else MaxTarget(b)
  {
    if |a| == 0 {
      assert a + b == b;
    } else {
      MaxTargetAppend(a[1..], b);
      assert (a + b)[1..] == a[1..] + b;
    }
  }

  lemma {:induction false} MaxTargetUpdate(code: Code, k: nat, i: L.HlvmInstruction)
    requires k < |code|
    decreases |code|
    ensures MaxTarget(code[k := i]) <= if MaxTarget(code) > Target(i) then MaxTarget(code) else Target(i)
  {
    if k > 0 {
      MaxTargetUpdate(code[1..], k - 1, i);
      assert code[k := i][1..] == code[1..][k - 1 := i];
    } else {
      assert code[k := i][1..] == code[1..];
    }
  }

  /** The number of guard placeholders in a patch list. */
  function NextCount(jumps: seq<(nat, JumpType)>): nat
    decreases |jumps|
  {
    if |jumps| == 0 then 0
    else (if jumps[0].1 == Next then 1 else 0) + NextCount(jumps[1..])
  }

  /** Where the `i`-th guard of an if-chain is sent, given the start addresses of the
      alternatives after the first (`blocks`) and the end of the statement. */
  function NextTarget(build: Build, blocks: seq<nat>, end: nat, i: nat): nat {
    match build
    case AsWritten => if i + 1 < |blocks| then blocks[i + 1] else end
    case Corrected => if i < |blocks| then blocks[i] else end
  }

  /** The patch loop: each `End` placeholder becomes `Jump(end)`, each `Next`
      placeholder a `JumpIf` to the block chosen by the running index. */
  function PatchIf(build: Build, code: Code, jumps: seq<(nat, JumpType)>, blocks: seq<nat>,
                   end: nat, index: nat): (r: Code)
    requires forall k :: 0 <= k < |jumps| ==> jumps[k].0 < |code|
    requires index + NextCount(jumps) <= |blocks|
    decreases |jumps|
    ensures |r| == |code|
  {
    if |jumps| == 0 then code
    else
      var off := jumps[0].0;
      match jumps[0].1
      case End => PatchIf(build, code[off := L.Jump(end)], jumps[1..], blocks, end, index)
      case Next =>
        match build
        case AsWritten =>
          if index + 1 == |blocks| then
            PatchIf(build, code[off := L.JumpIf(end)], jumps[1..], blocks, end, index)
          else
            PatchIf(build, code[off := L.JumpIf(blocks[index + 1])], jumps[1..], blocks, end, index + 1)
        case Corrected =>
          PatchIf(build, code[off := L.JumpIf(blocks[index])], jumps[1..], blocks, end, index + 1)
  }

  /** The patch loop leaves every unlisted address alone, and writes only targets
      within the code. */
  lemma {:induction false} PatchIfKeeps(build: Build, code: Code, jumps: seq<(nat, JumpType)>,
                                        blocks: seq<nat>, end: nat, index: nat)
    requires forall k :: 0 <= k < |jumps| ==> jumps[k].0 < |code|
    requires index + NextCount(jumps) <= |blocks|
    decreases |jumps|
    ensures var r := PatchIf(build, code, jumps, blocks, end, index);
      (forall q :: (0 <= q < |code| && (forall k :: 0 <= k < |jumps| ==> jumps[k].0 != q))
                   ==> r[q] == code[q])
      && (Bounded(code) && end <= |code| && (forall k :: 0 <= k < |blocks| ==> blocks[k] <= |code|)
          ==> Bounded(r))
  {
    if |jumps| > 0 {
      var code' := code[jumps[0].0 := Patched(build, jumps, blocks, end, index, 0)];
      PatchIfUnfold(build, code, jumps, blocks, end, index);
      PatchIfKeeps(build, code', jumps[1..], blocks, end, IndexAfterFirst(build, jumps, blocks, index));
      if Bounded(code) && end <= |code| && (forall k :: 0 <= k < |blocks| ==> blocks[k] <= |code|) {
        assert index + NextCount(jumps) <= |blocks|;
        PatchedInRange(build, jumps, blocks, end, index);
        BoundedUpdate(code, jumps[0].0, Patched(build, jumps, blocks, end, index, 0));
      }
      forall q | 0 <= q < |code| && (forall k :: 0 <= k < |jumps| ==> jumps[k].0 != q)
        ensures PatchIf(build, code, jumps, blocks, end, index)[q] == code[q]
      {
        assert jumps[0].0 != q;
        forall k | 0 <= k < |jumps[1..]| ensures jumps[1..][k].0 != q {
          assert jumps[1..][k] == jumps[k + 1];
        }
      }
    }
  }

  /** A patched jump targets `end` or one of the block addresses. */
  lemma PatchedInRange(build: Build, jumps: seq<(nat, JumpType)>, blocks: seq<nat>, end: nat, index: nat)
    requires |jumps| > 0
    ensures Target(Patched(build, jumps, blocks, end, index, 0)) == end
      || exists k :: 0 <= k < |blocks| && Target(Patched(build, jumps, blocks, end, index, 0)) == blocks[k]
  {
    assert jumps[..0] == [];
    var t := NextTarget(build, blocks, end, index);
    if build == AsWritten && index + 1 < |blocks| {
      assert t == blocks[index + 1];
    } else if build == Corrected && index < |blocks| {
      assert t == blocks[index];
    }
  }

  /** The instruction the patch loop writes for the `k`-th entry of the patch list. */
  function Patched(build: Build, jumps: seq<(nat, JumpType)>, blocks: seq<nat>, end: nat,
                   index: nat, k: nat): L.HlvmInstruction
    requires k < |jumps|
  {
    if jumps[k].1 == End then L.Jump(end)
    else L.JumpIf(NextTarget(build, blocks, end, index + NextCount(jumps[..k])))
  }

  /** Addresses in a patch list strictly increase. */
  predicate Increasing(jumps: seq<(nat, JumpType)>) {
    forall i, j :: 0 <= i < j < |jumps| ==> jumps[i].0 < jumps[j].0
  }

  /** The running index after the first entry of a patch list. */
  function IndexAfterFirst(build: Build, jumps: seq<(nat, JumpType)>, blocks: seq<nat>, index: nat): nat
    requires |jumps| > 0
  {
    if jumps[0].1 == End || (build == AsWritten && index + 1 == |blocks|) then index else index + 1
  }

  /** One turn of the patch loop: write the first entry, continue with the rest. */
  lemma PatchIfUnfold(build: Build, code: Code, jumps: seq<(nat, JumpType)>,
                      blocks: seq<nat>, end: nat, index: nat)
    requires |jumps| > 0
    requires forall k :: 0 <= k < |jumps| ==> jumps[k].0 < |code|
    requires index + NextCount(jumps) <= |blocks|
    ensures index + NextCount(jumps) <= |blocks|
    ensures var code' := code[jumps[0].0 := Patched(build, jumps, blocks, end, index, 0)];
      var index' := IndexAfterFirst(build, jumps, blocks, index);
      index' + NextCount(jumps[1..]) <= |blocks|
      && PatchIf(build, code, jumps, blocks, end, index)
         == PatchIf(build, code', jumps[1..], blocks, end, index')
  {
    assert jumps[..0] == [];
  }

  /** The patch loop writes, at every listed address, the jump that entry calls for. */
  lemma {:induction false} PatchIfEffect(build: Build, code: Code, jumps: seq<(nat, JumpType)>,
                                         blocks: seq<nat>, end: nat, index: nat)
    requires forall k :: 0 <= k < |jumps| ==> jumps[k].0 < |code|
    requires index + NextCount(jumps) <= |blocks|
    requires Increasing(jumps)
    decreases |jumps|
    ensures forall k :: 0 <= k < |jumps| ==>
      PatchIf(build, code, jumps, blocks, end, index)[jumps[k].0] == Patched(build, jumps, blocks, end, index, k)
  {
    if |jumps| > 0 {
      var rest := jumps[1..];
      var index' := IndexAfterFirst(build, jumps, blocks, index);
      var code' := code[jumps[0].0 := Patched(build, jumps, blocks, end, index, 0)];
      PatchIfUnfold(build, code, jumps, blocks, end, index);
      PatchIfEffect(build, code', rest, blocks, end, index');
      forall k | 0 <= k < |jumps|
        ensures PatchIf(build, code', rest, blocks, end, index')[jumps[k].0]
                == Patched(build, jumps, blocks, end, index, k)
      {
        if k == 0 {
          PatchIfFirst(build, code', jumps, blocks, end, index');
        } else {
          PatchedShift(build, jumps, blocks, end, index, k);
        }
      }
    }
  }

  /** The first entry's address is not written again by the rest of the loop. */
  lemma PatchIfFirst(build: Build, code: Code, jumps: seq<(nat, JumpType)>,
                     blocks: seq<nat>, end: nat, index: nat)
    requires |jumps| > 0 && Increasing(jumps)
    requires forall k :: 0 <= k < |jumps| ==> jumps[k].0 < |code|
    requires index + NextCount(jumps[1..]) <= |blocks|
    ensures PatchIf(build, code, jumps[1..], blocks, end, index)[jumps[0].0] == code[jumps[0].0]
  {
    var rest := jumps[1..];
    forall j | 0 <= j < |rest| ensures rest[j].0 != jumps[0].0 {
      assert rest[j] == jumps[j + 1];
    }
    PatchIfKeeps(build, code, rest, blocks, end, index);
  }

  /** The `k`-th entry is the rest's `k-1`-th, patched with the index after the first. */
  lemma PatchedShift(build: Build, jumps: seq<(nat, JumpType)>, blocks: seq<nat>, end: nat,
                     index: nat, k: nat)
    requires 0 < k < |jumps|
    requires index + NextCount(jumps) <= |blocks|
    ensures Patched(build, jumps[1..], blocks, end, IndexAfterFirst(build, jumps, blocks, index), k - 1)
            == Patched(build, jumps, blocks, end, index, k)
  {
    var rest := jumps[1..];
    assert rest[k - 1] == jumps[k];
    assert jumps[..k] == [jumps[0]] + rest[..k - 1];
    NextCountAppend([jumps[0]], rest[..k - 1]);
    assert [jumps[0]][1..] == rest[..0];
    if jumps[k].1 == Next && jumps[0].1 == Next && build == AsWritten && index + 1 == |blocks| {
      NextCountSplit(jumps, k);
      assert false;
    }
  }

  /** A patch list's guards split at any point, and an entry that is a guard is counted. */
  lemma NextCountSplit(jumps: seq<(nat, JumpType)>, k: nat)
    requires k < |jumps|
    ensures NextCount(jumps) >= NextCount(jumps[..k]) + (if jumps[k].1 == Next then 1 else 0)
  {
    assert jumps == jumps[..k] + jumps[k..];
    NextCountAppend(jumps[..k], jumps[k..]);
  }

  lemma {:induction false} NextCountAppend(a: seq<(nat, JumpType)>, b: seq<(nat, JumpType)>)
    ensures NextCount(a + b) == NextCount(a) + NextCount(b)
    decreases |a|
  {
    if |a| == 0 {
      assert a + b == b;
    } else {
      NextCountAppend(a[1..], b);
      assert (a + b)[1..] == a[1..] + b;
    }
  }

  /** A guard followed by a block's closing jump holds one guard. */
  lemma NextCountPair(g: nat, e: nat)
    ensures NextCount([(g, Next), (e, End)]) == 1
  {
    var pair := [(g, Next), (e, End)];
    assert pair[1..] == [(e, End)];
    assert [(e, End)][1..] == [];
    assert NextCount([(e, End)]) == 0 + NextCount([]);
    assert NextCount(pair) == 1 + NextCount(pair[1..]);
  }

  /** Appending code whose jumps stay in range keeps every jump in range. */
  lemma BoundedAppend(a: Code, b: Code)
    requires MaxTarget(b) <= |a| + |b|
    ensures Bounded(a) ==> Bounded(a + b)
  {
    MaxTargetAppend(a, b);
  }

  /** Overwriting one instruction with a jump in range keeps every jump in range. */
  lemma BoundedUpdate(code: Code, k: nat, i: L.HlvmInstruction)
    requires k < |code| && Target(i) <= |code|
    ensures Bounded(code) ==> Bounded(code[k := i])
  {
    MaxTargetUpdate(code, k, i);
  }

  /** `from_hir` as written. */
  function FromHir(source: seq<Hir>): (r: Code)
    ensures |r| == Len(source)
    ensures forall k :: 0 <= k < |r| ==> Target(r[k]) <= |r|
  {
    EmitInRange(AsWritten, [], source);
    BoundedMeans(Emit(AsWritten, [], source));
    Emit(AsWritten, [], source)
  }

  /** The corrected lowering: nested blocks in place, guards to the next alternative. */
  function Lower(source: seq<Hir>): (r: Code)
    ensures |r| == Len(source)
    ensures forall k :: 0 <= k < |r| ==> Target(r[k]) <= |r|
  {
    EmitInRange(Corrected, [], source);
    BoundedMeans(Emit(Corrected, [], source));
    Emit(Corrected, [], source)
  }

  /** Lowers `src` after the code already emitted in `acc`. */
  function Emit(build: Build, acc: Code, src: seq<Hir>): (r: Code)
    decreases src, 3
    ensures |r| == |acc| + Len(src)
  {
    if |src| == 0 then acc
    else Emit(build, EmitOne(build, acc, src[0]), src[1..])
  }

  /** A nested block: as written, lowered from address 0 and appended; corrected,
      lowered in place. */
  function EmitBlock(build: Build, acc: Code, block: seq<Hir>): (r: Code)
    decreases block, 4
    ensures |r| == |acc| + Len(block)
  {
    match build
    case AsWritten => acc + Emit(build, [], block)
    case Corrected => Emit(build, acc, block)
  }

  function EmitOne(build: Build, acc: Code, h: Hir): (r: Code)
    decreases h, 3
    ensures |r| == |acc| + InstrLen(h)
  {
    if IsSimple(h) then acc + [ToLir(h)]
    else if h.LoadModule? then acc + ModuleLoad(h.name, h.members)
    else if h.IfStatement? then EmitIf(build, acc, h)
    else EmitWhile(build, acc, h)
  }

  /** The five instructions that bind a module to a global and run its main function. */
  function ModuleLoad(name: string, members: map<string, L.HlvmValue>): (r: Code)
    ensures |r| == 5
  {
    [L.Push(L.StructInstance(members)), L.SetGlobal(name), L.GetGlobal(name),
     L.GetAttribute(MODULE_MAIN), L.Call]
  }

  /** Loading a module whose main function is empty: the module is bound as a global,
      its main function runs and leaves its `Number(0.0)` on the stack, and the run
      ends past the five instructions on any fuel that covers them. */
  lemma ModuleLoadRuns(name: string, members: map<string, L.HlvmValue>, m: Vm.Machine, fuel: nat)
    requires |m.frames| > 0 && fuel >= 5
    requires MODULE_MAIN in members && members[MODULE_MAIN] == L.Function([], [], None)
    ensures Vm.Run(ModuleLoad(name, members), 0, m, fuel)
      == (Returned(L.Number(0.0)),
          m.(stack := m.stack + [L.Number(0.0)], frames := m.frames[0 := m.frames[0][name := L.StructInstance(members)]]))
  {
    var code := ModuleLoad(name, members);
    var obj := L.StructInstance(members);
    var f := fuel - 5;
    var m2 := m.(frames := m.frames[0 := m.frames[0][name := obj]]);
    var m5 := Vm.Pushed(m2, L.Number(0.0));
    assert Vm.Run(code, 0, m, f + 5) == Vm.Run(code, 2, m2, f + 3) by {
      ModuleBinds(code, name, obj, m, f);
    }
    assert Vm.Run(code, 2, m2, f + 3) == Vm.Run(code, 5, m5, f) by {
      ModuleCallsMain(code, name, members, m2, f);
    }
  }

  /** The first two instructions bind the module as a global. */
  lemma ModuleBinds(code: Code, name: string, obj: L.HlvmValue, m: Vm.Machine, f: nat)
    requires |code| == 5 && code[0] == L.Push(obj) && code[1] == L.SetGlobal(name)
    requires |m.frames| > 0
    ensures Vm.Run(code, 0, m, f + 5)
      == Vm.Run(code, 2, m.(frames := m.frames[0 := m.frames[0][name := obj]]), f + 3)
  {
    var m1 := Vm.Pushed(m, obj);
    assert Vm.Popped(m1) == m;
    Vm.RunPush(code, 0, m, f + 4);
    Vm.RunSetGlobal(code, 1, m1, f + 3);
  }

  /** The last three fetch the bound module, look up its main function and call it. */
  lemma ModuleCallsMain(code: Code, name: string, members: map<string, L.HlvmValue>, m: Vm.Machine, f: nat)
    requires |code| == 5 && code[2] == L.GetGlobal(name) && code[3] == L.GetAttribute(MODULE_MAIN)
    requires code[4] == L.Call
    requires |m.frames| > 0 && name in m.frames[0] && m.frames[0][name] == L.StructInstance(members)
    requires MODULE_MAIN in members && members[MODULE_MAIN] == L.Function([], [], None)
    ensures Vm.Run(code, 2, m, f + 3) == Vm.Run(code, 5, Vm.Pushed(m, L.Number(0.0)), f)
  {
    var m3 := Vm.Pushed(m, L.StructInstance(members));
    var m4 := Vm.Pushed(m, members[MODULE_MAIN]);
    assert Vm.Popped(m3) == m && Vm.Popped(m4) == m;
    Vm.RunGetGlobal(code, 2, m, f + 2);
    Vm.RunGetAttribute(code, 3, m3, f + 1);
    Vm.RunCallEmpty(code, 4, m4, f, None);
  }

  /** The loop: condition, `Not`, a guard leaving the loop, body, and a jump back. */
  function EmitWhile(build: Build, acc: Code, h: Hir): (r: Code)
    requires h.WhileStatement?
    decreases h, 1
    ensures |r| == |acc| + InstrLen(h)
  {
    var start := |acc|;
    var a1 := EmitBlock(build, acc, h.condition) + [L.Not];
    var jmp := |a1|;
    var a2 := EmitBlock(build, a1 + [L.JumpIf(0)], h.body) + [L.Jump(start)];
    a2[jmp := L.JumpIf(|a2|)]
  }

  /** The if-chain: guard and placeholders for `ontrue`, then each else-if arm, then
      `onfalse`; the patch loop then fills in the placeholders. */
  function EmitIf(build: Build, acc: Code, h: Hir): (r: Code)
    requires h.IfStatement?
    decreases h, 2
    ensures |r| == |acc| + InstrLen(h)
  {
    var u := IfUnpatched(build, acc, h);
    PatchIf(build, u.0, u.1, u.2, |u.0|, 0)
  }

  /** The patch list of an if-chain starting at address `p`, from the HIR shape: the
      guard and closing jump of `ontrue`, then those of each arm. */
  function IfJumps(p: nat, h: Hir): seq<(nat, JumpType)>
    requires h.IfStatement?
  {
    var b0 := p + 3 + Len(h.ontrue);
    [(p + 1, Next), (b0 - 1, End)] + ArmJumps(b0, ArmsOf(h.onelseif))
  }

  /** The start address of each alternative after the first: the arms, then `onfalse`. */
  function IfBlocks(p: nat, h: Hir): seq<nat>
    requires h.IfStatement?
  {
    var b0 := p + 3 + Len(h.ontrue);
    [b0] + ArmBlocks(b0, ArmsOf(h.onelseif))
  }

  /** The if-chain before patching, with its patch list and block addresses. */
  function IfUnpatched(build: Build, acc: Code, h: Hir): (r: (Code, seq<(nat, JumpType)>, seq<nat>))
    requires h.IfStatement?
    decreases h, 1
    ensures |r.0| == |acc| + InstrLen(h)
    ensures r.1 == IfJumps(|acc|, h) && r.2 == IfBlocks(|acc|, h)
    ensures NextCount(r.1) == |r.2|
    ensures forall k :: 0 <= k < |r.1| ==> |acc| < r.1[k].0 < |r.0|
    ensures forall k :: 0 <= k < |r.2| ==> r.2[k] <= |r.0|
  {
    IfLayout(|acc|, h);
    var a0 := acc + [L.Not, L.JumpIf(0)];
    var a1 := EmitBlock(build, a0, h.ontrue) + [L.Jump(0)];
    var jumps := [(|a0| - 1, Next), (|a1| - 1, End)];
    IfLen(h);
    var chain := EmitElseIfs(build, a1, h, jumps);
    (EmitBlock(build, chain.0, h.onfalse), chain.1, chain.2)
  }

  /** The else-if arms of `h`, if any. */
  function EmitElseIfs(build: Build, code: Code, h: Hir, jumps: seq<(nat, JumpType)>)
    : (r: (Code, seq<(nat, JumpType)>, seq<nat>))
    requires h.IfStatement?
    decreases h, 0
    ensures |r.0| == |code| + ArmsLen(ArmsOf(h.onelseif))
    ensures r.1 == jumps + ArmJumps(|code|, ArmsOf(h.onelseif))
    ensures r.2 == [|code|] + ArmBlocks(|code|, ArmsOf(h.onelseif))
  {
    match h.onelseif
    case NoElseIfs =>
      assert jumps + ArmJumps(|code|, []) == jumps && [|code|] + ArmBlocks(|code|, []) == [|code|];
      (code, jumps, [|code|])
    case ElseIfs(arms) => EmitArms(build, code, arms, jumps, [|code|])
  }

  function EmitArms(build: Build, code: Code, arms: seq<ElseIf>, jumps: seq<(nat, JumpType)>,
                    blocks: seq<nat>): (r: (Code, seq<(nat, JumpType)>, seq<nat>))
    decreases arms, 0
    ensures |r.0| == |code| + ArmsLen(arms)
    ensures r.1 == jumps + ArmJumps(|code|, arms)
    ensures r.2 == blocks + ArmBlocks(|code|, arms)
  {
    if |arms| == 0 then (code, jumps, blocks)
    else
      var a1 := EmitBlock(build, code, arms[0].condition) + [L.Not, L.JumpIf(0)];
      var j1 := jumps + [(|a1| - 1, Next)];
      var a2 := EmitBlock(build, a1, arms[0].code) + [L.Jump(0)];
      var j2 := j1 + [(|a2| - 1, End)];
      EmitArms(build, a2, arms[1..], j2, blocks + [|a2|])
  }

  /** Lowering keeps every jump in range. (One lemma per lowering function, following
      its recursion.) */
  lemma {:induction false} EmitInRange(build: Build, acc: Code, src: seq<Hir>)
    decreases src, 3
    ensures Bounded(acc) ==> Bounded(Emit(build, acc, src))
  {
    if |src| > 0 {
      OneInRange(build, acc, src[0]);
      EmitInRange(build, EmitOne(build, acc, src[0]), src[1..]);
    }
  }

  lemma {:induction false} BlockInRange(build: Build, acc: Code, block: seq<Hir>)
    decreases block, 4
    ensures Bounded(acc) ==> Bounded(EmitBlock(build, acc, block))
  {
    match build
    case AsWritten =>
      EmitInRange(build, [], block);
      BoundedAppend(acc, Emit(build, [], block));
    case Corrected =>
      EmitInRange(build, acc, block);
  }

  lemma {:induction false} OneInRange(build: Build, acc: Code, h: Hir)
    decreases h, 3
    ensures Bounded(acc) ==> Bounded(EmitOne(build, acc, h))
  {
    if IsSimple(h) {
      assert MaxTarget([ToLir(h)]) == 0;
      BoundedAppend(acc, [ToLir(h)]);
    } else if h.LoadModule? {
      var ml := ModuleLoad(h.name, h.members);
      assert MaxTarget(ml) == 0 by {
        assert ml[1..][1..][1..][1..][1..] == [];
        assert MaxTarget(ml[4..]) == 0;
        assert MaxTarget(ml[3..]) == 0;
        assert MaxTarget(ml[2..]) == 0;
        assert MaxTarget(ml[1..]) == 0;
      }
      BoundedAppend(acc, ml);
    } else if h.IfStatement? {
      IfInRange(build, acc, h);
    } else {
      WhileInRange(build, acc, h);
    }
  }

  lemma {:induction false} WhileInRange(build: Build, acc: Code, h: Hir)
    requires h.WhileStatement?
    decreases h, 1
    ensures Bounded(acc) ==> Bounded(EmitWhile(build, acc, h))
  {
    var c := EmitBlock(build, acc, h.condition);
    var a1 := c + [L.Not];
    var b := EmitBlock(build, a1 + [L.JumpIf(0)], h.body);
    var a2 := b + [L.Jump(|acc|)];
    if Bounded(acc) {
      assert Bounded(a1 + [L.JumpIf(0)]) by {
        BlockInRange(build, acc, h.condition);
        BoundedAppend(c, [L.Not]);
        BoundedAppend(a1, [L.JumpIf(0)]);
      }
      assert Bounded(a2) by {
        BlockInRange(build, a1 + [L.JumpIf(0)], h.body);
        BoundedAppend(b, [L.Jump(|acc|)]);
      }
      BoundedUpdate(a2, |a1|, L.JumpIf(|a2|));
    }
  }

  lemma {:induction false} IfInRange(build: Build, acc: Code, h: Hir)
    requires h.IfStatement?
    decreases h, 2
    ensures Bounded(acc) ==> Bounded(EmitIf(build, acc, h))
  {
    var u := IfUnpatched(build, acc, h);
    UnpatchedInRange(build, acc, h);
    IfLayout(|acc|, h);
    PatchIfKeeps(build, u.0, u.1, u.2, |u.0|, 0);
    EmitIfUnfold(build, acc, h);
  }

  lemma {:induction false} UnpatchedInRange(build: Build, acc: Code, h: Hir)
    requires h.IfStatement?
    decreases h, 1
    ensures Bounded(acc) ==> Bounded(IfUnpatched(build, acc, h).0)
  {
    var a0 := acc + [L.Not, L.JumpIf(0)];
    var t := EmitBlock(build, a0, h.ontrue);
    var a1 := t + [L.Jump(0)];
    var jumps := [(|a0| - 1, Next), (|a1| - 1, End)];
    var chain := EmitElseIfs(build, a1, h, jumps);
    if Bounded(acc) {
      assert Bounded(a1) by {
        BoundedAppend(acc, [L.Not, L.JumpIf(0)]);
        BlockInRange(build, a0, h.ontrue);
        BoundedAppend(t, [L.Jump(0)]);
      }
      assert Bounded(chain.0) by {
        ElseIfsInRange(build, a1, h, jumps);
      }
      BlockInRange(build, chain.0, h.onfalse);
      assert IfUnpatched(build, acc, h).0 == EmitBlock(build, chain.0, h.onfalse);
    }
  }

  lemma {:induction false} ElseIfsInRange(build: Build, code: Code, h: Hir, jumps: seq<(nat, JumpType)>)
    requires h.IfStatement?
    decreases h, 0
    ensures Bounded(code) ==> Bounded(EmitElseIfs(build, code, h, jumps).0)
  {
    match h.onelseif
    case NoElseIfs =>
    case ElseIfs(arms) => ArmsInRange(build, code, arms, jumps, [|code|]);
  }

  lemma {:induction false} ArmsInRange(build: Build, code: Code, arms: seq<ElseIf>, jumps: seq<(nat, JumpType)>,
                                       blocks: seq<nat>)
    decreases arms, 0
    ensures Bounded(code) ==> Bounded(EmitArms(build, code, arms, jumps, blocks).0)
  {
    if |arms| > 0 {
      var c := EmitBlock(build, code, arms[0].condition);
      var a1 := c + [L.Not, L.JumpIf(0)];
      var j1 := jumps + [(|a1| - 1, Next)];
      var b := EmitBlock(build, a1, arms[0].code);
      var a2 := b + [L.Jump(0)];
      var j2 := j1 + [(|a2| - 1, End)];
      if Bounded(code) {
        assert Bounded(a1) by {
          BlockInRange(build, code, arms[0].condition);
          BoundedAppend(c, [L.Not, L.JumpIf(0)]);
        }
        assert Bounded(a2) by {
          BlockInRange(build, a1, arms[0].code);
          BoundedAppend(b, [L.Jump(0)]);
        }
        ArmsInRange(build, a2, arms[1..], j2, blocks + [|a2|]);
        assert EmitArms(build, code, arms, jumps, blocks) == EmitArms(build, a2, arms[1..], j2, blocks + [|a2|]);
      }
    }
  }

  /** Lowering only appends: the code emitted before is left as it was. (One lemma per
      lowering function, following its recursion.) */
  lemma {:induction false} EmitAppends(build: Build, acc: Code, src: seq<Hir>)
    decreases src, 3
    ensures Emit(build, acc, src)[..|acc|] == acc
  {
    if |src| > 0 {
      var a := EmitOne(build, acc, src[0]);
      OneAppends(build, acc, src[0]);
      EmitAppends(build, a, src[1..]);
      var r := Emit(build, a, src[1..]);
      assert r[..|acc|] == r[..|a|][..|acc|];
    }
  }

  lemma {:induction false} BlockAppends(build: Build, acc: Code, block: seq<Hir>)
    decreases block, 4
    ensures EmitBlock(build, acc, block)[..|acc|] == acc
  {
    match build
    case AsWritten =>
    case Corrected => EmitAppends(build, acc, block);
  }

  lemma {:induction false} OneAppends(build: Build, acc: Code, h: Hir)
    decreases h, 3
    ensures EmitOne(build, acc, h)[..|acc|] == acc
  {
    if h.IfStatement? {
      IfAppends(build, acc, h);
    } else if h.WhileStatement? {
      WhileAppends(build, acc, h);
    }
  }

  lemma {:induction false} WhileAppends(build: Build, acc: Code, h: Hir)
    requires h.WhileStatement?
    decreases h, 1
    ensures EmitWhile(build, acc, h)[..|acc|] == acc
  {
    var c := EmitBlock(build, acc, h.condition);
    var a1 := c + [L.Not];
    var b := EmitBlock(build, a1 + [L.JumpIf(0)], h.body);
    var a2 := b + [L.Jump(|acc|)];
    assert b[..|acc|] == c[..|acc|] by {
      BlockAppends(build, a1 + [L.JumpIf(0)], h.body);
      assert b[..|acc|] == b[..|a1| + 1][..|acc|];
    }
    BlockAppends(build, acc, h.condition);
    assert a2[|a1| := L.JumpIf(|a2|)][..|acc|] == a2[..|acc|] == b[..|acc|];
  }

  lemma {:induction false} IfAppends(build: Build, acc: Code, h: Hir)
    requires h.IfStatement?
    decreases h, 2
    ensures EmitIf(build, acc, h)[..|acc|] == acc
  {
    var u := IfUnpatched(build, acc, h);
    UnpatchedAppends(build, acc, h);
    PatchIfKeeps(build, u.0, u.1, u.2, |u.0|, 0);
    EmitIfUnfold(build, acc, h);
    var r := EmitIf(build, acc, h);
    forall q | 0 <= q < |acc| ensures r[q] == acc[q] {
      assert u.0[q] == u.0[..|acc|][q];
    }
  }

  lemma {:induction false} UnpatchedAppends(build: Build, acc: Code, h: Hir)
    requires h.IfStatement?
    decreases h, 1
    ensures IfUnpatched(build, acc, h).0[..|acc|] == acc
  {
    var a0 := acc + [L.Not, L.JumpIf(0)];
    var t := EmitBlock(build, a0, h.ontrue);
    var a1 := t + [L.Jump(0)];
    var jumps := [(|a0| - 1, Next), (|a1| - 1, End)];
    var chain := EmitElseIfs(build, a1, h, jumps);
    var a3 := EmitBlock(build, chain.0, h.onfalse);
    assert a1[..|acc|] == acc by {
      BlockAppends(build, a0, h.ontrue);
      assert a1[..|acc|] == t[..|a0|][..|acc|];
    }
    assert chain.0[..|acc|] == acc by {
      ElseIfsAppends(build, a1, h, jumps);
      assert chain.0[..|acc|] == chain.0[..|a1|][..|acc|];
    }
    assert a3[..|acc|] == acc by {
      BlockAppends(build, chain.0, h.onfalse);
      assert a3[..|acc|] == a3[..|chain.0|][..|acc|];
    }
    assert IfUnpatched(build, acc, h).0 == a3;
  }

  lemma {:induction false} ElseIfsAppends(build: Build, code: Code, h: Hir, jumps: seq<(nat, JumpType)>)
    requires h.IfStatement?
    decreases h, 0
    ensures EmitElseIfs(build, code, h, jumps).0[..|code|] == code
  {
    match h.onelseif
    case NoElseIfs =>
    case ElseIfs(arms) => ArmsAppend(build, code, arms, jumps, [|code|]);
  }

  lemma {:induction false} ArmsAppend(build: Build, code: Code, arms: seq<ElseIf>, jumps: seq<(nat, JumpType)>,
                                      blocks: seq<nat>)
    decreases arms, 0
    ensures EmitArms(build, code, arms, jumps, blocks).0[..|code|] == code
  {
    if |arms| > 0 {
      var c := EmitBlock(build, code, arms[0].condition);
      var a1 := c + [L.Not, L.JumpIf(0)];
      var j1 := jumps + [(|a1| - 1, Next)];
      var b := EmitBlock(build, a1, arms[0].code);
      var a2 := b + [L.Jump(0)];
      var j2 := j1 + [(|a2| - 1, End)];
      var r := EmitArms(build, a2, arms[1..], j2, blocks + [|a2|]);
      assert a1[..|code|] == code by {
        BlockAppends(build, code, arms[0].condition);
      }
      assert a2[..|code|] == code by {
        BlockAppends(build, a1, arms[0].code);
        assert a2[..|code|] == b[..|a1|][..|code|];
      }
      assert r.0[..|code|] == code by {
        ArmsAppend(build, a2, arms[1..], j2, blocks + [|a2|]);
        assert r.0[..|code|] == r.0[..|a2|][..|code|];
      }
      assert EmitArms(build, code, arms, jumps, blocks) == r;
    }
  }

  /** The patch list of the else-if arms starting at address `p`, from the HIR shape. */
  function ArmJumps(p: nat, arms: seq<ElseIf>): seq<(nat, JumpType)>
    decreases arms
  {
    if |arms| == 0 then []
    else
      var g := p + Len(arms[0].condition) + 1;
      var e := g + 1 + Len(arms[0].code);
      [(g, Next), (e, End)] + ArmJumps(e + 1, arms[1..])
  }

  /** The start addresses of the alternatives that follow each else-if arm. */
  function ArmBlocks(p: nat, arms: seq<ElseIf>): seq<nat>
    decreases arms
  {
    if |arms| == 0 then []
    else
      var next := p + 3 + Len(arms[0].condition) + Len(arms[0].code);
      [next] + ArmBlocks(next, arms[1..])
  }

  /** The arm layout has one guard per block, and every address lies between `p` and
      the end of the arms. */
  lemma {:induction false} ArmLayout(p: nat, arms: seq<ElseIf>)
    decreases arms
    ensures NextCount(ArmJumps(p, arms)) == |ArmBlocks(p, arms)| == |arms|
    ensures |ArmJumps(p, arms)| == 2 * |arms|
    ensures forall k :: 0 <= k < |ArmJumps(p, arms)| ==> p < ArmJumps(p, arms)[k].0 < p + ArmsLen(arms)
    ensures forall k :: 0 <= k < |ArmBlocks(p, arms)| ==> p < ArmBlocks(p, arms)[k] <= p + ArmsLen(arms)
  {
    if |arms| > 0 {
      var g := p + Len(arms[0].condition) + 1;
      var e := g + 1 + Len(arms[0].code);
      ArmLayout(e + 1, arms[1..]);
      NextCountAppend([(g, Next), (e, End)], ArmJumps(e + 1, arms[1..]));
      NextCountPair(g, e);
    }
  }

  /** A patch list in which each alternative contributes a guard and then a closing
      jump, at increasing addresses, with the next alternative starting just after that
      closing jump. */
  predicate Chain(js: seq<(nat, JumpType)>, bs: seq<nat>)
    decreases |bs|
  {
    if |bs| == 0 then js == []
    else
      |js| >= 2 && js[0].1 == Next && js[1].1 == End && js[0].0 < js[1].0
      && bs[0] == js[1].0 + 1 && (|js| > 2 ==> js[1].0 < js[2].0)
      && Chain(js[2..], bs[1..])
  }

  /** Putting one alternative's guard and closing jump in front of a chain. */
  lemma ChainCons(g: nat, e: nat, js: seq<(nat, JumpType)>, bs: seq<nat>)
    requires Chain(js, bs) && g < e
    requires forall k :: 0 <= k < |js| ==> e < js[k].0
    ensures Chain([(g, Next), (e, End)] + js, [e + 1] + bs)
  {
    assert ([(g, Next), (e, End)] + js)[2..] == js;
    assert ([e + 1] + bs)[1..] == bs;
  }

  /** The entries of alternative `j` in a chain. */
  lemma {:induction false} ChainAt(js: seq<(nat, JumpType)>, bs: seq<nat>, j: nat)
    requires Chain(js, bs) && j < |bs|
    decreases j
    ensures |js| == 2 * |bs|
    ensures js[2 * j].1 == Next && js[2 * j + 1].1 == End && bs[j] == js[2 * j + 1].0 + 1
  {
    ChainLength(js, bs);
    if j > 0 {
      ChainAt(js[2..], bs[1..], j - 1);
      assert js[2 * j] == js[2..][2 * (j - 1)];
      assert js[2 * j + 1] == js[2..][2 * (j - 1) + 1];
    }
  }

  lemma {:induction false} ChainLength(js: seq<(nat, JumpType)>, bs: seq<nat>)
    requires Chain(js, bs)
    decreases |bs|
    ensures |js| == 2 * |bs|
  {
    if |bs| > 0 {
      ChainLength(js[2..], bs[1..]);
    }
  }

  lemma {:induction false} ChainIncreasing(js: seq<(nat, JumpType)>, bs: seq<nat>)
    requires Chain(js, bs)
    decreases |bs|
    ensures Increasing(js)
  {
    if |bs| > 0 {
      var rest := js[2..];
      ChainIncreasing(rest, bs[1..]);
      forall i, k | 0 <= i < k < |js| ensures js[i].0 < js[k].0 {
        if i >= 2 {
          assert js[i] == rest[i - 2] && js[k] == rest[k - 2];
        } else if k >= 2 {
          assert js[k] == rest[k - 2];
          if k > 2 {
            assert rest[0].0 < rest[k - 2].0;
          }
        }
      }
    }
  }

  lemma {:induction false} ArmShape(p: nat, arms: seq<ElseIf>)
    decreases arms
    ensures Chain(ArmJumps(p, arms), ArmBlocks(p, arms))
    ensures |ArmBlocks(p, arms)| == |arms|
    ensures |arms| > 0 ==> ArmBlocks(p, arms)[|arms| - 1] == p + ArmsLen(arms)
  {
    if |arms| > 0 {
      var g := p + Len(arms[0].condition) + 1;
      var e := g + 1 + Len(arms[0].code);
      ArmShape(e + 1, arms[1..]);
      ArmLayout(e + 1, arms[1..]);
      ChainCons(g, e, ArmJumps(e + 1, arms[1..]), ArmBlocks(e + 1, arms[1..]));
    }
  }

  /** In a chain, the first `j` alternatives hold exactly `j` guards. */
  lemma {:induction false} ChainCount(js: seq<(nat, JumpType)>, bs: seq<nat>, j: nat)
    requires Chain(js, bs) && j <= |bs|
    ensures 2 * j <= |js| && NextCount(js[..2 * j]) == j
    decreases j
  {
    ChainLength(js, bs);
    if j == 0 {
      assert js[..0] == [];
    } else {
      ChainCount(js[2..], bs[1..], j - 1);
      assert js[..2 * j] == [(js[0].0, Next), (js[1].0, End)] + js[2..][..2 * (j - 1)];
      NextCountAppend([(js[0].0, Next), (js[1].0, End)], js[2..][..2 * (j - 1)]);
      NextCountPair(js[0].0, js[1].0);
    }
  }

  /** The if-chain's own patch list has the chain shape, and its last block address is
      where `onfalse` starts. */
  lemma IfShape(p: nat, h: Hir)
    requires h.IfStatement?
    ensures Chain(IfJumps(p, h), IfBlocks(p, h))
  {
    var b0 := p + 3 + Len(h.ontrue);
    var arms := ArmsOf(h.onelseif);
    IfLen(h);
    ArmShape(b0, arms);
    ArmLayout(b0, arms);
    ChainCons(p + 1, b0 - 1, ArmJumps(b0, arms), ArmBlocks(b0, arms));
  }

  /** Patching a chain: the guard of alternative `j` becomes a `JumpIf` to
      `NextTarget(j)` and its closing jump a `Jump` to `end`. */
  lemma ChainPatch(build: Build, code: Code, js: seq<(nat, JumpType)>, bs: seq<nat>, end: nat, j: nat)
    requires Chain(js, bs) && j < |bs|
    requires forall k :: 0 <= k < |js| ==> js[k].0 < |code|
    requires NextCount(js) <= |bs|
    ensures 2 * j + 1 < |js|
    ensures var r := PatchIf(build, code, js, bs, end, 0);
      r[js[2 * j].0] == L.JumpIf(NextTarget(build, bs, end, j)) && r[js[2 * j + 1].0] == L.Jump(end)
  {
    ChainCount(js, bs, j);
    ChainAt(js, bs, j);
    ChainIncreasing(js, bs);
    PatchIfEffect(build, code, js, bs, end, 0);
    assert Patched(build, js, bs, end, 0, 2 * j) == L.JumpIf(NextTarget(build, bs, end, j));
  }

  /** One block address per alternative after the first; the last is where `onfalse`
      starts. */
  lemma IfBlocksLast(p: nat, h: Hir)
    requires h.IfStatement?
    ensures |IfBlocks(p, h)| == |ArmsOf(h.onelseif)| + 1
    ensures IfBlocks(p, h)[|IfBlocks(p, h)| - 1] == p + InstrLen(h) - Len(h.onfalse)
  {
    IfLen(h);
    ArmShape(p + 3 + Len(h.ontrue), ArmsOf(h.onelseif));
  }

  /** Block address `j` follows the closing jump of alternative `j`. */
  lemma ChainBlocks(p: nat, h: Hir, j: nat)
    requires h.IfStatement? && j < |IfBlocks(p, h)|
    ensures 2 * j + 1 < |IfJumps(p, h)|
    ensures IfBlocks(p, h)[j] == IfJumps(p, h)[2 * j + 1].0 + 1
  {
    IfShape(p, h);
    ChainAt(IfJumps(p, h), IfBlocks(p, h), j);
  }

  lemma PatchedTargets(build: Build, acc: Code, h: Hir, j: nat)
    requires h.IfStatement? && j < |IfBlocks(|acc|, h)|
    ensures var u := IfUnpatched(build, acc, h);
      var out := PatchIf(build, u.0, u.1, u.2, |u.0|, 0);
      var js := IfJumps(|acc|, h);
      var end := |acc| + InstrLen(h);
      2 * j + 1 < |js| && js[2 * j].0 < |out| && js[2 * j + 1].0 < |out|
      && out[js[2 * j].0] == L.JumpIf(NextTarget(build, IfBlocks(|acc|, h), end, j))
      && out[js[2 * j + 1].0] == L.Jump(end)
  {
    var u := IfUnpatched(build, acc, h);
    var js, bs := IfJumps(|acc|, h), IfBlocks(|acc|, h);
    var end := |acc| + InstrLen(h);
    assert u.1 == js && u.2 == bs && |u.0| == end;
    var out := PatchIf(build, u.0, js, bs, end, 0);
    assert |out| == end;
    IfShape(|acc|, h);
    ChainPatch(build, u.0, js, bs, end, j);
  }

  /** After patching, the guard of alternative `j` of an if-chain is a `JumpIf` to
      `NextTarget(j)` and its closing jump a `Jump` to the end of the statement. */
  lemma IfTargets(build: Build, acc: Code, h: Hir, j: nat)
    requires h.IfStatement? && j < |IfBlocks(|acc|, h)|
    ensures var out := EmitIf(build, acc, h);
      var js := IfJumps(|acc|, h);
      var end := |acc| + InstrLen(h);
      2 * j + 1 < |js| && js[2 * j].0 < |out| && js[2 * j + 1].0 < |out|
      && out[js[2 * j].0] == L.JumpIf(NextTarget(build, IfBlocks(|acc|, h), end, j))
      && out[js[2 * j + 1].0] == L.Jump(end)
  {
    EmitIfUnfold(build, acc, h);
    PatchedTargets(build, acc, h, j);
  }

  lemma EmitIfUnfold(build: Build, acc: Code, h: Hir)
    requires h.IfStatement?
    ensures var u := IfUnpatched(build, acc, h);
      EmitIf(build, acc, h) == PatchIf(build, u.0, u.1, u.2, |u.0|, 0)
  {
  }

  /** The facts `PatchIf` needs about an if-chain's patch list: one guard per block,
      and every patched address and block address inside the chain. */
  lemma IfLayout(p: nat, h: Hir)
    requires h.IfStatement?
    ensures var js := IfJumps(p, h);
      var bs := IfBlocks(p, h);
      NextCount(js) == |bs| && |js| == 2 * |bs|
      && (forall k :: 0 <= k < |js| ==> p < js[k].0 < p + InstrLen(h) - Len(h.onfalse))
      && (forall k :: 0 <= k < |bs| ==> bs[k] <= p + InstrLen(h) - Len(h.onfalse))
  {
    var b0 := p + 3 + Len(h.ontrue);
    IfLen(h);
    ArmLayout(b0, ArmsOf(h.onelseif));
    NextCountAppend([(p + 1, Next), (b0 - 1, End)], ArmJumps(b0, ArmsOf(h.onelseif)));
    NextCountPair(p + 1, b0 - 1);
  }
  /** A lowered while-loop: after the condition a `Not` and a `JumpIf` leaving the loop
      (to just past its end), and a final `Jump` back to the start of the condition. */
  lemma WhileShape(build: Build, acc: Code, h: Hir)
    requires h.WhileStatement?
    ensures var out := EmitWhile(build, acc, h);
      var guard := |acc| + Len(h.condition);
      |out| == guard + 3 + Len(h.body)
      && out[guard] == L.Not && out[guard + 1] == L.JumpIf(|out|)
      && out[|out| - 1] == L.Jump(|acc|)
  {
    var c := EmitBlock(build, acc, h.condition);
    var a1 := c + [L.Not];
    var b := EmitBlock(build, a1 + [L.JumpIf(0)], h.body);
    BlockAppends(build, a1 + [L.JumpIf(0)], h.body);
    assert b[|a1| - 1] == b[..|a1| + 1][|a1| - 1];
  }

  /** As written, the guard of the last alternative jumps to the end of the statement,
      so a non-empty `onfalse` is never reached through it; every other guard skips
      the alternative that follows it and lands one alternative further on. */
  lemma AsWrittenGuards(acc: Code, h: Hir, j: nat)
    requires h.IfStatement? && j <= |ArmsOf(h.onelseif)|
    ensures var out := EmitIf(AsWritten, acc, h);
      var js, bs := IfJumps(|acc|, h), IfBlocks(|acc|, h);
      var n := |ArmsOf(h.onelseif)|;
      2 * j < |js| && js[2 * j].0 < |out| && |bs| == n + 1
      && (j == n ==> out[js[2 * j].0] == L.JumpIf(|out|) && bs[n] == |out| - Len(h.onfalse))
      && (j < n ==> out[js[2 * j].0] == L.JumpIf(bs[j + 1]))
  {
    var out := EmitIf(AsWritten, acc, h);
    var bs := IfBlocks(|acc|, h);
    var end := |acc| + InstrLen(h);
    var n := |ArmsOf(h.onelseif)|;
    IfBlocksLast(|acc|, h);
    assert |bs| == n + 1 && bs[n] == end - Len(h.onfalse);
    IfTargets(AsWritten, acc, h, j);
    assert NextTarget(AsWritten, bs, end, j) == if j < n then bs[j + 1] else end;
    assert |out| == end;
  }

  /** Corrected, the guard of alternative `j` jumps to the start of alternative `j + 1`,
      which is the instruction after alternative `j`'s closing jump; the last guard
      reaches `onfalse`. Every closing jump leaves the statement. */
  lemma CorrectedGuards(acc: Code, h: Hir, j: nat)
    requires h.IfStatement? && j <= |ArmsOf(h.onelseif)|
    ensures var out := EmitIf(Corrected, acc, h);
      var js, bs := IfJumps(|acc|, h), IfBlocks(|acc|, h);
      var n := |ArmsOf(h.onelseif)|;
      2 * j + 1 < |js| && js[2 * j].0 < |out| && js[2 * j + 1].0 < |out|
      && out[js[2 * j].0] == L.JumpIf(js[2 * j + 1].0 + 1)
      && out[js[2 * j + 1].0] == L.Jump(|out|)
      && (j == n ==> js[2 * j + 1].0 + 1 == |out| - Len(h.onfalse))
  {
    var out := EmitIf(Corrected, acc, h);
    var js, bs := IfJumps(|acc|, h), IfBlocks(|acc|, h);
    var end := |acc| + InstrLen(h);
    var n := |ArmsOf(h.onelseif)|;
    IfBlocksLast(|acc|, h);
    assert |bs| == n + 1 && bs[n] == end - Len(h.onfalse);
    ChainBlocks(|acc|, h, j);
    assert bs[j] == js[2 * j + 1].0 + 1;
    IfTargets(Corrected, acc, h, j);
    assert NextTarget(Corrected, bs, end, j) == bs[j];
    assert |out| == end;
  }

  /** A lowered straight-line block: one LIR instruction per HIR instruction, of the
      same kind and in the same order. */
  lemma {:induction false} StraightLine(build: Build, acc: Code, src: seq<Hir>)
    requires forall i :: 0 <= i < |src| ==> IsSimple(src[i])
    decreases src
    ensures var out := Emit(build, acc, src);
      |out| == |acc| + |src| && forall i :: 0 <= i < |src| ==> out[|acc| + i] == ToLir(src[i])
  {
    if |src| > 0 {
      var a := acc + [ToLir(src[0])];
      var out := Emit(build, a, src[1..]);
      assert EmitOne(build, acc, src[0]) == a;
      assert Emit(build, acc, src) == out;
      assert forall i :: 0 <= i < |src[1..]| ==> IsSimple(src[1..][i]);
      StraightLine(build, a, src[1..]);
      EmitAppends(build, a, src[1..]);
      forall i | 0 <= i < |src| ensures out[|acc| + i] == ToLir(src[i]) {
        if i == 0 {
          assert out[|acc|] == out[..|a|][|acc|] == a[|acc|];
        } else {
          assert out[|a| + (i - 1)] == ToLir(src[1..][i - 1]);
          assert src[1..][i - 1] == src[i];
        }
      }
    }
  }

  /** An if-else whose condition is `false`: only the `else` block pushes a value. */
  function IfElseProgram(): seq<Hir> {
    [Push(L.Bool(false)), IfStatement([], NoElseIfs, [Push(L.Number(1.0))])]
  }

  /** The two lowerings of `IfElseProgram` differ only in the guard's target: as
      written it is the end, 5, corrected it is the `else` block, 4. */
  lemma IfElseCode(build: Build)
    ensures Emit(build, [], IfElseProgram())
            == [L.Push(L.Bool(false)), L.Not, L.JumpIf(if build == AsWritten then 5 else 4), L.Jump(5), L.Push(L.Number(1.0))]
  {
    var p := IfElseProgram();
    var acc := [L.Push(L.Bool(false))];
    var h := p[1];
    EmitPair(build, p[0], h);
    IfElseUnpatched(build);
    EmitIfUnfold(build, acc, h);
    var code := [L.Push(L.Bool(false)), L.Not, L.JumpIf(0), L.Jump(0), L.Push(L.Number(1.0))];
    var jumps: seq<(nat, JumpType)> := [(2, Next), (3, End)];
    NextCountPair(2, 3);
    var c1 := code[2 := L.JumpIf(if build == AsWritten then 5 else 4)];
    var i1 := if build == AsWritten then 0 else 1;
    assert PatchIf(build, code, jumps, [4], 5, 0) == PatchIf(build, c1, jumps[1..], [4], 5, i1);
    assert jumps[1..][1..] == [];
    assert PatchIf(build, c1, jumps[1..], [4], 5, i1) == PatchIf(build, c1[3 := L.Jump(5)], [], [4], 5, i1);
  }

  /** The if of `IfElseProgram` before patching. */
  lemma IfElseUnpatched(build: Build)
    ensures var u := IfUnpatched(build, [L.Push(L.Bool(false))], IfElseProgram()[1]);
      u.0 == [L.Push(L.Bool(false)), L.Not, L.JumpIf(0), L.Jump(0), L.Push(L.Number(1.0))]
      && u.1 == [(2, Next), (3, End)] && u.2 == [4]
  {
    var acc := [L.Push(L.Bool(false))];
    var h := IfElseProgram()[1];
    var a0 := acc + [L.Not, L.JumpIf(0)];
    assert EmitBlock(build, a0, h.ontrue) == a0;
    var a1 := a0 + [L.Jump(0)];
    assert EmitBlock(build, a1, h.onfalse) == a1 + [L.Push(L.Number(1.0))] by {
      assert Emit(build, a1, h.onfalse) == Emit(build, a1 + [L.Push(L.Number(1.0))], []);
      assert Emit(build, [], h.onfalse) == Emit(build, [L.Push(L.Number(1.0))], []);
    }
  }

  /** Run from a fresh machine, the as-written lowering skips the `else` block and
      ends with an empty stack; the corrected one runs it and leaves its value. */
  lemma IfElseRuns()
    ensures Vm.Execute(FromHir(IfElseProgram()), Vm.New(), 5) == (Returned(L.Number(0.0)), Vm.New())
    ensures Vm.Execute(Lower(IfElseProgram()), Vm.New(), 5)
            == (Returned(L.Number(0.0)), Vm.Machine([L.Number(1.0)], [map[]], []))
  {
    IfElseCode(AsWritten);
    IfElseCode(Corrected);
    Vm.GuardedBlockRuns(5);
    Vm.GuardedBlockRuns(4);
  }

  /** A two-instruction program whose first instruction is straight-line code. */
  lemma EmitPair(build: Build, a: Hir, b: Hir)
    requires IsSimple(a) && b.IfStatement?
    ensures Emit(build, [], [a, b]) == EmitIf(build, [ToLir(a)], b)
  {
    assert [a, b][1..] == [b];
    assert [a, b][1..][1..] == [];
    assert EmitOne(build, [], a) == [ToLir(a)];
    assert !IsSimple(b);
    assert Emit(build, [], [a, b]) == Emit(build, [ToLir(a)], [b]);
    assert Emit(build, [ToLir(a)], [b]) == Emit(build, EmitOne(build, [ToLir(a)], b), []);
  }

  /** A loop whose condition is `false` and whose body is empty. */
  function EmptyLoop(): Hir {
    WhileStatement([Push(L.Bool(false))], [])
  }

  /** An if whose condition is `true` and whose block is `EmptyLoop`: the loop is a
      nested block, lowered at address 3. */
  function NestedLoopProgram(): seq<Hir> {
    [Push(L.Bool(true)), IfStatement([EmptyLoop()], NoElseIfs, [])]
  }

  /** Lowered on its own at `acc`, the loop's jumps are relative to `|acc|`. */
  lemma EmptyLoopCode(build: Build, acc: Code)
    ensures EmitWhile(build, acc, EmptyLoop())
            == acc + [L.Push(L.Bool(false)), L.Not, L.JumpIf(|acc| + 4), L.Jump(|acc|)]
  {
    var w := EmptyLoop();
    var c := EmitBlock(build, acc, w.condition);
    assert c == acc + [L.Push(L.Bool(false))] by {
      assert Emit(build, acc, w.condition) == Emit(build, acc + [L.Push(L.Bool(false))], []);
      assert Emit(build, [], w.condition) == Emit(build, [L.Push(L.Bool(false))], []);
    }
    var b := EmitBlock(build, c + [L.Not, L.JumpIf(0)], w.body);
    assert b == c + [L.Not, L.JumpIf(0)];
    assert c + [L.Not] + [L.JumpIf(0)] == c + [L.Not, L.JumpIf(0)];
  }

  /** The if before patching: the loop lowered as a nested block, then the closing
      placeholder. */
  lemma NestedLoopUnpatched(build: Build)
    ensures var t, s := if build == AsWritten then 4 else 7, if build == AsWritten then 0 else 3;
      var u := IfUnpatched(build, [L.Push(L.Bool(true))], NestedLoopProgram()[1]);
      u.0 == [L.Push(L.Bool(true)), L.Not, L.JumpIf(0), L.Push(L.Bool(false)), L.Not, L.JumpIf(t), L.Jump(s), L.Jump(0)]
      && u.1 == [(2, Next), (7, End)] && u.2 == [8]
  {
    var t, s := if build == AsWritten then 4 else 7, if build == AsWritten then 0 else 3;
    var h := NestedLoopProgram()[1];
    var a0 := [L.Push(L.Bool(true)), L.Not, L.JumpIf(0)];
    var a1 := a0 + [L.Push(L.Bool(false)), L.Not, L.JumpIf(t), L.Jump(s)] + [L.Jump(0)];
    var jumps := [(2, Next), (7, End)];
    assert [L.Push(L.Bool(true))] + [L.Not, L.JumpIf(0)] == a0;
    NestedLoopBlock(build);
    assert EmitElseIfs(build, a1, h, jumps) == (a1, jumps, [8]);
    assert EmitBlock(build, a1, h.onfalse) == a1;
  }

  /** The if's block, the loop, lowered after the condition and its guard. */
  lemma NestedLoopBlock(build: Build)
    ensures var t, s := if build == AsWritten then 4 else 7, if build == AsWritten then 0 else 3;
      var a0 := [L.Push(L.Bool(true)), L.Not, L.JumpIf(0)];
      EmitBlock(build, a0, NestedLoopProgram()[1].ontrue)
      == a0 + [L.Push(L.Bool(false)), L.Not, L.JumpIf(t), L.Jump(s)]
  {
    var a0 := [L.Push(L.Bool(true)), L.Not, L.JumpIf(0)];
    var h := NestedLoopProgram()[1];
    match build
    case AsWritten =>
      EmptyLoopCode(build, []);
      assert Emit(build, [], h.ontrue) == Emit(build, EmitWhile(build, [], EmptyLoop()), []);
    case Corrected =>
      EmptyLoopCode(build, a0);
      assert Emit(build, a0, h.ontrue) == Emit(build, EmitWhile(build, a0, EmptyLoop()), []);
  }

  /** The if's two lowerings: as written the nested loop's guard and back edge keep
      the addresses 4 and 0 it had when lowered from address 0, corrected they are 7
      and 3. */
  lemma NestedLoopCode(build: Build)
    ensures var t, s := if build == AsWritten then 4 else 7, if build == AsWritten then 0 else 3;
      Emit(build, [], NestedLoopProgram())
      == [L.Push(L.Bool(true)), L.Not, L.JumpIf(8), L.Push(L.Bool(false)), L.Not, L.JumpIf(t), L.Jump(s), L.Jump(8)]
  {
    var acc := [L.Push(L.Bool(true))];
    var h := NestedLoopProgram()[1];
    EmitPair(build, Push(L.Bool(true)), h);
    NestedLoopUnpatched(build);
    EmitIfUnfold(build, acc, h);
    NestedLoopPatch(build);
  }

  /** The patch loop on the unpatched if: the guard and the closing jump both go to
      the end, 8, and nothing else changes. */
  lemma NestedLoopPatch(build: Build)
    ensures var t, s := if build == AsWritten then 4 else 7, if build == AsWritten then 0 else 3;
      var code := [L.Push(L.Bool(true)), L.Not, L.JumpIf(0), L.Push(L.Bool(false)), L.Not, L.JumpIf(t), L.Jump(s), L.Jump(0)];
      PatchIf(build, code, [(2, Next), (7, End)], [8], 8, 0)
      == [L.Push(L.Bool(true)), L.Not, L.JumpIf(8), L.Push(L.Bool(false)), L.Not, L.JumpIf(t), L.Jump(s), L.Jump(8)]
  {
    var t, s := if build == AsWritten then 4 else 7, if build == AsWritten then 0 else 3;
    var code := [L.Push(L.Bool(true)), L.Not, L.JumpIf(0), L.Push(L.Bool(false)), L.Not, L.JumpIf(t), L.Jump(s), L.Jump(0)];
    var jumps: seq<(nat, JumpType)> := [(2, Next), (7, End)];
    NextCountPair(2, 7);
    var c1 := code[2 := L.JumpIf(8)];
    var i1 := if build == AsWritten then 0 else 1;
    assert PatchIf(build, code, jumps, [8], 8, 0) == PatchIf(build, c1, jumps[1..], [8], 8, i1);
    assert jumps[1..][1..] == [];
    assert PatchIf(build, c1, jumps[1..], [8], 8, i1) == PatchIf(build, c1[7 := L.Jump(8)], [], [8], 8, i1);
  }

  /** Run from a fresh machine, the as-written lowering of `NestedLoopProgram` jumps
      into the middle of the loop and fails on an empty stack; the corrected one
      leaves the loop and returns. */
  lemma NestedLoopRuns()
    ensures Vm.Execute(FromHir(NestedLoopProgram()), Vm.New(), 8).0.Failed?
    ensures Vm.Execute(Lower(NestedLoopProgram()), Vm.New(), 8) == (Returned(L.Number(0.0)), Vm.New())
  {
    NestedLoopCode(AsWritten);
    NestedLoopCode(Corrected);
    Vm.NestedLoopRuns();
  }
}
