/** The low-level instruction set (LIR) and the values of the high-level virtual machine. */
module HlvmLir {
  import opened Wrappers

  /** A runtime value. `Number` is the VM's 64-bit float, modelled as a real. */
  datatype HlvmValue =
    | Number(num: real)
    | Bool(b: bool)
    | String(str: string)
    | StructInstance(fields: map<string, HlvmValue>)
    | StructBlueprint(attrs: seq<string>)
      /** Code, parameter names in declaration order, and a locals capacity hint. */
    | Function(code: seq<HlvmInstruction>, params: seq<string>, prealloc: Option<nat>)
      /** A primitive's dispatch index and arity. */
    | BuiltInFunction(index: nat, arity: nat)

  datatype HlvmInstruction =
    | Push(value: HlvmValue)
    | Call
    | CallPrimitive(index: nat, count: nat)
    | Return
    | ReturnValue
    | GetLocal(name: string)
    | GetGlobal(name: string)
    | SetLocal(name: string)
    | SetGlobal(name: string)
      /** Name lookup emitted by the lowering; the dispatch loop has no case for it. */
    | Get(name: string)
    | GetAttribute(attr: string)
    | SetAttribute(attr: string)
    | Instantiate
    | Add
    | Subtract
    | Multiply
    | Divide
    | Equal
    | NotEqual
    | GreaterThan
    | LessThan
    | GreaterThanOrEqual
    | LessThanOrEqual
    | And
    | Or
    | BinaryAnd
    | BinaryOr
    | Not
    | Negate
    | Typeof
    | Jump(target: nat)
    | JumpIf(target: nat)

  /** Truthiness as used by `JumpIf`, `And`, `Or` and `Not`. */
  predicate IsTruthy(v: HlvmValue) {
    match v
    case Number(n) => n != 0.0
    case String(s) => |s| > 0
    case Bool(b) => b
    case Function(_, _, _) => true
    case StructInstance(_) => true
    case StructBlueprint(_) => true
    case BuiltInFunction(_, _) => true
  }

  /** Exactly three values are falsy: zero, the empty string and `false`. */
  lemma FalsyValues(v: HlvmValue)
    ensures !IsTruthy(v) <==> v == Number(0.0) || v == String("") || v == Bool(false)
  {
  }

  /** Values of the callable and structured kinds are truthy whatever they hold. */
  lemma CompoundValuesTruthy(v: HlvmValue)
    requires v.Function? || v.StructInstance? || v.StructBlueprint? || v.BuiltInFunction?
    ensures IsTruthy(v)
  {
  }

  /** A call frame: the local variables of one activation. */
  type Frame = map<string, HlvmValue>
}
