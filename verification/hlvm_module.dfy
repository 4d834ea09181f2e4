/** The standard `System` module handed to HLVM programs. */
module HlvmModule {
  import opened HlvmLir

  const PRINT_INDEX: nat := 0
  const EXIT_INDEX: nat := 1

  /** A struct instance with two primitive functions: `print` (index 0, one argument)
      and `exit` (index 1, no arguments). */
  function System(): (m: HlvmValue)
    ensures m.StructInstance?
    ensures m.fields.Keys == {"print", "exit"}
    ensures m.fields["print"].BuiltInFunction? && m.fields["print"].index == PRINT_INDEX
    ensures m.fields["print"].arity == 1
    ensures m.fields["exit"].BuiltInFunction? && m.fields["exit"].index == EXIT_INDEX
    ensures m.fields["exit"].arity == 0
  {
    StructInstance(map["print" := BuiltInFunction(0, 1), "exit" := BuiltInFunction(1, 0)])
  }
}
