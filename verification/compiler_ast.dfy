/** The tokens and the syntax tree of the first-generation compiler front end.

The token set is the one the scanner produces; the scanner itself is not modelled,
and the parser works over a given token sequence. A tree node's line number is
dropped: a `Node` is its `NodeValue`. */
module CompilerAst {
  datatype Token =
    | LeftCurly | RightCurly | LeftSquare | RightSquare | LeftParen | RightParen
    | KwAs | KwLet | KwMut | KwPub | KwType | KwTypeof | KwReturn | KwFn | KwAsync
    | KwAnd | KwOr | KwWhile | KwUse | KwIf | KwElse | KwNew
    | True | False | None
    | OpBangEq | OpEq | OpMoreEq | OpLessEq | OpRightShift | OpLeftShift | OpMore | OpLess
    | OpAdd | OpSub | OpMul | OpDiv | OpMod | OpPow
    | BitwiseXor | BitwiseOr | BitwiseAnd
    | Assign | OpBang | Colon | Comma | Que | Period
      /** A number literal; the scanner's 64-bit float is modelled as a real. */
    | Number(num: real)
    | String(str: string)
    | FormattedString(fstr: string)
    | PrimitiveFnIdentifier(prim: string)
    | Identifier(name: string)
    | Error
      /** Yielded by the parser once the tokens are exhausted. */
    | End

  datatype UnaryOp = Negate | Typeof | Not

  datatype Type = StringType | NumberType | BoolType | ArrayType(elem: Type) | Void

  datatype Parameter = Parameter(name: string, mutable: bool, paramType: Type)

  /** A syntax tree node. `Return`, `PrimitiveFunctionCall` and `StructInit` are not
      produced by the parser; they are the further node kinds the code generator
      handles. */
  datatype NodeValue =
    | StringValue(s: string)
    | IdentifierValue(iden: string)
    | NumberValue(n: real)
    | BoolValue(b: bool)
    | ArrayValue(elements: seq<NodeValue>)
    | FunctionCall(callee: string, args: seq<NodeValue>)
    | NoneValue
    | Unary(operand: NodeValue, op: UnaryOp)
    | Binary(left: NodeValue, right: NodeValue, operator: Token)
    | GetAttribute(object: NodeValue, attr: string)
    | FunctionDecleration(fname: string, body: seq<NodeValue>, params: seq<Parameter>,
                          public: bool, returnType: Type)
    | VariableDecleration(vname: string, value: NodeValue, vpublic: bool, mutable: bool,
                          annotation: Type)
    | VariableAssignment(aname: string, newValue: NodeValue)
    | WhileStatement(condition: NodeValue, whileBody: seq<NodeValue>)
    | ImportStatement(path: string, alias: string)
    | If(ontrue: CondBlock, elseifs: seq<CondBlock>, onfalse: ElseBlock)
    | Return(returned: NodeValue)
    | PrimitiveFunctionCall(index: nat, primArgs: seq<NodeValue>)
    | StructInit(struct: string, fields: seq<(string, NodeValue)>)

  /** The `else` block of an `if`, when there is one. */
  datatype ElseBlock = NoElse | Else(elseBody: seq<NodeValue>)

  /** A condition and the block it guards. */
  datatype CondBlock = CondBlock(cond: NodeValue, block: seq<NodeValue>)
}
