/** The tokens of the second-generation front end.

The scanner that produces them is generated code and is not modelled; the
compiler only inspects the operator token of a binary node. A float literal's
`f32` is modelled as a real.
 */
module LacecToken {
  datatype Token =
    | LeftCurly | RightCurly | LeftSquare | RightSquare | LeftParen | RightParen
    | KwAs | KwLet | KwMut | KwPub | KwType | KwTypeof | KwReturn | KwFn | KwAsync
    | KwAnd | KwOr | KwWhile
    | TypeString | TypeNum | TypeFloat | TypeByte | TypeBool | TypeDynamic
    | True | False | None
    | OpBangEq | OpEq | OpMoreEq | OpLessEq | OpRightShift | OpLeftShift | OpMore | OpLess
    | OpAdd | OpSub | OpMul | OpDiv | OpMod | OpPow
    | Assign | OpBang | Colon | Comma
    | Float(x: real)
    | Hex(h: int)
    | Number(n: int)
    | String(s: string)
    | FormattedString(fs: string)
    | PrimitiveFnIdentifier(prim: string)
    | Identifier(name: string)
    | Error
    | End
}
