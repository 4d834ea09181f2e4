/** Explicit conversion of a value to the kind named by a tag (`convert` under
`src/vm/value/`): 0 Int, 1 Float, 2 String, 3 Array, 4 Bool. Tag 5 (None) and
larger tags are rejected with the unsupported-conversion message, which itself
panics for a tag above 5.

Float to string is written by `showFloat`; float parsing is Floats.ParseFloat.
 */
module ValueConversion {
  import opened Wrappers
  import Ints
  import Floats
  import opened VmOpcode
  import VmMacro
  import ValueException

  const NOT_A_NUMBER := "Cannot convert string to float."

  /** The error for a pairing `convert` does not handle. */
  function Unsupported(a: Value, tag: nat): (r: Result<Value>)
    ensures r.Err?
  {
    match ValueException.UnsupportedConversion(a, tag)
    case Ok(m) => Err(m)
    case Err(m) => Err(m)
  }

  /** `convert(a, tag)`. The tag is a `u8`. */
  function Convert(a: Value, tag: nat, showFloat: real -> string): (r: Result<Value>)
    requires tag < 256
    ensures r.Ok? ==> tag <= 4
    ensures r.Ok? && tag == 2 ==> r.value.String?
    ensures r.Ok? && tag == 4 ==> r.value.Bool?
    ensures r.Ok? && tag == 3 ==> r.value == List([a])
  {
    match a
    case Integer(n) =>
      if tag == 2 then Ok(String(Ints.IntToDecimal(n)))
      else if tag == 1 then Ok(Float(n as real))
      else if tag == 3 then Ok(List([a]))
      else if tag == 4 then Ok(Bool(n > 0))
      else if tag == 0 then Ok(a)
      else Unsupported(a, tag)
    case Float(x) =>
      if tag == 2 then Ok(String(showFloat(x)))
      else if tag == 1 then Ok(a)
      else if tag == 3 then Ok(List([a]))
      else if tag == 4 then Ok(Bool(x > 0.0))
      else if tag == 0 then Ok(Integer(Floats.ToI32(x)))
      else Unsupported(a, tag)
    case String(s) =>
      if tag == 2 then Ok(a)
      else if tag == 1 then
        (match Floats.ParseFloat(s)
         case Some(x) => Ok(Float(x))
         case None => Err(NOT_A_NUMBER))
      else if tag == 3 then Ok(List([a]))
      else if tag == 4 then Ok(Bool(|s| > 0))
      else if tag == 0 then
        (match Ints.ParseInt(s, Ints.I32_MIN, Ints.I32_MAX)
         case Some(n) => Ok(Integer(n))
         case None => Err(NOT_A_NUMBER))
      else Unsupported(a, tag)
    case Bool(b) =>
      if tag == 2 then Ok(String(if b then "true" else "false"))
      else if tag == 1 then Ok(Float(if b then 1.0 else 0.0))
      else if tag == 3 then Ok(List([a]))
      else if tag == 4 then Ok(a)
      else if tag == 0 then Ok(Integer(if b then 1 else 0))
      else Unsupported(a, tag)
    case List(_) =>
      if tag == 2 then Ok(String(VmMacro.ToString(a, showFloat)))
      else Unsupported(a, tag)
    case None => Unsupported(a, tag)
  }

  /** Converting to a value's own kind gives the value back, for every kind but
      Array and None. */
  lemma OwnKindIsIdentity(v: Value, showFloat: real -> string)
    requires !v.List? && !v.None?
    ensures Convert(v, ValueException.KindTag(v), showFloat) == Ok(v)
  {
  }

  /** An `i32` written as a string and converted back is the same integer. */
  lemma IntegerStringRoundTrip(n: int, showFloat: real -> string)
    requires Ints.IsI32(n)
    ensures Convert(Convert(Integer(n), 2, showFloat).value, 0, showFloat) == Ok(Integer(n))
  {
    Ints.ParseIntRoundTrip(n, Ints.I32_MIN, Ints.I32_MAX);
  }

  /** A float converts to the integer it truncates to toward zero, saturating at
      the bounds of `i32`. */
  lemma FloatToInteger(x: real, showFloat: real -> string)
    ensures Convert(Float(x), 0, showFloat).Ok? && Convert(Float(x), 0, showFloat).value.Integer?
    ensures var k := Convert(Float(x), 0, showFloat).value.n;
      Ints.IsI32(k)
      && (0.0 <= x < (Ints.I32_MAX + 1) as real ==> k as real <= x < k as real + 1.0)
      && ((Ints.I32_MIN - 1) as real < x < 0.0 ==> k as real - 1.0 < x <= k as real)
      && (x >= (Ints.I32_MAX + 1) as real ==> k == Ints.I32_MAX)
      && (x <= (Ints.I32_MIN - 1) as real ==> k == Ints.I32_MIN)
  {
  }

  /** Unsigned decimal text converts to the float it spells, and to its
      negation after a '-'; `Floats.OneDecimalValue` gives that value for
      the text `n.d`. */
  lemma StringToFloat(t: string, showFloat: real -> string)
    requires Floats.IsDecimalText(t)
    ensures Convert(String(t), 1, showFloat) == Ok(Float(Floats.DecimalValue(t)))
    ensures Convert(String("-" + t), 1, showFloat) == Ok(Float(-Floats.DecimalValue(t)))
  {
    Floats.ParseSigned(t, Floats.DecimalValue(t));
  }

  /** A boolean converted to an integer (1 or 0) and back to a boolean is the
      same boolean. */
  lemma BoolIntegerRoundTrip(b: bool, showFloat: real -> string)
    ensures Convert(Convert(Bool(b), 0, showFloat).value, 4, showFloat) == Ok(Bool(b))
  {
  }

  /** Tag 3 wraps every value but a list or none in a one-element array; tag 4
      gives a boolean for those same kinds: positive numbers, non-empty strings,
      and a boolean itself. */
  lemma SingletonAndTruth(v: Value, showFloat: real -> string)
    requires !v.List? && !v.None?
    ensures Convert(v, 3, showFloat) == Ok(List([v]))
    ensures Convert(v, 4, showFloat).Ok?
    ensures Convert(v, 4, showFloat).value.b <==>
      match v
      case Integer(n) => n > 0
      case Float(x) => x > 0.0
      case String(s) => |s| > 0
      case Bool(b) => b
      case _ => false
  {
  }

  /** An array converts only to a string, its `to_string` rendering; `none`
      converts to nothing; tags above 4 fail for every value. */
  lemma Rejections(v: Value, tag: nat, showFloat: real -> string)
    requires tag < 256
    ensures v.List? ==> (Convert(v, tag, showFloat).Ok? <==> tag == 2)
    ensures v.List? && tag == 2 ==> Convert(v, tag, showFloat) == Ok(String(VmMacro.ToString(v, showFloat)))
    ensures v.None? ==> Convert(v, tag, showFloat).Err?
    ensures tag > 4 ==> Convert(v, tag, showFloat).Err?
  {
  }

  /** The rejection message names the kind and the tag, e.g. "[None as Int]". */
  lemma RejectionWording(showFloat: real -> string)
    ensures Convert(Value.None, 0, showFloat) == Err("Unsupported operation [None as Int]")
    ensures Convert(Integer(1), 5, showFloat) == Err("Unsupported operation [Int as None]")
  {
  }
}
