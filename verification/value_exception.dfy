/** The error texts of the value files under `src/vm/value/`: kind names, the
unsupported-operation message and the unsupported-conversion message with its
conversion tags.
 */
module ValueException {
  import opened Wrappers
  import opened VmOpcode

  /** `get_type`: every kind has a name here (the `List` variant is the source's
      `Array`). */
  function GetType(v: Value): (r: string)
    ensures |r| > 0
  {
    match v
    case String(_) => "String"
    case Integer(_) => "Int"
    case Float(_) => "Float"
    case List(_) => "Array"
    case Bool(_) => "Bool"
    case None => "None"
  }

  function UnsupportedOperation(a: Value, b: Value, o: string): (r: string)
    ensures |r| > 0
  {
    "Unsupported operation [" + GetType(a) + " " + o + " " + GetType(b) + "]"
  }

  /** The conversion tag whose name is the kind's name: 0 Int, 1 Float, 2 String,
      3 Array, 4 Bool, 5 None. */
  function KindTag(v: Value): (t: nat)
    ensures t <= 5
  {
    match v
    case Integer(_) => 0
    case Float(_) => 1
    case String(_) => 2
    case List(_) => 3
    case Bool(_) => 4
    case None => 5
  }

  /** The names of conversion tags 0 to 5; a larger tag panics. */
  function TagName(tag: nat): (r: Result<string>)
    ensures r.Ok? <==> tag <= 5
  {
    if tag == 0 then Ok("Int")
    else if tag == 1 then Ok("Float")
    else if tag == 2 then Ok("String")
    else if tag == 3 then Ok("Array")
    else if tag == 4 then Ok("Bool")
    else if tag == 5 then Ok("None")
    else Err("")
  }

  /** Tags and kinds name each other: the tag of a kind is named after the kind,
      and no two tags share a name. */
  lemma TagsNameKinds(v: Value, s: nat, t: nat)
    ensures TagName(KindTag(v)) == Ok(GetType(v))
    ensures s <= 5 && t <= 5 && TagName(s) == TagName(t) ==> s == t
  {
  }

  /** `unsupported_conversion`: "Unsupported operation [ta as tag]"; it panics
      while building the message for a tag above 5. */
  function UnsupportedConversion(a: Value, tag: nat): (r: Result<string>)
    ensures r.Ok? <==> tag <= 5
    ensures r.Ok? ==> r.value == "Unsupported operation [" + GetType(a) + " as " + TagName(tag).value + "]"
  {
    var name :- TagName(tag);
    Ok("Unsupported operation [" + GetType(a) + " as " + name + "]")
  }
}
