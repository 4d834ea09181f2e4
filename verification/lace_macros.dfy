/** The text the second-generation `writeln!` primitive prints.

Only the string building is modelled; printing the line and `exit!` ending the
process are left to the virtual machine's outcome. How an `f32` is written is
not modelled: the renderers take it as a parameter `showFloat`.
 */
module LaceMacros {
  import opened Wrappers
  import opened LacecCommon
  import Ints

  /** The values `to_string` accepts: everything but formatted strings and the
      private variants, and arrays only of such values. */
  predicate Printable(v: Value)
    decreases v
  {
    match v
    case Array(items) => forall k :: 0 <= k < |items| ==> Printable(items[k])
    case FormattedString(_) => false
    case NodeArray(_) => false
    case Identifier(_) => false
    case NodeFunction(_) => false
    case _ => true
  }

  /** `to_string`: a string as it is, integers in decimal, an array as its
      elements' renderings separated by ", " inside brackets, and fixed words for
      the other values; anything else panics. */
  function ToString(v: Value, showFloat: real -> string): (r: Result<string>)
    decreases v, 1
    ensures r.Ok? <==> Printable(v)
  {
    match v
    case String(s) => Ok(s)
    case Number(n) => Ok(Ints.IntToDecimal(n))
    case Byte(b) => Ok(Ints.IntToDecimal(b))
    case Float(x) => Ok(showFloat(x))
    case Array(items) =>
      var body :- JoinItems(items, showFloat);
      Ok("[" + body + "]")
    case True => Ok("true")
    case False => Ok("false")
    case None => Ok("none")
    case Function(_, _, _) => Ok("<fn>")
    case FormattedString(_) => Err(PANIC)
    case NodeArray(_) => Err(PANIC)
    case Identifier(_) => Err(PANIC)
    case NodeFunction(_) => Err(PANIC)
  }

  /** The elements' renderings with ", " between consecutive ones. */
  function JoinItems(items: seq<Value>, showFloat: real -> string): (r: Result<string>)
    decreases items, 0
    ensures r.Ok? <==> forall k :: 0 <= k < |items| ==> Printable(items[k])
  {
    if |items| == 0 then Ok("")
    else
      var first :- ToString(items[0], showFloat);
      if |items| == 1 then Ok(first)
      else
        var rest :- JoinItems(items[1..], showFloat);
        assert forall k :: 1 <= k < |items| ==> items[k] == items[1..][k - 1];
        Ok(first + ", " + rest)
  }

  /** The sum of the lengths of the renderings of printable values. */
  function RenderedLength(items: seq<Value>, showFloat: real -> string): nat
    requires forall k :: 0 <= k < |items| ==> Printable(items[k])
    decreases |items|
  {
    if |items| == 0 then 0
    else |ToString(items[0], showFloat).value| + RenderedLength(items[1..], showFloat)
  }

  /** An array of n printable elements renders as "[", the renderings with n - 1
      separators of two characters, then "]": the empty array is "[]". */
  lemma {:induction false} JoinLength(items: seq<Value>, showFloat: real -> string)
    requires forall k :: 0 <= k < |items| ==> Printable(items[k])
    decreases |items|
    ensures |JoinItems(items, showFloat).value| ==
      RenderedLength(items, showFloat) + (if |items| == 0 then 0 else 2 * (|items| - 1))
  {
    if |items| > 1 {
      JoinLength(items[1..], showFloat);
    } else if |items| == 1 {
      assert items[1..] == [];
    }
  }

  lemma ArrayRendering(items: seq<Value>, showFloat: real -> string)
    requires Printable(Array(items))
    ensures var s := ToString(Array(items), showFloat).value;
      |s| >= 2 && s[0] == '[' && s[|s| - 1] == ']'
      && s[1..|s| - 1] == JoinItems(items, showFloat).value
      && (|items| == 0 ==> s == "[]")
  {
  }

  /** A one-element array shows its element in brackets, with no separator. */
  lemma SingletonRendering(x: Value, showFloat: real -> string)
    requires Printable(x)
    ensures ToString(Array([x]), showFloat) == Ok("[" + ToString(x, showFloat).value + "]")
  {
  }

  /** A nested example: `[[], 1, true]`. */
  lemma NestedRendering(showFloat: real -> string)
    ensures ToString(Array([Array([]), Number(1), True]), showFloat) == Ok("[[], 1, true]")
  {
    var items := [Array([]), Number(1), True];
    var tail := [Number(1), True];
    assert ToString(Number(1), showFloat) == Ok("1");
    assert JoinItems([True], showFloat) == Ok("true");
    assert tail[1..] == [True];
    assert JoinItems(tail, showFloat) == Ok("1" + ", " + "true");
    assert "1" + ", " + "true" == "1, true";
    assert JoinItems([], showFloat) == Ok("");
    assert "[" + "" + "]" == "[]";
    assert ToString(Array([]), showFloat) == Ok("[]");
    assert items[1..] == tail;
    assert ToString(items[0], showFloat) == Ok("[]");
    assert JoinItems(items[1..], showFloat) == Ok("1, true");
    assert "[]" + ", " + "1, true" == "[], 1, true";
    assert JoinItems(items, showFloat) == Ok("[], 1, true");
    assert "[" + "[], 1, true" + "]" == "[[], 1, true]";
  }

  /** A number's rendering reads back as the same `i32`. */
  lemma NumberRenderingRoundTrip(n: int, showFloat: real -> string)
    requires Ints.IsI32(n)
    ensures Ints.ParseInt(ToString(Number(n), showFloat).value, Ints.I32_MIN, Ints.I32_MAX) == Some(n)
  {
    Ints.ParseIntRoundTrip(n, Ints.I32_MIN, Ints.I32_MAX);
  }

  /** The line `lace_writeln` prints: each argument's rendering followed by one
      space. */
  function WritelnLine(args: seq<Value>, showFloat: real -> string): (r: Result<string>)
    decreases |args|
    ensures r.Ok? <==> forall k :: 0 <= k < |args| ==> Printable(args[k])
    ensures r.Ok? && |args| > 0 ==> |r.value| > 0 && r.value[|r.value| - 1] == ' '
  {
    if |args| == 0 then Ok("")
    else
      var init :- WritelnLine(args[..|args| - 1], showFloat);
      var last :- ToString(args[|args| - 1], showFloat);
      assert forall k :: 0 <= k < |args| - 1 ==> args[k] == args[..|args| - 1][k];
      Ok(init + last + " ")
  }

  /** `lace_writeln`: the printed line, and the `None` the call returns. */
  function LaceWriteln(args: seq<Value>, showFloat: real -> string): (r: Result<(string, Value)>)
    ensures r.Ok? <==> forall k :: 0 <= k < |args| ==> Printable(args[k])
    ensures r.Ok? ==> r.value.1 == Value.None
  {
    var line :- WritelnLine(args, showFloat);
    Ok((line, Value.None))
  }

  /** The line has one space per argument besides the renderings. */
  lemma {:induction false} WritelnLength(args: seq<Value>, showFloat: real -> string)
    requires forall k :: 0 <= k < |args| ==> Printable(args[k])
    decreases |args|
    ensures |WritelnLine(args, showFloat).value| == RenderedLength(args, showFloat) + |args|
  {
    if |args| > 0 {
      var init := args[..|args| - 1];
      assert forall k :: 0 <= k < |init| ==> init[k] == args[k];
      WritelnLength(init, showFloat);
      RenderedLengthSnoc(init, args[|args| - 1], showFloat);
      assert init + [args[|args| - 1]] == args;
    }
  }

  lemma {:induction false} RenderedLengthSnoc(items: seq<Value>, x: Value, showFloat: real -> string)
    requires forall k :: 0 <= k < |items| ==> Printable(items[k])
    requires Printable(x)
    decreases |items|
    ensures forall k :: 0 <= k < |items + [x]| ==> Printable((items + [x])[k])
    ensures RenderedLength(items + [x], showFloat)
         == RenderedLength(items, showFloat) + |ToString(x, showFloat).value|
  {
    assert forall k :: 0 <= k < |items + [x]| ==> Printable((items + [x])[k]);
    if |items| > 0 {
      assert (items + [x])[1..] == items[1..] + [x];
      RenderedLengthSnoc(items[1..], x, showFloat);
    } else {
      assert (items + [x])[1..] == [];
    }
  }
}
