/** The text the third-generation `writeln` macro prints, and the `to_string` it
is built from (the conversion to a string under `src/vm/value/` is the same
function).

How a float is written is not modelled: `showFloat` stands for it.
 */
module VmMacro {
  import opened Wrappers
  import Ints
  import opened VmOpcode

  /** `to_string`: a string as it is, an integer in decimal, a list as its
      elements' renderings one after another inside brackets, and fixed words for
      the booleans and none. */
  function ToString(v: Value, showFloat: real -> string): (r: string)
    decreases v, 1
  {
    match v
    case String(s) => s
    case Integer(n) => Ints.IntToDecimal(n)
    case Float(x) => showFloat(x)
    case List(items) => "[" + Concat(items, showFloat) + "]"
    case Bool(b) => if b then "true" else "false"
    case None => "none"
  }

  /** The renderings of the values, with nothing between them. */
  function Concat(items: seq<Value>, showFloat: real -> string): (r: string)
    decreases items, 0
  {
    if |items| == 0 then "" else ToString(items[0], showFloat) + Concat(items[1..], showFloat)
  }

  /** Rendering distributes over putting sequences of values one after another. */
  lemma {:induction false} ConcatAppend(xs: seq<Value>, ys: seq<Value>, showFloat: real -> string)
    decreases |xs|
    ensures Concat(xs + ys, showFloat) == Concat(xs, showFloat) + Concat(ys, showFloat)
  {
    if |xs| == 0 {
      assert xs + ys == ys;
    } else {
      assert (xs + ys)[1..] == xs[1..] + ys;
      ConcatAppend(xs[1..], ys, showFloat);
    }
  }

  /** `writeln`: the printed line, and the `None` the macro returns. */
  function Writeln(args: seq<Value>, showFloat: real -> string): (r: (string, Value))
    ensures r.1 == Value.None
    ensures |args| == 0 ==> r.0 == ""
    ensures |args| > 0 ==> r.0 == ToString(args[0], showFloat) + Writeln(args[1..], showFloat).0
  {
    (Concat(args, showFloat), Value.None)
  }

  /** A list renders as its elements would print on one `writeln` line, in
      brackets; printing two argument lists in one call prints one line after the
      other with nothing between. */
  lemma ListIsBracketedLine(items: seq<Value>, more: seq<Value>, showFloat: real -> string)
    ensures ToString(List(items), showFloat) == "[" + Writeln(items, showFloat).0 + "]"
    ensures Writeln(items + more, showFloat).0 == Writeln(items, showFloat).0 + Writeln(more, showFloat).0
  {
    ConcatAppend(items, more, showFloat);
  }

  /** With no separator, different lists can print alike: ["a", "b"] and ["ab"]
      both render as "[ab]". */
  lemma RenderingLosesBoundaries(showFloat: real -> string)
    ensures ToString(List([String("a"), String("b")]), showFloat) == "[ab]"
    ensures ToString(List([String("ab")]), showFloat) == "[ab]"
  {
    var two := [String("a"), String("b")];
    assert two[1..][1..] == [];
    assert Concat(two, showFloat) == "a" + ("b" + "");
    assert [String("ab")][1..] == [];
  }

  /** An integer's rendering reads back as the same `i64`. */
  lemma IntegerRenderingRoundTrip(n: int, showFloat: real -> string)
    requires Ints.IsI64(n)
    ensures Ints.ParseInt(ToString(Integer(n), showFloat), Ints.I64_MIN, Ints.I64_MAX) == Some(n)
  {
    Ints.ParseIntRoundTrip(n, Ints.I64_MIN, Ints.I64_MAX);
  }
}
