/** Helpers of the third-generation machine: the kind names used in its error
messages and the overflow-checked integer power.
 */
module VmCommon {
  import opened Wrappers
  import Ints
  import opened VmOpcode

  /** `get_type`. Its `List` arm is commented out in the source, so a list has no
      name (the match there is not exhaustive). */
  function GetType(v: Value): (r: Option<string>)
    ensures r.Some? <==> !v.List?
    ensures r.Some? ==> |r.value| > 0
  {
    match v
    case String(_) => Some("string")
    case Integer(_) => Some("integer")
    case Float(_) => Some("float")
    case Bool(_) => Some("bool")
    case None => Some("none")
    case List(_) => Option.None
  }

  /** `unsupported_operation`: "Unsupported operation [ta o tb]" for the kind
      names ta and tb of the operands and the operator text o. */
  function UnsupportedOperation(a: Value, b: Value, o: string): (r: Option<string>)
    ensures r.Some? <==> !a.List? && !b.List?
  {
    if a.List? || b.List? then Option.None
    else Some("Unsupported operation [" + GetType(a).value + " " + o + " " + GetType(b).value + "]")
  }

  /** The kinds of two values are the same when their names are. */
  predicate SameKind(a: Value, b: Value) {
    (a.String? && b.String?) || (a.Integer? && b.Integer?) || (a.Float? && b.Float?)
    || (a.List? && b.List?) || (a.Bool? && b.Bool?) || (a.None? && b.None?)
  }

  /** The message names the operand kinds unambiguously: two equal messages for
      the same operator come from operands of the same kinds. */
  lemma UnsupportedOperationNamesKinds(a: Value, b: Value, c: Value, d: Value, o: string)
    requires UnsupportedOperation(a, b, o).Some? && UnsupportedOperation(c, d, o).Some?
    requires UnsupportedOperation(a, b, o) == UnsupportedOperation(c, d, o)
    ensures SameKind(a, c) && SameKind(b, d)
  {
    var m := UnsupportedOperation(a, b, o).value;
    var prefix := "Unsupported operation [";
    var ta, tb, tc, td := GetType(a).value, GetType(b).value, GetType(c).value, GetType(d).value;
    assert m == prefix + ta + " " + o + " " + tb + "]";
    assert m == prefix + tc + " " + o + " " + td + "]";
    assert m[|prefix|] == ta[0] && m[|prefix|] == tc[0];
    assert SameKind(a, c);
    assert ta == tc;
    var n := |m|;
    assert m[n - 2] == tb[|tb| - 1] && m[n - 2] == td[|td| - 1];
    assert (prefix + ta + " " + o + " ")[..] == (prefix + tc + " " + o + " ");
    assert m[|prefix + ta + " " + o + " "|] == tb[0];
    assert m[|prefix + tc + " " + o + " "|] == td[0];
  }

  // ------------------------------------------------------------------ exponentiate

  /** The `for _ in 1..exp` loop of `exponentiate`: `steps` more checked
      multiplications of `ret` by `num` within [lo, hi]. */
  function PowerLoop(num: int, ret: int, steps: nat, lo: int, hi: int): Option<int>
    decreases steps
  {
    if steps == 0 then Some(ret)
    else if lo <= ret * num <= hi then PowerLoop(num, ret * num, steps - 1, lo, hi)
    else Option.None
  }

  /** Every power num^k with first < k <= last lies in [lo, hi]. */
  predicate PowersFit(num: int, first: nat, last: nat, lo: int, hi: int) {
    forall k: nat :: first < k <= last ==> lo <= Ints.Power(num, k) <= hi
  }

  /** Starting from num^j, the loop reaches num^(j + steps) exactly when every
      power on the way fits; the first one that does not stops it with `None`. */
  lemma {:induction false} PowerLoopMeaning(num: int, j: nat, steps: nat, lo: int, hi: int)
    decreases steps
    ensures PowerLoop(num, Ints.Power(num, j), steps, lo, hi)
         == if PowersFit(num, j, j + steps, lo, hi) then Some(Ints.Power(num, j + steps)) else Option.None
  {
    if steps > 0 {
      assert Ints.Power(num, j) * num == Ints.Power(num, j + 1);
      PowerLoopMeaning(num, j + 1, steps - 1, lo, hi);
      if lo <= Ints.Power(num, j + 1) <= hi {
        assert PowersFit(num, j, j + steps, lo, hi) <==> PowersFit(num, j + 1, j + steps, lo, hi);
      } else {
        assert !PowersFit(num, j, j + steps, lo, hi);
      }
    }
  }

  /** `exponentiate` on the integer range [lo, hi]: `num` itself for every
      exponent up to 1 (including 0 and negatives), otherwise num^exp when every
      partial product fits and `None` when one does not. */
  function Exponentiate(num: int, exp: int, lo: int, hi: int): (r: Option<int>)
    ensures exp <= 1 ==> r == Some(num)
    ensures exp >= 1 ==> (r.Some? <==> PowersFit(num, 1, exp, lo, hi))
    ensures exp >= 1 && r.Some? ==> r.value == Ints.Power(num, exp)
    ensures r.Some? && lo <= num <= hi ==> lo <= r.value <= hi
  {
    var steps: nat := if exp > 1 then exp - 1 else 0;
    assert Ints.Power(num, 1) == num;
    PowerLoopMeaning(num, 1, steps, lo, hi);
    PowerLoop(num, num, steps, lo, hi)
  }

  /** One more exponent step is one more checked multiplication by `num`. */
  lemma ExponentiateStep(num: int, e: nat, lo: int, hi: int)
    requires e >= 1
    ensures Exponentiate(num, e + 1, lo, hi)
         == match Exponentiate(num, e, lo, hi)
            case Some(p) => (if lo <= p * num <= hi then Some(p * num) else Option.None)
            case None => Option.None
  {
    assert Ints.Power(num, e + 1) == Ints.Power(num, e) * num;
    if PowersFit(num, 1, e, lo, hi) && lo <= Ints.Power(num, e + 1) <= hi {
      assert PowersFit(num, 1, e + 1, lo, hi);
    }
  }
}
