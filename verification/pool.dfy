/** A deduplicating constant pool, as `Constants::add_constant` of the second
generation and both `CodeObject::add_constant`s of the third keep one: a value
already present is found by its first position, any other value is appended.
 */
module ConstantPool {

  /** The index of the first entry equal to `v`, or |pool| when there is none
      (`iter().position`). */
  function FirstIndex<T(==)>(pool: seq<T>, v: T): (k: nat)
    decreases |pool|
    ensures k <= |pool|
    ensures k < |pool| ==> pool[k] == v
    ensures forall j :: 0 <= j < k ==> pool[j] != v
  {
    if |pool| == 0 then 0
    else if pool[0] == v then 0
    else 1 + FirstIndex(pool[1..], v)
  }

  /** `add_constant`: the pool after the call and the index returned. */
  function AddConstant<T(==)>(pool: seq<T>, v: T): (r: (seq<T>, nat))
    ensures pool <= r.0
    ensures r.1 < |r.0| && r.0[r.1] == v
    ensures forall j :: 0 <= j < r.1 ==> r.0[j] != v
    ensures v in pool ==> r.0 == pool
    ensures v !in pool ==> r.0 == pool + [v] && r.1 == |pool|
  {
    var k := FirstIndex(pool, v);
    if k < |pool| then (pool, k) else (pool + [v], |pool|)
  }

  /** Adding the same value a second time returns the same index and leaves the
      pool as the first call left it. */
  lemma AddConstantIdempotent<T>(pool: seq<T>, v: T)
    ensures var (pool', k) := AddConstant(pool, v);
      AddConstant(pool', v) == (pool', k)
  {
  }

  /** No value enters the pool twice, so every entry is found at its own index. */
  predicate Distinct<T(==)>(pool: seq<T>) {
    forall i, j :: 0 <= i < j < |pool| ==> pool[i] != pool[j]
  }

  lemma AddConstantKeepsDistinct<T>(pool: seq<T>, v: T)
    requires Distinct(pool)
    ensures Distinct(AddConstant(pool, v).0)
    ensures FirstIndex(AddConstant(pool, v).0, v) == AddConstant(pool, v).1
  {
  }
}
