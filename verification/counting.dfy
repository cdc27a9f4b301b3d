/**
 * The counting loops of `big_int`: `for (big_int i = 0; i < k; ++i)` with a
 * `big_int` counter, the signed `<` as its test and `increment` as its step.
 * Such a loop runs max(0, k) times; a negative k runs it zero times.
 */
module Counting {
  import opened BigInts
  import opened Arithmetic

  /** How often the counting loop runs: the signed bound, or none when it is not positive. */
  function LoopCount(k: BigInt): (t: nat)
    requires k.Valid()
    ensures AsInt(k) > 0 ==> t == AsInt(k)
    ensures AsInt(k) <= 0 ==> t == 0
  {
    if AsInt(k) > 0 then AsInt(k) else 0
  }

  /**
   * The state of the counting loop after t rounds: the counter holds t, at
   * most the number of rounds due, and the loop test `i < k` is the signed
   * comparison.
   */
  predicate CountsTo(i: BigInt, k: BigInt, t: nat)
    requires k.Valid()
  {
    SameWidth(k, i) && AsInt(i) == t && t <= LoopCount(k) && (Less(i, k) <==> t < AsInt(k))
  }

  /** `++i` after a round that the test let through moves the counter to t + 1. */
  lemma CounterStep(i: BigInt, k: BigInt, t: nat)
    requires k.Valid() && CountsTo(i, k, t) && Less(i, k)
    ensures CountsTo(Increment(i), k, t + 1)
  {
    AsIntRange(k);
    IncrementExact(i);
    LessIsSignedOrder(Increment(i), k);
  }

  /** The counter starts at zero. */
  lemma CounterStart(k: BigInt)
    requires k.Valid()
    ensures CountsTo(Zero(|k.raw|), k, 0)
  {
    LessIsSignedOrder(Zero(|k.raw|), k);
  }

}
