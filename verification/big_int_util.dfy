/**
 * The free helpers of `big_int_util.hpp` that have bodies: `mirror`
 * reverses the cells, `clamp` picks one of three arguments by the signed
 * order, and `midpoint` adds `a >> 2` and `b >> 2`.
 *
 * The names `half_a` and `half_b` in `midpoint` say halves, but a shift by
 * two takes quarters: `midpoint(4, 4)` is 2. MidpointHalves is the evident
 * intent, `(a >> 1) + (b >> 1)`.
 */
module BigIntUtil {
  import opened Arith
  import opened Bits
  import opened Bytes
  import opened BigInts
  import opened Arithmetic
  import opened Counting
  import opened Shift

  // Mirror.

  /** The reversal of a sequence, as a reference for `mirror`. */
  function Reverse(s: seq<Byte>): (r: seq<Byte>)
    ensures |r| == |s|
  {
    if |s| == 0 then [] else Reverse(s[1..]) + [s[0]]
  }

  /** Cell i of a reversal is cell |s| - 1 - i of the original. */
  lemma {:induction false} ReverseIndex(s: seq<Byte>)
    ensures forall i :: 0 <= i < |s| ==> Reverse(s)[i] == s[|s| - 1 - i]
  {
    if |s| > 0 {
      ReverseIndex(s[1..]);
      assert forall i :: 0 <= i < |s| - 1 ==> Reverse(s)[i] == Reverse(s[1..])[i];
    }
  }

  /** `mirror`: a fresh value whose cell i is cell `size - i - 1` of num. */
  method Mirror(num: BigInt) returns (res: BigInt)
    requires num.Valid()
    ensures SameWidth(num, res)
    ensures res.raw == Reverse(num.raw)
  {
    var n := |num.raw|;
    var raw := Fill(0, n);
    ReverseIndex(num.raw);
    for i := 0 to n
      invariant |raw| == n
      invariant forall j :: 0 <= j < i ==> raw[j] == num.raw[n - j - 1]
    {
      raw := raw[i := num.raw[n - i - 1]];
    }
    res := BigInt(raw);
  }

  /** Reversing twice gives the original cells back, so `mirror(mirror(x)) == x`. */
  lemma ReverseInvolution(s: seq<Byte>)
    ensures Reverse(Reverse(s)) == s
  {
    ReverseIndex(s);
    ReverseIndex(Reverse(s));
  }

  /** The mirror of the mirror is the original. */
  method MirrorTwice(x: BigInt) returns (r: BigInt)
    requires x.Valid()
    ensures r == x
  {
    var m := Mirror(x);
    r := Mirror(m);
    ReverseInvolution(x.raw);
  }

  // Clamp.

  /** `clamp`, whose `assert` demands low < high: `low` below `low`, else `high` above `high`, else num. */
  function Clamp(num: BigInt, low: BigInt, high: BigInt): (r: BigInt)
    requires SameWidth(num, low) && SameWidth(num, high)
    requires Less(low, high)
    ensures AsInt(num) < AsInt(low) ==> r == low
    ensures AsInt(low) <= AsInt(num) && AsInt(num) > AsInt(high) ==> r == high
    ensures AsInt(low) <= AsInt(num) <= AsInt(high) ==> r == num
  {
    LessIsSignedOrder(num, low);
    if Less(num, low) then low
    else if Greater(num, high) then high
    else num
  }

  /** With `low < high`, as the source asserts, the result lies in [low, high]. */
  lemma ClampBounds(num: BigInt, low: BigInt, high: BigInt)
    requires SameWidth(num, low) && SameWidth(num, high) && Less(low, high)
    ensures LessEq(low, Clamp(num, low, high)) && LessEq(Clamp(num, low, high), high)
  {
    LessIsSignedOrder(low, high);
  }

  /** Clamping a clamped value changes nothing. */
  lemma ClampIdempotent(num: BigInt, low: BigInt, high: BigInt)
    requires SameWidth(num, low) && SameWidth(num, high) && Less(low, high)
    ensures Clamp(Clamp(num, low, high), low, high) == Clamp(num, low, high)
  {
    LessIsSignedOrder(low, high);
  }

  // Midpoint.

  /** The literal `2` (or `1`) converted to n cells, as the shift amount. */
  lemma SmallAmount(n: nat, k: int)
    requires n >= 1 && 0 < k <= 2
    ensures AsInt(Encode(n, k)) == k && LoopCount(Encode(n, k)) == k
  {
    EncodeSigned(n, k);
  }

  /** `midpoint` as written: `(a >> 2) + (b >> 2)`, the amount an `int` literal. */
  function Midpoint(a: BigInt, b: BigInt): (r: BigInt)
    requires SameWidth(a, b) && |a.raw| >= 4
    ensures SameWidth(a, r)
  {
    var two := Encode(|a.raw|, 2);
    Add(ShiftRight(a, two), ShiftRight(b, two))
  }

  /** A logical right shift by a small positive amount, as a non-negative value. */
  lemma ShiftedDown(x: BigInt, k: int)
    requires x.Valid() && 0 < k <= 2
    ensures AsInt(ShiftRight(x, Encode(|x.raw|, k))) == AsNat(x) / Pow2(k)
    ensures 0 <= AsNat(x) / Pow2(k) <= HalfModulus(|x.raw|) - 1
  {
    var n := |x.raw|;
    var s := ShiftRight(x, Encode(n, k));
    SmallAmount(n, k);
    ShiftRightValue(x, Encode(n, k));
    SignBitIsUpperHalf(x);
    AsNatBound(x);
    AsNatBound(s);
    assert Pow2(1) == 2;
    assert Pow2(2) == 4;
  }

  /** `midpoint` adds the quarters of the unsigned readings, without wrapping. */
  lemma MidpointValue(a: BigInt, b: BigInt)
    requires SameWidth(a, b) && |a.raw| >= 4
    ensures AsInt(Midpoint(a, b)) == AsNat(a) / 4 + AsNat(b) / 4
  {
    var n := |a.raw|;
    ShiftedDown(a, 2);
    ShiftedDown(b, 2);
    assert Pow2(2) == 4;
    SignBitIsUpperHalf(a);
    AsNatBound(a);
    AsNatBound(b);
    EncodeSigned(n, AsNat(a) / 4 + AsNat(b) / 4);
  }

  /** The midpoint of 4 and 4 is 2: the quarters of the two, not the halves. */
  lemma MidpointTakesQuarters(n: nat)
    requires n >= 4
    ensures AsInt(Midpoint(Encode(n, 4), Encode(n, 4))) == 2
  {
    var four := Encode(n, 4);
    EncodeSigned(n, 4);
    NonNegativeIsUnsigned(four);
    MidpointValue(four, four);
  }

  /** The evident intent: `(a >> 1) + (b >> 1)`. */
  function MidpointHalves(a: BigInt, b: BigInt): (r: BigInt)
    requires SameWidth(a, b) && |a.raw| >= 4
    ensures SameWidth(a, r)
  {
    var one := Encode(|a.raw|, 1);
    Add(ShiftRight(a, one), ShiftRight(b, one))
  }

  /**
   * For non-negative a and b the halves version adds the halves and lies
   * within one below the true midpoint (a + b) / 2.
   */
  lemma MidpointHalvesValue(a: BigInt, b: BigInt)
    requires SameWidth(a, b) && |a.raw| >= 4 && AsInt(a) >= 0 && AsInt(b) >= 0
    ensures AsInt(MidpointHalves(a, b)) == AsInt(a) / 2 + AsInt(b) / 2
    ensures (AsInt(a) + AsInt(b)) / 2 - 1 <= AsInt(MidpointHalves(a, b)) <= (AsInt(a) + AsInt(b)) / 2
  {
    var n, one := |a.raw|, Encode(|a.raw|, 1);
    var sa, sb := ShiftRight(a, one), ShiftRight(b, one);
    ShiftedDown(a, 1);
    ShiftedDown(b, 1);
    assert Pow2(1) == 2;
    AsIntRange(a);
    AsIntRange(b);
    NonNegativeIsUnsigned(a);
    NonNegativeIsUnsigned(b);
    var h := AsInt(a) / 2 + AsInt(b) / 2;
    assert AsInt(sa) + AsInt(sb) == h;
    assert MidpointHalves(a, b) == Encode(n, h);
    EncodeSigned(n, h);
  }

  /** The halves version maps the midpoint of 4 and 4 to 4. */
  lemma MidpointHalvesOfEqual(n: nat)
    requires n >= 4
    ensures AsInt(MidpointHalves(Encode(n, 4), Encode(n, 4))) == 4
  {
    EncodeSigned(n, 4);
    MidpointHalvesValue(Encode(n, 4), Encode(n, 4));
  }
}
