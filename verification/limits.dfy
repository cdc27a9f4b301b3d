/**
 * `std::numeric_limits<big_int<n>>`: `min()` and `lowest()` return
 * `cached_min`, a zero with its sign bit flipped; `max()` returns
 * `cached_max`, the complement of that. The facts the sandbox asserts about
 * the two sentinels are lemmas here.
 */
module Limits {
  import opened Arith
  import opened Bytes
  import opened BigInts
  import opened Bitwise
  import opened Arithmetic

  /** `cached_min`, which both `min()` and `lowest()` return: the default (all-zero) value after `flip_sign_bit`. */
  function Min(n: nat): (r: BigInt)
    requires n >= 1
    ensures r.Valid() && |r.raw| == n
    ensures AsInt(r) == -HalfModulus(n)
  {
    MinValue(n);
    FlipSignBit(Zero(n))
  }

  /** `cached_max`, which `max()` returns: the complement of the flipped zero. */
  function Max(n: nat): (r: BigInt)
    requires n >= 1
    ensures r.Valid() && |r.raw| == n
    ensures AsInt(r) == HalfModulus(n) - 1
  {
    NotValue(Min(n));
    Not(Min(n))
  }

  lemma MinValue(n: nat)
    requires n >= 1
    ensures AsInt(FlipSignBit(Zero(n))) == -HalfModulus(n)
  {
    var z, r := Zero(n), FlipSignBit(Zero(n));
    var h, p := HalfModulus(n), Pow256(n);
    AsNatBound(z);
    assert AsNat(z) == 0;
    FlipSignBitValue(z);
    SignBitIsUpperHalf(r);
    DivModUnique(h, p, 0, h);
    assert AsNat(r) == h;
  }

  /** MIN is all zero cells but a top cell of 0x80. */
  lemma MinCells(n: nat)
    requires n >= 1
    ensures forall i :: 0 <= i < n - 1 ==> Min(n).raw[i] == 0
    ensures Min(n).raw[n - 1] == 0x80
  {
    var z, m := Zero(n), Min(n);
    assert m == FlipSignBit(z);
    assert z.raw == Fill(0, n);
    assert m.raw[..n - 1] == z.raw[..n - 1];
    forall i | 0 <= i < n - 1
      ensures m.raw[i] == 0
    {
      assert m.raw[i] == m.raw[..n - 1][i];
    }
  }

  /** MAX is all 0xFF cells but a top cell of 0x7F. */
  lemma MaxCells(n: nat)
    requires n >= 1
    ensures forall i :: 0 <= i < n - 1 ==> Max(n).raw[i] == 0xFF
    ensures Max(n).raw[n - 1] == 0x7F
  {
    var m, M := Min(n), Max(n);
    assert M == Not(m);
    MinCells(n);
    NotValue(m);
    forall i | 0 <= i < n - 1
      ensures M.raw[i] == 0xFF
    {
      assert m.raw[i] == 0;
    }
    assert m.raw[n - 1] == 0x80;
  }

  /** Every value lies between MIN and MAX under the byte-level `<=`. */
  lemma Bounds(x: BigInt)
    requires x.Valid()
    ensures LessEq(Min(|x.raw|), x) && LessEq(x, Max(|x.raw|))
  {
    AsIntRange(x);
  }

  /** MIN < MAX, and neither `MAX < MAX` nor `MAX < MIN`. */
  lemma LimitsOrder(n: nat)
    requires n >= 1
    ensures Less(Min(n), Max(n))
    ensures !Less(Max(n), Max(n)) && !Less(Max(n), Min(n))
  {
    LessIsSignedOrder(Min(n), Max(n));
    LessIsSignedOrder(Max(n), Max(n));
    LessIsSignedOrder(Max(n), Min(n));
  }

  /** The integer 1 as n cells. */
  lemma OneValue(n: nat)
    requires n >= 1
    ensures AsInt(Encode(n, 1)) == 1
  {
    EncodeSigned(n, 1);
  }

  /** MAX + 1 == MIN, by `++` and by `+= 1`. */
  lemma MaxPlusOne(n: nat)
    requires n >= 1
    ensures Increment(Max(n)) == Min(n)
    ensures Add(Max(n), Encode(n, 1)) == Min(n)
  {
    IncrementWraps(Min(n), Max(n));
    OneValue(n);
    SignBitIsUpperHalf(Min(n));
    AddWraps(Max(n), Encode(n, 1), Min(n), 1);
  }

  /** MIN - 1 == MAX, by `--` and by `-= 1`. */
  lemma MinMinusOne(n: nat)
    requires n >= 1
    ensures Decrement(Min(n)) == Max(n)
    ensures Sub(Min(n), Encode(n, 1)) == Max(n)
  {
    DecrementWraps(Min(n), Max(n));
    OneValue(n);
    SignBitIsUpperHalf(Min(n));
    SubWraps(Min(n), Encode(n, 1), Max(n), -1);
  }

  /** MIN + MAX == -1. */
  lemma MinPlusMax(n: nat)
    requires n >= 1
    ensures AsInt(Add(Min(n), Max(n))) == -1
  {
    EncodeSigned(n, -1);
  }

  /** MIN - MAX == 1. */
  lemma MinMinusMax(n: nat)
    requires n >= 1
    ensures AsInt(Sub(Min(n), Max(n))) == 1
  {
    WrappedDifference(Min(n), Max(n), 1, -1);
  }

  /** MAX - MIN == -1. */
  lemma MaxMinusMin(n: nat)
    requires n >= 1
    ensures AsInt(Sub(Max(n), Min(n))) == -1
  {
    WrappedDifference(Max(n), Min(n), -1, 1);
  }

  /** A value k times 2^(8n) away from the reading of y encodes y. */
  lemma WrapsTo(n: nat, v: int, y: BigInt, k: int)
    requires y.Valid() && |y.raw| == n && v == AsInt(y) + k * Pow256(n)
    ensures Encode(n, v) == y
  {
    EncodeWrapsTo(n, v, AsInt(y), k);
    EncodeAsInt(y);
  }

  /** A difference a - b off the range by k times 2^(8n) reads back as the in-range w. */
  lemma WrappedDifference(a: BigInt, b: BigInt, w: int, k: int)
    requires SameWidth(a, b) && -HalfModulus(|a.raw|) <= w < HalfModulus(|a.raw|)
    requires AsInt(a) - AsInt(b) == w + k * (2 * HalfModulus(|a.raw|))
    ensures AsInt(Sub(a, b)) == w
  {
    WrappedValue(|a.raw|, AsInt(a) - AsInt(b), w, k);
  }

  /** A value off the range by k times 2^(8n) reads back as the in-range w. */
  lemma WrappedValue(n: nat, v: int, w: int, k: int)
    requires n >= 1 && -HalfModulus(n) <= w < HalfModulus(n)
    requires v == w + k * (2 * HalfModulus(n))
    ensures AsInt(Encode(n, v)) == w
  {
    assert Pow256(n) == 2 * HalfModulus(n);
    EncodeSigned(n, w);
    EncodeWrapsTo(n, v, w, k);
  }

  /** A value reading 2^(8n-1) - 1 incremented wraps to any lo reading -2^(8n-1). */
  lemma IncrementWraps(lo: BigInt, hi: BigInt)
    requires SameWidth(lo, hi)
    requires AsInt(lo) == -HalfModulus(|lo.raw|) && AsInt(hi) == HalfModulus(|lo.raw|) - 1
    ensures Increment(hi) == lo
  {
    SignBitIsUpperHalf(lo);
    WrapsTo(|lo.raw|, AsInt(hi) + 1, lo, 1);
  }

  /** A value reading -2^(8n-1) decremented wraps to any hi reading 2^(8n-1) - 1. */
  lemma DecrementWraps(lo: BigInt, hi: BigInt)
    requires SameWidth(lo, hi)
    requires AsInt(lo) == -HalfModulus(|lo.raw|) && AsInt(hi) == HalfModulus(|lo.raw|) - 1
    ensures Decrement(lo) == hi
  {
    SignBitIsUpperHalf(lo);
    WrapsTo(|lo.raw|, AsInt(lo) - 1, hi, -1);
  }

  /** A sum k times 2^(8n) away from the reading of y gives y. */
  lemma AddWraps(a: BigInt, b: BigInt, y: BigInt, k: int)
    requires SameWidth(a, b) && SameWidth(a, y)
    requires AsInt(a) + AsInt(b) == AsInt(y) + k * Pow256(|a.raw|)
    ensures Add(a, b) == y
  {
    WrapsTo(|a.raw|, AsInt(a) + AsInt(b), y, k);
  }

  /** A difference k times 2^(8n) away from the reading of y gives y. */
  lemma SubWraps(a: BigInt, b: BigInt, y: BigInt, k: int)
    requires SameWidth(a, b) && SameWidth(a, y)
    requires AsInt(a) - AsInt(b) == AsInt(y) + k * Pow256(|a.raw|)
    ensures Sub(a, b) == y
  {
    WrapsTo(|a.raw|, AsInt(a) - AsInt(b), y, k);
  }

  /** The negation of MIN is MIN. */
  lemma NegateMin(n: nat)
    requires n >= 1
    ensures Negate(Min(n)) == Min(n)
  {
    NegateMinimum(Min(n));
  }
}
