/**
 * `<<=` and `>>=` (and `<<`, `>>` on a copy): a loop with a `big_int`
 * counter that starts at zero and repeats `left_shift_once` or
 * `right_shift_once` while the counter is below the shift amount in the
 * signed order, so a shift by k runs max(0, k) single-bit shifts. The
 * amount is taken by reference, so in `x <<= x` and `x >>= x` the bound is
 * the value being shifted; those loops are modelled separately.
 */
module Shift {
  import opened Arith
  import opened Bits
  import opened Bytes
  import opened BigInts
  import opened Bitwise
  import opened Arithmetic
  import opened Counting

  /** t single-bit left shifts. */
  function ShiftLeftTimes(x: BigInt, t: nat): (r: BigInt)
    requires x.Valid()
    ensures SameWidth(x, r)
  {
    if t == 0 then x else ShiftLeftOnce(ShiftLeftTimes(x, t - 1))
  }

  /** t single-bit left shifts: U' = U * 2^t modulo 2^(8n). */
  lemma {:induction false} ShiftLeftTimesValue(x: BigInt, t: nat)
    requires x.Valid()
    ensures AsNat(ShiftLeftTimes(x, t)) == (AsNat(x) * Pow2(t)) % Pow256(|x.raw|)
  {
    if t == 0 {
      AsNatBound(x);
      DivModUnique(AsNat(x), Pow256(|x.raw|), 0, AsNat(x));
    } else {
      ShiftLeftTimesValue(x, t - 1);
      ShiftLeftOnceValue(ShiftLeftTimes(x, t - 1));
      DoubleMod(AsNat(x), Pow2(t - 1), Pow256(|x.raw|));
    }
  }

  /** Doubling after reducing modulo m is doubling the factor. */
  lemma DoubleMod(u: int, p: int, m: int)
    requires m > 0
    ensures (2 * ((u * p) % m)) % m == (u * (2 * p)) % m
  {
    ModScale(u * p, 2, m);
    assert 2 * (u * p) == u * (2 * p);
  }

  /** t single-bit logical right shifts. */
  function ShiftRightTimes(x: BigInt, t: nat): (r: BigInt)
    requires x.Valid()
    ensures SameWidth(x, r)
  {
    if t == 0 then x else ShiftRightOnce(ShiftRightTimes(x, t - 1))
  }

  /** t single-bit logical right shifts: U' = U / 2^t. */
  lemma {:induction false} ShiftRightTimesValue(x: BigInt, t: nat)
    requires x.Valid()
    ensures AsNat(ShiftRightTimes(x, t)) == AsNat(x) / Pow2(t)
  {
    if t > 0 {
      var y, u, p := ShiftRightTimes(x, t - 1), AsNat(x), Pow2(t - 1);
      assert ShiftRightTimes(x, t) == ShiftRightOnce(y);
      ShiftRightTimesValue(x, t - 1);
      ShiftRightOnceValue(y);
      DivDiv(u, p, 2);
      assert Pow2(t) == p * 2;
    }
  }

  /** A right shift by at least one clears the sign bit. */
  lemma ShiftRightClearsSign(x: BigInt, t: nat)
    requires x.Valid()
    ensures t >= 1 ==> !IsNegative(ShiftRightTimes(x, t))
  {
    if t >= 1 {
      var y := ShiftRightTimes(x, t - 1);
      assert ShiftRightTimes(x, t) == ShiftRightOnce(y);
      ShiftRightOnceClearsSign(y);
    }
  }

  /** `operator<<`: LoopCount(k) single-bit left shifts; a non-positive amount leaves x alone. */
  function ShiftLeft(x: BigInt, k: BigInt): (r: BigInt)
    requires SameWidth(x, k)
    ensures SameWidth(x, r)
    ensures AsInt(k) <= 0 ==> r == x
  {
    ShiftLeftTimes(x, LoopCount(k))
  }

  /** A positive amount multiplies the unsigned value by 2^k modulo 2^(8n). */
  lemma ShiftLeftValue(x: BigInt, k: BigInt)
    requires SameWidth(x, k) && AsInt(k) > 0
    ensures AsNat(ShiftLeft(x, k)) == (AsNat(x) * Pow2(AsInt(k))) % Pow256(|x.raw|)
  {
    ShiftLeftTimesValue(x, AsInt(k));
  }

  /** `operator>>`: LoopCount(k) single-bit logical right shifts. */
  function ShiftRight(x: BigInt, k: BigInt): (r: BigInt)
    requires SameWidth(x, k)
    ensures SameWidth(x, r)
    ensures AsInt(k) <= 0 ==> r == x
  {
    ShiftRightTimes(x, LoopCount(k))
  }

  /** A positive amount divides the unsigned value by 2^k and leaves a non-negative result. */
  lemma ShiftRightValue(x: BigInt, k: BigInt)
    requires SameWidth(x, k) && AsInt(k) > 0
    ensures AsNat(ShiftRight(x, k)) == AsNat(x) / Pow2(AsInt(k))
    ensures !IsNegative(ShiftRight(x, k))
  {
    ShiftRightTimesValue(x, AsInt(k));
    ShiftRightClearsSign(x, AsInt(k));
  }

  /** `operator<<=`: the counting loop as written. */
  method ShiftLeftAssign(x: BigInt, k: BigInt) returns (r: BigInt)
    requires SameWidth(x, k)
    ensures r == ShiftLeft(x, k)
  {
    r := x;
    var i := Zero(|k.raw|);
    ghost var t: nat := 0;
    CounterStart(k);
    while Less(i, k)
      invariant CountsTo(i, k, t)
      invariant r == ShiftLeftTimes(x, t)
      decreases LoopCount(k) - t
    {
      r := ShiftLeftOnce(r);
      CounterStep(i, k, t);
      i := Increment(i);
      t := t + 1;
    }
    assert t == LoopCount(k);
  }

  /** `operator>>=`: the counting loop as written, the counter starting from `u8(0)`. */
  method ShiftRightAssign(x: BigInt, k: BigInt) returns (r: BigInt)
    requires SameWidth(x, k)
    ensures r == ShiftRight(x, k)
  {
    r := x;
    var i := Zero(|k.raw|);
    ghost var t: nat := 0;
    CounterStart(k);
    while Less(i, k)
      invariant CountsTo(i, k, t)
      invariant r == ShiftRightTimes(x, t)
      decreases LoopCount(k) - t
    {
      r := ShiftRightOnce(r);
      CounterStep(i, k, t);
      i := Increment(i);
      t := t + 1;
    }
    assert t == LoopCount(k);
  }

  /** One shifted left by three is eight, shifted right by three is zero, and shifted by zero is unchanged. */
  lemma ShiftOneByThree(n: nat)
    requires n >= 1
    ensures AsInt(ShiftLeft(Encode(n, 1), Encode(n, 3))) == 8
    ensures AsInt(ShiftRight(Encode(n, 1), Encode(n, 3))) == 0
    ensures ShiftRight(Encode(n, 1), Encode(n, 0)) == Encode(n, 1)
  {
    var one, three := Encode(n, 1), Encode(n, 3);
    SmallEncodings(n);
    Pow2Byte();
    var p := Pow2(3);
    assert p == 8;
    ShiftLeftValue(one, three);
    var l := ShiftLeft(one, three);
    assert AsNat(l) == (1 * p) % Pow256(n);
    SmallReading(l, 8);
    ShiftRightValue(one, three);
    var r := ShiftRight(one, three);
    assert AsNat(r) == 1 / p;
    SmallReading(r, 0);
  }

  /** 0, 1 and 3 read back from n cells, and 1 is also their unsigned reading. */
  lemma SmallEncodings(n: nat)
    requires n >= 1
    ensures AsInt(Encode(n, 0)) == 0 && AsInt(Encode(n, 1)) == 1 && AsInt(Encode(n, 3)) == 3
    ensures AsNat(Encode(n, 1)) == 1 && Pow256(n) >= 256
  {
    assert HalfModulus(n) >= 128;
    EncodeSigned(n, 0);
    EncodeSigned(n, 1);
    EncodeSigned(n, 3);
    NonNegativeIsUnsigned(Encode(n, 1));
  }

  /** Cells whose unsigned reading v is below 128 read v as a signed value too. */
  lemma SmallReading(x: BigInt, v: int)
    requires x.Valid() && 0 <= v < 128
    requires AsNat(x) == v % Pow256(|x.raw|) && Pow256(|x.raw|) >= 256
    ensures AsInt(x) == v
  {
    var p := Pow256(|x.raw|);
    DivModUnique(v, p, 0, v);
    assert AsNat(x) == v;
    SignBitIsUpperHalf(x);
    assert HalfModulus(|x.raw|) >= 128;
  }
  // The aliased forms `x <<= x` and `x >>= x`: `other` is a reference to
  // `*this`, so the loop test compares the counter with the value shifted so far.

  /** Every round before `rounds` of the aliased `x <<= x` passed its test `i < *this`. */
  predicate LeftSelfPasses(x: BigInt, rounds: nat)
    requires x.Valid()
  {
    rounds == 0 || (LeftSelfPasses(x, rounds - 1) && rounds - 1 < AsInt(ShiftLeftTimes(x, rounds - 1)))
  }

  /** The aliased `x <<= x` stops after `rounds` single shifts: every earlier test passed and this one fails. */
  predicate LeftSelfStops(x: BigInt, rounds: nat)
    requires x.Valid()
  {
    LeftSelfPasses(x, rounds) && rounds >= AsInt(ShiftLeftTimes(x, rounds))
  }

  /** Every round before `rounds` of the aliased `x >>= x` passed its test `i < *this`. */
  predicate RightSelfPasses(x: BigInt, rounds: nat)
    requires x.Valid()
  {
    rounds == 0 || (RightSelfPasses(x, rounds - 1) && rounds - 1 < AsInt(ShiftRightTimes(x, rounds - 1)))
  }

  /** The aliased `x >>= x` stops after `rounds` single shifts. */
  predicate RightSelfStops(x: BigInt, rounds: nat)
    requires x.Valid()
  {
    RightSelfPasses(x, rounds) && rounds >= AsInt(ShiftRightTimes(x, rounds))
  }

  /** A round passed by `x <<= x` is any round before the last one it reached. */
  lemma {:induction false} LeftSelfPassed(x: BigInt, rounds: nat, s: nat)
    requires x.Valid() && LeftSelfPasses(x, rounds) && s < rounds
    ensures s < AsInt(ShiftLeftTimes(x, s))
  {
    assert LeftSelfPasses(x, rounds - 1);
    if s < rounds - 1 {
      LeftSelfPassed(x, rounds - 1, s);
    }
  }

  /** A round passed by `x >>= x` is any round before the last one it reached. */
  lemma {:induction false} RightSelfPassed(x: BigInt, rounds: nat, s: nat)
    requires x.Valid() && RightSelfPasses(x, rounds) && s < rounds
    ensures s < AsInt(ShiftRightTimes(x, s))
  {
    assert RightSelfPasses(x, rounds - 1);
    if s < rounds - 1 {
      RightSelfPassed(x, rounds - 1, s);
    }
  }

  /** `x <<= x`: the counting loop whose bound moves with every shift. */
  method ShiftLeftSelf(x: BigInt) returns (r: BigInt, rounds: nat)
    requires x.Valid()
    ensures r == ShiftLeftTimes(x, rounds) && LeftSelfStops(x, rounds)
  {
    var n := |x.raw|;
    r := x;
    var i := Zero(n);
    rounds := 0;
    SelfStart(x);
    while Less(i, r)
      invariant SelfCounts(i, r, rounds) && SameWidth(x, r)
      invariant r == ShiftLeftTimes(x, rounds) && LeftSelfPasses(x, rounds)
      decreases HalfModulus(n) - rounds
    {
      i, r, rounds := LeftSelfRound(x, i, r, rounds);
    }
  }

  /** One round of `x <<= x` that the test let through: shift once, then `++i`. */
  method LeftSelfRound(x: BigInt, i: BigInt, r: BigInt, rounds: nat) returns (i': BigInt, r': BigInt, rounds': nat)
    requires x.Valid() && SelfCounts(i, r, rounds) && Less(i, r) && SameWidth(x, r)
    requires r == ShiftLeftTimes(x, rounds) && LeftSelfPasses(x, rounds)
    ensures SelfCounts(i', r', rounds') && SameWidth(x, r') && rounds' == rounds + 1
    ensures r' == ShiftLeftTimes(x, rounds') && LeftSelfPasses(x, rounds')
  {
    assert rounds < AsInt(r);
    r' := ShiftLeftOnce(r);
    rounds' := rounds + 1;
    assert r' == ShiftLeftTimes(x, rounds');
    assert LeftSelfPasses(x, rounds');
    SelfRound(i, r, rounds, r');
    i' := Increment(i);
  }

  /** `x >>= x`: the counting loop whose bound moves with every shift. */
  method ShiftRightSelf(x: BigInt) returns (r: BigInt, rounds: nat)
    requires x.Valid()
    ensures r == ShiftRightTimes(x, rounds) && RightSelfStops(x, rounds)
  {
    var n := |x.raw|;
    r := x;
    var i := Zero(n);
    rounds := 0;
    SelfStart(x);
    while Less(i, r)
      invariant SelfCounts(i, r, rounds) && SameWidth(x, r)
      invariant r == ShiftRightTimes(x, rounds) && RightSelfPasses(x, rounds)
      decreases HalfModulus(n) - rounds
    {
      i, r, rounds := RightSelfRound(x, i, r, rounds);
    }
  }

  /** One round of `x >>= x` that the test let through: shift once, then `++i`. */
  method RightSelfRound(x: BigInt, i: BigInt, r: BigInt, rounds: nat) returns (i': BigInt, r': BigInt, rounds': nat)
    requires x.Valid() && SelfCounts(i, r, rounds) && Less(i, r) && SameWidth(x, r)
    requires r == ShiftRightTimes(x, rounds) && RightSelfPasses(x, rounds)
    ensures SelfCounts(i', r', rounds') && SameWidth(x, r') && rounds' == rounds + 1
    ensures r' == ShiftRightTimes(x, rounds') && RightSelfPasses(x, rounds')
  {
    assert rounds < AsInt(r);
    r' := ShiftRightOnce(r);
    rounds' := rounds + 1;
    assert r' == ShiftRightTimes(x, rounds');
    assert RightSelfPasses(x, rounds');
    SelfRound(i, r, rounds, r');
    i' := Increment(i);
  }

  /**
   * The state of an aliased counting loop after `rounds` rounds: the counter
   * holds `rounds`, and the test `i < *this` is the signed comparison with
   * the current value.
   */
  predicate SelfCounts(i: BigInt, r: BigInt, rounds: nat)
  {
    SameWidth(r, i) && AsInt(i) == rounds && rounds < HalfModulus(|r.raw|)
    && (Less(i, r) <==> rounds < AsInt(r))
  }

  /** The counter starts at zero against the unshifted value. */
  lemma SelfStart(x: BigInt)
    requires x.Valid()
    ensures SelfCounts(Zero(|x.raw|), x, 0)
  {
    LessIsSignedOrder(Zero(|x.raw|), x);
  }

  /** A round the test let through moves the counter to `rounds + 1`, against the next value. */
  lemma SelfRound(i: BigInt, r: BigInt, rounds: nat, next: BigInt)
    requires SelfCounts(i, r, rounds) && Less(i, r) && SameWidth(r, next)
    ensures SelfCounts(Increment(i), next, rounds + 1)
  {
    AsIntRange(r);
    IncrementExact(i);
    LessIsSignedOrder(Increment(i), next);
  }

  /** `x <<= x` from 1 runs 8n - 1 rounds and stops at MIN, not at `1 << 1`. */
  lemma LeftSelfOfOne(n: nat, rounds: nat)
    requires n >= 1 && LeftSelfStops(Encode(n, 1), rounds)
    ensures rounds == 8 * n - 1
    ensures AsInt(ShiftLeftTimes(Encode(n, 1), rounds)) == -HalfModulus(n)
  {
    var last := 8 * n - 1;
    if rounds < last {
      OneShifted(n, rounds);
      BelowPow2(rounds);
      assert false;
    } else if rounds > last {
      LeftSelfPassed(Encode(n, 1), rounds, last);
      OneShifted(n, last);
      assert false;
    }
    OneShifted(n, last);
  }

  /** 1 shifted left s < 8n - 1 times reads 2^s; shifted 8n - 1 times it reads MIN. */
  lemma OneShifted(n: nat, s: nat)
    requires n >= 1 && s <= 8 * n - 1
    ensures s < 8 * n - 1 ==> AsInt(ShiftLeftTimes(Encode(n, 1), s)) == Pow2(s)
    ensures s == 8 * n - 1 ==> AsInt(ShiftLeftTimes(Encode(n, 1), s)) == -HalfModulus(n)
  {
    SmallEncodings(n);
    UnitShifted(Encode(n, 1), s);
  }

  /** The same for any cells whose unsigned reading is 1. */
  lemma UnitShifted(x: BigInt, s: nat)
    requires x.Valid() && AsNat(x) == 1 && s <= 8 * |x.raw| - 1
    ensures s < 8 * |x.raw| - 1 ==> AsInt(ShiftLeftTimes(x, s)) == Pow2(s)
    ensures s == 8 * |x.raw| - 1 ==> AsInt(ShiftLeftTimes(x, s)) == -HalfModulus(|x.raw|)
  {
    var y, q := ShiftLeftTimes(x, s), Pow2(s);
    ShiftLeftTimesValue(x, s);
    PowerBelowHalf(|x.raw|, s);
    PowerReading(y, AsNat(x), q);
    if s == 8 * |x.raw| - 1 {
      assert q == HalfModulus(|x.raw|);
    }
  }

  /** 2^s for s <= 8n - 1 is at most half the range of n bytes, and below it when s < 8n - 1. */
  lemma PowerBelowHalf(n: nat, s: nat)
    requires n >= 1 && s <= 8 * n - 1
    ensures Pow2(s) <= HalfModulus(n)
    ensures s < 8 * n - 1 ==> Pow2(s) < HalfModulus(n)
    ensures s == 8 * n - 1 ==> Pow2(s) == HalfModulus(n)
  {
    HalfIsPow2(n);
    Pow2Monotone(s, 8 * n - 1);
    if s < 8 * n - 1 {
      Pow2Monotone(s + 1, 8 * n - 1);
      assert Pow2(s + 1) == 2 * Pow2(s);
    }
  }

  /** Cells reading 1 * q % 2^(8n) with 1 <= q <= 2^(8n-1) read q, or MIN when q is the half. */
  lemma PowerReading(y: BigInt, u: int, q: int)
    requires y.Valid() && 1 <= q <= HalfModulus(|y.raw|)
    requires u == 1 && AsNat(y) == (u * q) % Pow256(|y.raw|)
    ensures q < HalfModulus(|y.raw|) ==> AsInt(y) == q
    ensures q == HalfModulus(|y.raw|) ==> AsInt(y) == -HalfModulus(|y.raw|)
  {
    var h, p := HalfModulus(|y.raw|), Pow256(|y.raw|);
    SignBitIsUpperHalf(y);
    DivModUnique(1 * q, p, 0, q);
    assert AsNat(y) == q;
  }

  /** `x >>= x` from 3 runs one round and stops at 1, not at `3 >> 3`. */
  lemma RightSelfOfThree(n: nat, rounds: nat)
    requires n >= 1 && RightSelfStops(Encode(n, 3), rounds)
    ensures rounds == 1
    ensures AsInt(ShiftRightTimes(Encode(n, 3), rounds)) == 1
  {
    ThreeShifted(n);
    if rounds == 0 {
      assert false;
    } else if rounds > 1 {
      RightSelfPassed(Encode(n, 3), rounds, 1);
      assert false;
    }
  }

  /** 3 reads 3, and shifted right once it reads 1. */
  lemma ThreeShifted(n: nat)
    requires n >= 1
    ensures AsInt(ShiftRightTimes(Encode(n, 3), 0)) == 3
    ensures AsInt(ShiftRightTimes(Encode(n, 3), 1)) == 1
  {
    var three := Encode(n, 3);
    SmallEncodings(n);
    assert ShiftRightTimes(three, 0) == three;
    var y := ShiftRightTimes(three, 1);
    NonNegativeIsUnsigned(three);
    ShiftRightTimesValue(three, 1);
    assert Pow2(1) == 2;
    DivModUnique(3, 2, 1, 1);
    assert AsNat(y) == 1;
    assert |y.raw| == n;
    DivModUnique(1, Pow256(n), 0, 1);
    SmallReading(y, 1);
  }

  /** 2^(8n) is 256^n. */
  lemma {:induction false} Pow256IsPow2(n: nat)
    ensures Pow256(n) == Pow2(8 * n)
  {
    if n > 0 {
      Pow256IsPow2(n - 1);
      Pow2Add(8 * (n - 1), 8);
      Pow2Byte();
      assert 8 * n == 8 * (n - 1) + 8;
    }
  }

  /** Half the range of n bytes is 2^(8n - 1). */
  lemma HalfIsPow2(n: nat)
    requires n >= 1
    ensures HalfModulus(n) == Pow2(8 * n - 1)
  {
    Pow256IsPow2(n - 1);
    Pow2Add(7, 8 * (n - 1));
    Pow2Byte();
    assert 8 * n - 1 == 7 + 8 * (n - 1);
  }

  lemma Pow2Monotone(a: nat, b: nat)
    requires a <= b
    ensures Pow2(a) <= Pow2(b)
  {
    Pow2Add(a, b - a);
    MulLe(Pow2(a), 1, Pow2(b - a));
  }

  lemma {:induction false} BelowPow2(s: nat)
    ensures s < Pow2(s)
  {
    if s > 0 {
      BelowPow2(s - 1);
    }
  }
}
