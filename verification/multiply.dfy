/**
 * `operator*`: repeated addition. The result starts at `0`, the loop adds
 * `*this` once per counter value below `abs_other` (a `big_int` counter and
 * the signed `<`), and the sum is negated when `other` was negative.
 *
 * `abs_other` is `-other`, and the negation of the minimum is the minimum
 * itself, so for `other == MIN` the loop test fails at once and the product
 * is 0. TimesUnsigned is the corrected multiplication: it counts up to the
 * unsigned magnitude of `other`, which is 2^(8n-1) for the minimum.
 */
module Multiply {
  import opened Arith
  import opened Bytes
  import opened BigInts
  import opened Arithmetic
  import opened Counting

  /** `sizeof(int)`: `big_int res = 0` and `big_int i = 0` convert an `int`, which needs that many cells. */
  const IntBytes: nat := 4

  /** t additions of a to zero. */
  function AddTimes(a: BigInt, t: nat): (r: BigInt)
    requires a.Valid()
    ensures SameWidth(a, r)
  {
    if t == 0 then Zero(|a.raw|) else Add(AddTimes(a, t - 1), a)
  }

  /** t additions of a make a * t modulo 2^(8n). */
  lemma {:induction false} AddTimesValue(a: BigInt, t: nat)
    requires a.Valid()
    ensures AddTimes(a, t) == Encode(|a.raw|, AsInt(a) * t)
  {
    var n := |a.raw|;
    var m := AsInt(a);
    if t == 0 {
      var z := Zero(n);
      EncodeAsInt(z);
      assert m * t == AsInt(z);
    } else {
      var s := AddTimes(a, t - 1);
      AddTimesValue(a, t - 1);
      assert |s.raw| == n && AddTimes(a, t) == Add(s, a);
      EncodePlusTo(s, m * (t - 1), m, m * t);
      assert AddTimes(a, t) == Encode(n, m * t);
    }
  }

  /** `abs_other`: `-other` when `other` is negative. */
  function Magnitude(other: BigInt): (r: BigInt)
    requires other.Valid()
    ensures SameWidth(other, r)
    ensures AsInt(other) >= 0 ==> r == other
    ensures -HalfModulus(|other.raw|) < AsInt(other) < 0 ==> AsInt(r) == -AsInt(other)
    ensures AsInt(other) == -HalfModulus(|other.raw|) ==> r == other
  {
    NegateCases(other);
    if IsNegative(other) then Negate(other) else other
  }

  /** `operator*` as written: LoopCount(abs_other) additions, negated for a negative `other`. */
  function Times(a: BigInt, other: BigInt): (r: BigInt)
    requires SameWidth(a, other) && |a.raw| >= IntBytes
    ensures SameWidth(a, r)
  {
    var sum := AddTimes(a, LoopCount(Magnitude(other)));
    if IsNegative(other) then Negate(sum) else sum
  }

  /** How often the loop of `*` runs: |other|, or never for the minimum. */
  lemma LoopCountOfMagnitude(other: BigInt)
    requires other.Valid()
    ensures AsInt(other) == -HalfModulus(|other.raw|) ==> LoopCount(Magnitude(other)) == 0
    ensures AsInt(other) != -HalfModulus(|other.raw|) ==>
      LoopCount(Magnitude(other)) == (if AsInt(other) < 0 then -AsInt(other) else AsInt(other))
  {
    AsIntRange(other);
  }

  /** Negating an encoding of x * c encodes x * -c. */
  lemma NegatedProduct(sum: BigInt, x: int, c: int)
    requires sum.Valid() && sum == Encode(|sum.raw|, x * c)
    ensures Negate(sum) == Encode(|sum.raw|, x * -c)
  {
    EncodeNegated(sum, x * c);
    assert -(x * c) == x * -c;
  }

  /** Away from the minimum, `*` is the product modulo 2^(8n). */
  lemma TimesValue(a: BigInt, other: BigInt)
    requires SameWidth(a, other) && |a.raw| >= IntBytes
    requires AsInt(other) != -HalfModulus(|other.raw|)
    ensures Times(a, other) == Encode(|a.raw|, AsInt(a) * AsInt(other))
  {
    var c := LoopCount(Magnitude(other));
    LoopCountOfMagnitude(other);
    AddTimesValue(a, c);
    if IsNegative(other) {
      NegatedProduct(AddTimes(a, c), AsInt(a), c);
    }
  }

  /** Multiplying by the minimum gives 0, whatever the other factor. */
  lemma TimesMinimum(a: BigInt, other: BigInt)
    requires SameWidth(a, other) && |a.raw| >= IntBytes
    requires AsInt(other) == -HalfModulus(|other.raw|)
    ensures Times(a, other) == Zero(|a.raw|)
  {
    var n := |a.raw|;
    LoopCountOfMagnitude(other);
    assert Times(a, other) == Negate(Zero(n));
    EncodeAsInt(Zero(n));
  }

  /** The four-cell minimum, 0x80000000. */
  lemma MinimumOfFour()
    ensures AsInt(BigInt([0, 0, 0, 0x80])) == -HalfModulus(4)
  {
    var min := BigInt([0, 0, 0, 0x80]);
    assert Pow256(3) == 0x100_0000 by {
      assert Pow256(1) == 0x100;
      assert Pow256(2) == 0x1_0000;
    }
    assert Unsigned(min.raw[3..]) == 0x80;
    assert Unsigned(min.raw[2..]) == 0x8000;
    assert Unsigned(min.raw[1..]) == 0x80_0000;
    assert AsNat(min) == HalfModulus(4);
    SignBitIsUpperHalf(min);
  }

  /** The four-cell one. */
  lemma OneOfFour()
    ensures AsInt(BigInt([1, 0, 0, 0])) == 1
  {
    var one := BigInt([1, 0, 0, 0]);
    assert Unsigned(one.raw[1..]) == 0 by {
      assert one.raw[1..] == [0, 0, 0];
      UnsignedZero(one.raw[1..]);
    }
    SignBitIsUpperHalf(one);
  }

  /**
   * A concrete witness, four cells wide: 1 * MIN should be MIN, but `*`
   * returns 0.
   */
  lemma TimesMinimumIsWrong()
    ensures var one, min := BigInt([1, 0, 0, 0]), BigInt([0, 0, 0, 0x80]);
      Times(one, min) == Zero(4) && Encode(4, AsInt(one) * AsInt(min)) == min && min != Zero(4)
  {
    var one, min := BigInt([1, 0, 0, 0]), BigInt([0, 0, 0, 0x80]);
    MinimumOfFour();
    OneOfFour();
    TimesMinimum(one, min);
    assert AsInt(one) * AsInt(min) == AsInt(min);
    EncodeAsInt(min);
    assert min.raw[3] != Zero(4).raw[3];
  }

  /** The corrected `*`: the loop counts up to the unsigned magnitude of `other`. */
  function TimesUnsigned(a: BigInt, other: BigInt): (r: BigInt)
    requires SameWidth(a, other) && |a.raw| >= IntBytes
    ensures SameWidth(a, r)
  {
    var sum := AddTimes(a, AsNat(Magnitude(other)));
    if IsNegative(other) then Negate(sum) else sum
  }

  /** The unsigned magnitude of `other` is |other|, 2^(8n-1) for the minimum. */
  lemma MagnitudeUnsigned(other: BigInt)
    requires other.Valid()
    ensures AsNat(Magnitude(other)) == (if AsInt(other) < 0 then -AsInt(other) else AsInt(other))
  {
    var b, m := AsInt(other), Magnitude(other);
    AsIntRange(other);
    if b == -HalfModulus(|other.raw|) {
      assert m == other;
      SignBitIsUpperHalf(other);
      AsNatBound(other);
    } else if b < 0 {
      assert AsInt(m) == -b;
      NonNegativeIsUnsigned(m);
    } else {
      assert m == other;
      NonNegativeIsUnsigned(other);
    }
  }


  /** The corrected `*` is the product modulo 2^(8n) for every pair, the minimum included. */
  lemma TimesUnsignedValue(a: BigInt, other: BigInt)
    requires SameWidth(a, other) && |a.raw| >= IntBytes
    ensures TimesUnsigned(a, other) == Encode(|a.raw|, AsInt(a) * AsInt(other))
  {
    var c := AsNat(Magnitude(other));
    MagnitudeUnsigned(other);
    AddTimesValue(a, c);
    if IsNegative(other) {
      NegatedProduct(AddTimes(a, c), AsInt(a), c);
    }
  }

  /** The two agree away from the minimum. */
  lemma TimesAgree(a: BigInt, other: BigInt)
    requires SameWidth(a, other) && |a.raw| >= IntBytes
    requires AsInt(other) != -HalfModulus(|other.raw|)
    ensures Times(a, other) == TimesUnsigned(a, other)
  {
    TimesValue(a, other);
    TimesUnsignedValue(a, other);
  }

  /** `operator*` with its loop as written. */
  method MultiplyAssign(a: BigInt, other: BigInt) returns (r: BigInt)
    requires SameWidth(a, other) && |a.raw| >= IntBytes
    ensures r == Times(a, other)
  {
    var n := |a.raw|;
    r := Zero(n);
    var shouldNegate := IsNegative(other);
    var absOther := Magnitude(other);
    var i := Zero(n);
    ghost var t: nat := 0;
    CounterStart(absOther);
    while Less(i, absOther)
      invariant CountsTo(i, absOther, t)
      invariant r == AddTimes(a, t)
      decreases LoopCount(absOther) - t
    {
      r := Add(r, a);
      CounterStep(i, absOther, t);
      i := Increment(i);
      t := t + 1;
    }
    assert t == LoopCount(absOther);
    if shouldNegate {
      r := Negate(r);
    }
  }
}
