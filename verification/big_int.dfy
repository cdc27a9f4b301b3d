/**
 * The storage of `big_int<size>`: `size` cells, least significant first, read
 * as an unsigned number (`AsNat`) or as a two's-complement number (`AsInt`),
 * together with the sign queries, `==`, the sign-aware `<` and the operators
 * derived from them, and the conversion to `bool`.
 */
module BigInts {
  import opened Arith
  import opened Bytes
  import opened Util

  /** `big_int<size>`: `raw[0]` is the least and `raw[size - 1]` the most significant cell. */
  datatype BigInt = BigInt(raw: seq<Byte>)
  {
    /** `static_assert(size != 0)`: there are no zero-sized integers. */
    predicate Valid()
    {
      |raw| >= 1
    }
  }

  /** Both operands of a binary operator have the same template width. */
  predicate SameWidth(a: BigInt, b: BigInt)
  {
    a.Valid() && |b.raw| == |a.raw|
  }

  /** 2^(8n) / 2: the number of non-negative values of an n-byte integer. */
  function HalfModulus(n: nat): int
    requires n >= 1
  {
    128 * Pow256(n - 1)
  }

  /** The unsigned reading of the cells. */
  function AsNat(x: BigInt): nat
  {
    Unsigned(x.raw)
  }

  /** The two's-complement reading: bit 7 of the top cell weighs -2^(8n-1). */
  function AsInt(x: BigInt): int
    requires x.Valid()
  {
    if x.raw[|x.raw| - 1] >= 128 then AsNat(x) - Pow256(|x.raw|) else AsNat(x)
  }

  lemma AsNatBound(x: BigInt)
    ensures AsNat(x) < Pow256(|x.raw|)
  {
    UnsignedBound(x.raw);
  }

  /** The sign bit is set exactly on the upper half of the unsigned range. */
  lemma SignBitIsUpperHalf(x: BigInt)
    requires x.Valid()
    ensures x.raw[|x.raw| - 1] >= 128 <==> AsNat(x) >= HalfModulus(|x.raw|)
    ensures Pow256(|x.raw|) == 2 * HalfModulus(|x.raw|)
  {
    var n := |x.raw|;
    var p := Pow256(n - 1);
    var top := x.raw[n - 1];
    UnsignedLast(x.raw);
    UnsignedBound(x.raw[..n - 1]);
    if top >= 128 {
      MulLe(p, 128, top);
    } else {
      MulLe(p, top, 127);
    }
  }

  lemma AsIntRange(x: BigInt)
    requires x.Valid()
    ensures -HalfModulus(|x.raw|) <= AsInt(x) < HalfModulus(|x.raw|)
  {
    SignBitIsUpperHalf(x);
    AsNatBound(x);
  }

  /** A non-negative integer reads the same signed and unsigned. */
  lemma NonNegativeIsUnsigned(x: BigInt)
    requires x.Valid() && AsInt(x) >= 0
    ensures AsNat(x) == AsInt(x)
  {
    AsNatBound(x);
  }

  /** Both readings agree modulo 2^(8n). */
  lemma AsIntMod(x: BigInt)
    requires x.Valid()
    ensures AsInt(x) % Pow256(|x.raw|) == AsNat(x)
  {
    var m := Pow256(|x.raw|);
    AsNatBound(x);
    if x.raw[|x.raw| - 1] >= 128 {
      DivModUnique(AsInt(x), m, -1, AsNat(x));
    } else {
      DivModUnique(AsInt(x), m, 0, AsNat(x));
    }
  }

  /** Distinct cell patterns are distinct values: there is no padding. */
  lemma AsNatInjective(a: BigInt, b: BigInt)
    requires |a.raw| == |b.raw| && AsNat(a) == AsNat(b)
    ensures a == b
  {
    UnsignedInjective(a.raw, b.raw);
  }

  lemma AsIntInjective(a: BigInt, b: BigInt)
    requires SameWidth(a, b) && AsInt(a) == AsInt(b)
    ensures a == b
  {
    AsIntMod(a);
    AsIntMod(b);
    AsNatInjective(a, b);
  }

  lemma SameValueSameCells(a: BigInt, b: BigInt)
    requires SameWidth(a, b)
    ensures AsInt(a) == AsInt(b) <==> a == b
  {
    if AsInt(a) == AsInt(b) {
      AsIntInjective(a, b);
    }
  }

  /**
   * The n-byte integer congruent to v modulo 2^(8n): the reference value that
   * every wrapping operation is compared against.
   */
  function Encode(n: nat, v: int): (r: BigInt)
    requires n >= 1
    ensures r.Valid() && |r.raw| == n
  {
    BigInt(ToBytes(v % Pow256(n), n))
  }

  /** The encoding of v holds v modulo 2^(8n). */
  lemma EncodeValue(n: nat, v: int)
    requires n >= 1
    ensures AsNat(Encode(n, v)) == v % Pow256(n)
  {
    ToBytesValue(v % Pow256(n), n);
  }

  /** Congruent values have the same encoding. */
  lemma EncodeSame(n: nat, v: int, w: int)
    requires n >= 1 && v % Pow256(n) == w % Pow256(n)
    ensures Encode(n, v) == Encode(n, w)
  {
  }

  /** A value in the signed range is encoded exactly. */
  lemma EncodeSigned(n: nat, v: int)
    requires n >= 1 && -HalfModulus(n) <= v < HalfModulus(n)
    ensures AsInt(Encode(n, v)) == v
  {
    var r := Encode(n, v);
    var m := Pow256(n);
    EncodeValue(n, v);
    SignBitIsUpperHalf(r);
    if v >= 0 {
      DivModUnique(v, m, 0, v);
    } else {
      DivModUnique(v, m, -1, v + m);
    }
  }

  /** Every integer is the encoding of its own value. */
  lemma EncodeAsInt(x: BigInt)
    requires x.Valid()
    ensures Encode(|x.raw|, AsInt(x)) == x
  {
    AsIntMod(x);
    EncodeValue(|x.raw|, AsInt(x));
    AsNatInjective(Encode(|x.raw|, AsInt(x)), x);
  }

  /** A cell pattern whose unsigned value is v modulo 2^(8n) is the encoding of v. */
  lemma EncodeByValue(x: BigInt, v: int)
    requires x.Valid() && AsNat(x) == v % Pow256(|x.raw|)
    ensures x == Encode(|x.raw|, v)
  {
    EncodeValue(|x.raw|, v);
    AsNatInjective(x, Encode(|x.raw|, v));
  }

  /** The signed value of an encoding of v is congruent to v. */
  lemma EncodeCongruent(x: BigInt, v: int)
    requires x.Valid() && x == Encode(|x.raw|, v)
    ensures AsInt(x) % Pow256(|x.raw|) == v % Pow256(|x.raw|)
  {
    AsIntMod(x);
    EncodeValue(|x.raw|, v);
  }

  /** Values a multiple of 2^(8n) apart have the same encoding. */
  lemma EncodeWraps(n: nat, v: int, k: int)
    requires n >= 1
    ensures Encode(n, v + k * Pow256(n)) == Encode(n, v)
  {
    ModMultiple(v, k, Pow256(n));
  }

  /** EncodeWraps with the wrapped value named. */
  lemma EncodeWrapsTo(n: nat, v: int, w: int, k: int)
    requires n >= 1 && v == w + k * Pow256(n)
    ensures Encode(n, v) == Encode(n, w)
  {
    EncodeWraps(n, w, k);
  }

  /** Adding d to the value of an encoding of v encodes v + d. */
  lemma EncodePlus(x: BigInt, v: int, d: int)
    requires x.Valid() && x == Encode(|x.raw|, v)
    ensures Encode(|x.raw|, AsInt(x) + d) == Encode(|x.raw|, v + d)
  {
    var m := Pow256(|x.raw|);
    EncodeCongruent(x, v);
    ModSum(AsInt(x), d, m);
    ModSum(v, d, m);
  }

  /** EncodePlus with the sum named: the encoding of v + d is the encoding of w. */
  lemma EncodePlusTo(x: BigInt, v: int, d: int, w: int)
    requires x.Valid() && x == Encode(|x.raw|, v) && w == v + d
    ensures Encode(|x.raw|, AsInt(x) + d) == Encode(|x.raw|, w)
  {
    EncodePlus(x, v, d);
  }

  /** Negating the value of an encoding of v encodes -v. */
  lemma EncodeNegated(x: BigInt, v: int)
    requires x.Valid() && x == Encode(|x.raw|, v)
    ensures Encode(|x.raw|, -AsInt(x)) == Encode(|x.raw|, -v)
  {
    EncodeCongruent(x, v);
    ModNeg(AsInt(x), v, Pow256(|x.raw|));
  }

  /** `zero()` and the default constructor: every cell 0. */
  function Zero(n: nat): (r: BigInt)
    requires n >= 1
    ensures r.Valid() && |r.raw| == n
    ensures AsInt(r) == 0
  {
    FillZero(n);
    BigInt(Fill(0, n))
  }

  // Sign access.

  function MostSignificantByte(x: BigInt): Byte
    requires x.Valid()
  {
    x.raw[|x.raw| - 1]
  }

  /** The top cell with the sign bit masked off (`& 0b01111111`). */
  function MostSignificantByteNoSign(x: BigInt): (r: Byte)
    requires x.Valid()
    ensures r == MostSignificantByte(x) % 128
  {
    var b := MostSignificantByte(x);
    ByteAndLow(b);
    ByteAnd(b, 0x7F)
  }

  /** `is_negative`: the sign bit of the top cell is set. */
  function IsNegative(x: BigInt): (r: bool)
    requires x.Valid()
    ensures r <==> AsInt(x) < 0
  {
    SignBitIsUpperHalf(x);
    AsNatBound(x);
    MostSignificantBit(MostSignificantByte(x)) != 0
  }

  // Comparison.

  /** The loop of `operator==` from cell i on. */
  function EqualFrom<T(==)>(a: seq<T>, b: seq<T>, i: nat): (r: bool)
    requires |a| == |b| && i <= |a|
    ensures r <==> a[i..] == b[i..]
    decreases |a| - i
  {
    if i == |a| then true
    else if a[i] != b[i] then false
    else
      assert a[i..] == [a[i]] + a[i + 1..];
      assert b[i..] == [b[i]] + b[i + 1..];
      EqualFrom(a, b, i + 1)
  }

  /** `operator==`: every cell matches. */
  function Equal(a: BigInt, b: BigInt): (r: bool)
    requires SameWidth(a, b)
    ensures r <==> a == b
    ensures r <==> AsInt(a) == AsInt(b)
  {
    SameValueSameCells(a, b);
    assert a.raw[0..] == a.raw && b.raw[0..] == b.raw;
    EqualFrom(a.raw, b.raw, 0)
  }

  function NotEqual(a: BigInt, b: BigInt): (r: bool)
    requires SameWidth(a, b)
    ensures r <==> AsInt(a) != AsInt(b)
  {
    !Equal(a, b)
  }

  /**
   * `operator<`: differing signs decide first; then the top cells without
   * the sign bit; then the cells from the most significant end.
   */
  function Less(a: BigInt, b: BigInt): bool
    requires SameWidth(a, b)
  {
    if IsNegative(a) != IsNegative(b) then IsNegative(a)
    else if MostSignificantByteNoSign(a) == MostSignificantByteNoSign(b) then
      LexLess(a.raw, b.raw, |a.raw|)
    else MostSignificantByteNoSign(a) < MostSignificantByteNoSign(b)
  }

  /** With equal sign bits the signed order is the unsigned order. */
  lemma SameSignOrder(a: BigInt, b: BigInt)
    requires SameWidth(a, b)
    requires (a.raw[|a.raw| - 1] >= 128) == (b.raw[|b.raw| - 1] >= 128)
    ensures AsInt(a) < AsInt(b) <==> AsNat(a) < AsNat(b)
  {
  }

  /** A smaller top cell means a smaller unsigned value. */
  lemma TopCellDecides(a: BigInt, b: BigInt)
    requires SameWidth(a, b)
    requires a.raw[|a.raw| - 1] < b.raw[|b.raw| - 1]
    ensures AsNat(a) < AsNat(b)
  {
    var n := |a.raw|;
    UnsignedLast(a.raw);
    UnsignedLast(b.raw);
    UnsignedBound(a.raw[..n - 1]);
    UnsignedBound(b.raw[..n - 1]);
    DigitDecides(Unsigned(a.raw[..n - 1]), Unsigned(b.raw[..n - 1]), Pow256(n - 1), a.raw[n - 1], b.raw[n - 1]);
  }

  /** The byte-level `<` is the order of the two's-complement values. */
  lemma LessIsSignedOrder(a: BigInt, b: BigInt)
    requires SameWidth(a, b)
    ensures Less(a, b) <==> AsInt(a) < AsInt(b)
  {
    var n := |a.raw|;
    var ta, tb := a.raw[n - 1], b.raw[n - 1];
    if IsNegative(a) == IsNegative(b) {
      assert (ta >= 128) == (tb >= 128) by {
        SignBitIsUpperHalf(a);
        SignBitIsUpperHalf(b);
      }
      SameSignOrder(a, b);
      if ta % 128 == tb % 128 {
        assert ta == tb;
        LexLessUnsigned(a.raw, b.raw, n);
        assert a.raw[..n] == a.raw && b.raw[..n] == b.raw;
      } else if ta < tb {
        TopCellDecides(a, b);
      } else {
        TopCellDecides(b, a);
      }
    }
  }

  /** `operator<=`: `<` or `==`. */
  function LessEq(a: BigInt, b: BigInt): (r: bool)
    requires SameWidth(a, b)
    ensures r <==> AsInt(a) <= AsInt(b)
  {
    LessIsSignedOrder(a, b);
    Less(a, b) || Equal(a, b)
  }

  /** `operator>`: not `<=`. */
  function Greater(a: BigInt, b: BigInt): (r: bool)
    requires SameWidth(a, b)
    ensures r <==> AsInt(a) > AsInt(b)
  {
    !LessEq(a, b)
  }

  /** `operator>=`: not `<`. */
  function GreaterEq(a: BigInt, b: BigInt): (r: bool)
    requires SameWidth(a, b)
    ensures r <==> AsInt(a) >= AsInt(b)
  {
    LessIsSignedOrder(a, b);
    !Less(a, b)
  }

  /** Exactly one of `a < b`, `a == b`, `b < a` holds. */
  lemma Trichotomy(a: BigInt, b: BigInt)
    requires SameWidth(a, b)
    ensures Less(a, b) || Equal(a, b) || Less(b, a)
    ensures !(Less(a, b) && Equal(a, b))
    ensures !(Less(a, b) && Less(b, a))
    ensures !(Equal(a, b) && Less(b, a))
  {
    LessIsSignedOrder(a, b);
    LessIsSignedOrder(b, a);
  }

  /** `<` is transitive. */
  lemma LessTransitive(a: BigInt, b: BigInt, c: BigInt)
    requires SameWidth(a, b) && SameWidth(b, c)
    requires Less(a, b) && Less(b, c)
    ensures Less(a, c)
  {
    LessIsSignedOrder(a, b);
    LessIsSignedOrder(b, c);
    LessIsSignedOrder(a, c);
  }

  /** Any negative value is below any non-negative one, whatever its other cells. */
  lemma NegativeBelowNonNegative(x: BigInt, y: BigInt)
    requires SameWidth(x, y) && IsNegative(x) && !IsNegative(y)
    ensures Less(x, y)
  {
  }

  // Conversion to bool.

  /** The loop of `operator bool` from cell i on. */
  function AnyNonZero(s: seq<int>, i: nat): (r: bool)
    requires i <= |s|
    ensures r <==> exists j :: i <= j < |s| && s[j] != 0
    decreases |s| - i
  {
    if i == |s| then false
    else if s[i] != 0 then true
    else AnyNonZero(s, i + 1)
  }

  /** `explicit operator bool`: some cell is non-zero, that is, the value is not 0. */
  function ToBool(x: BigInt): (r: bool)
    requires x.Valid()
    ensures r <==> AsInt(x) != 0
  {
    UnsignedZero(x.raw);
    AsNatBound(x);
    AnyNonZero(x.raw, 0)
  }

  /** `operator!`: the value is 0. */
  function LogicalNot(x: BigInt): (r: bool)
    requires x.Valid()
    ensures r <==> x == Zero(|x.raw|)
  {
    SameValueSameCells(x, Zero(|x.raw|));
    !ToBool(x)
  }

  /** `operator&&`: both values are non-zero. */
  function LogicalAnd(a: BigInt, b: BigInt): (r: bool)
    requires a.Valid() && b.Valid()
    ensures r <==> AsInt(a) != 0 && AsInt(b) != 0
  {
    ToBool(a) && ToBool(b)
  }

  /** `operator||`: some value is non-zero. */
  function LogicalOr(a: BigInt, b: BigInt): (r: bool)
    requires a.Valid() && b.Valid()
    ensures r <==> AsInt(a) != 0 || AsInt(b) != 0
  {
    ToBool(a) || ToBool(b)
  }
}
