/**
 * Construction from a native integer (`big_int(T a)`, `operator=(T a)`,
 * `zero()`, `one()`), all through `big_int_init`.
 *
 * `big_int_init` leaves the cells alone for 0; otherwise it increments
 * once or twice to make the magnitude even, then loops: an odd magnitude
 * is incremented and decremented by one, an even one doubles the cells and
 * is divided by half of itself, which turns every even magnitude into 2.
 * The loop therefore ends only for |a| <= 2 and runs forever from |a| = 3
 * on. InitAsWritten models it with a fuel bound; FromInt is the intended
 * conversion: the bytes of `a` in the low cells and its sign in the rest.
 *
 * The loop also starts from the cells already present: the constructor
 * starts from zero, but `operator=` starts from the old value and so adds
 * to it.
 */
module Construct {
  import opened Arith
  import opened Bytes
  import opened BigInts
  import opened Bitwise
  import opened Arithmetic

  /** A native integral type: its width in bytes and its signedness. */
  datatype IntType = IntType(bytes: nat, signed: bool)
  {
    predicate Valid()
    {
      bytes >= 1
    }

    /** The values the type can hold. */
    predicate Holds(v: int)
      requires Valid()
    {
      if signed then -HalfModulus(bytes) <= v < HalfModulus(bytes)
      else 0 <= v < Pow256(bytes)
    }
  }

  /** `u8`, the type `zero()` and `one()` convert from. */
  const U8: IntType := IntType(1, false)

  datatype Option<T> = None | Some(value: T)

  // The live conversion.

  /** The loop of `big_int_init`, with at most `fuel` rounds. */
  function InitLoop(x: BigInt, a: nat, fuel: nat): (r: Option<BigInt>)
    requires x.Valid()
    ensures r.Some? ==> SameWidth(x, r.value)
    decreases fuel
  {
    if a == 0 then Some(x)
    else if fuel == 0 then None
    else if a % 2 == 0 then InitLoop(ShiftLeftOnce(x), a / (a / 2), fuel - 1)
    else InitLoop(Increment(x), a - 1, fuel - 1)
  }

  /** `detail::abs`: the magnitude of v. */
  function Magnitude(v: int): (a: nat)
    ensures a == v || a == -v
  {
    if v < 0 then -v else v
  }

  /** The start steps: two increments for an even magnitude, one for an odd. */
  function InitStart(x: BigInt, a: nat): (r: BigInt)
    requires x.Valid()
    ensures SameWidth(x, r)
  {
    if a % 2 == 0 then Increment(Increment(x)) else Increment(x)
  }

  /** The magnitude left for the loop after the start steps. */
  function InitRemaining(a: nat): int
  {
    if a % 2 == 0 then a - 2 else a - 1
  }

  /** The final `negate` for a negative argument. */
  function ApplySign(looped: Option<BigInt>, negative: bool): (r: Option<BigInt>)
    requires looped.Some? ==> looped.value.Valid()
    ensures r.Some? <==> looped.Some?
    ensures r.Some? ==> SameWidth(looped.value, r.value)
  {
    match looped
    case None => None
    case Some(y) => Some(if negative then Negate(y) else y)
  }

  /**
   * `big_int_init(v)` on the cells x: nothing for 0; otherwise the start
   * steps, the loop, and a negation for a negative v. None means the loop
   * did not finish within `fuel` rounds.
   */
  function InitAsWritten(x: BigInt, t: IntType, v: int, fuel: nat): (r: Option<BigInt>)
    requires x.Valid() && t.Valid() && |x.raw| >= t.bytes && t.Holds(v)
    ensures r.Some? ==> SameWidth(x, r.value)
  {
    if v == 0 then Some(x)
    else
      var a := Magnitude(v);
      assert InitRemaining(a) >= 0;
      ApplySign(InitLoop(InitStart(x, a), InitRemaining(a), fuel), v < 0)
  }

  /** `big_int(T a)`: the conversion starting from the zero-initialised cells. */
  function Construct(n: nat, t: IntType, v: int, fuel: nat): (r: Option<BigInt>)
    requires t.Valid() && n >= t.bytes && t.Holds(v)
    ensures r.Some? ==> r.value.Valid() && |r.value.raw| == n
  {
    InitAsWritten(Zero(n), t, v, fuel)
  }

  /** An even magnitude divided by its half is 2. */
  lemma StuckAtTwo(a: nat)
    requires a >= 2 && a % 2 == 0
    ensures a / (a / 2) == 2
  {
    DivModUnique(a, a / 2, 2, 0);
  }

  /** From a magnitude of 2 or more the loop never ends. */
  lemma {:induction false} InitLoopDiverges(x: BigInt, a: nat, fuel: nat)
    requires x.Valid() && a >= 2
    ensures InitLoop(x, a, fuel) == None
    decreases fuel
  {
    if fuel > 0 {
      if a % 2 == 0 {
        StuckAtTwo(a);
        InitLoopDiverges(ShiftLeftOnce(x), 2, fuel - 1);
      } else {
        InitLoopDiverges(Increment(x), a - 1, fuel - 1);
      }
    }
  }

  /** For |v| >= 3 no amount of fuel is enough: the conversion does not terminate. */
  lemma InitDiverges(x: BigInt, t: IntType, v: int, fuel: nat)
    requires x.Valid() && t.Valid() && |x.raw| >= t.bytes && t.Holds(v)
    requires v <= -3 || v >= 3
    ensures InitAsWritten(x, t, v, fuel) == None
  {
    var a := Magnitude(v);
    InitLoopDiverges(InitStart(x, a), InitRemaining(a), fuel);
  }

  /** The start steps on x for |v| = 1 and |v| = 2 add |v|. */
  lemma StartSteps(x: BigInt, a: nat)
    requires x.Valid() && 1 <= a <= 2
    ensures InitStart(x, a) == Encode(|x.raw|, AsInt(x) + a)
    ensures InitRemaining(a) == 0
  {
    var n := |x.raw|;
    if a == 2 {
      assert a % 2 == 0 && InitRemaining(a) == 0;
      TwoIncrements(x);
    } else {
      assert a % 2 == 1 && InitRemaining(a) == 0;
      assert Encode(n, AsInt(x) + 1) == Encode(n, AsInt(x) + a);
    }
  }

  /** Two increments add two. */
  lemma TwoIncrements(x: BigInt)
    requires x.Valid()
    ensures Increment(Increment(x)) == Encode(|x.raw|, AsInt(x) + 2)
  {
    var n, y := |x.raw|, Increment(x);
    EncodePlus(y, AsInt(x) + 1, 1);
    assert AsInt(x) + 1 + 1 == AsInt(x) + 2;
    assert Encode(n, AsInt(x) + 1 + 1) == Encode(n, AsInt(x) + 2);
  }

  /** On the cells x, v in {-2, ..., 2} ends at once: x + |v|, negated for a negative v. */
  lemma InitSmall(x: BigInt, t: IntType, v: int, fuel: nat)
    requires x.Valid() && t.Valid() && |x.raw| >= t.bytes && t.Holds(v)
    requires -2 <= v <= 2
    ensures v >= 0 ==> InitAsWritten(x, t, v, fuel) == Some(Encode(|x.raw|, AsInt(x) + v))
    ensures v < 0 ==> InitAsWritten(x, t, v, fuel) == Some(Encode(|x.raw|, -(AsInt(x) - v)))
  {
    var n := |x.raw|;
    if v == 0 {
      EncodeAsInt(x);
    } else {
      var a := Magnitude(v);
      InitSmallSteps(x, t, v, fuel);
      StartSteps(x, a);
      SignedStart(InitStart(x, a), |x.raw|, AsInt(x), a, v);
    }
  }

  /** The final sign step on x + |v|: kept for a positive v, negated for a negative one. */
  lemma SignedStart(y: BigInt, n: nat, i: int, a: int, v: int)
    requires y.Valid() && |y.raw| == n && y == Encode(n, i + a)
    requires v != 0 && (v > 0 ==> a == v)
    requires v < 0 ==> a == -v
    ensures v >= 0 ==> ApplySign(Some(y), v < 0) == Some(Encode(n, i + v))
    ensures v < 0 ==> ApplySign(Some(y), v < 0) == Some(Encode(n, -(i - v)))
  {
    if v < 0 {
      EncodeNegated(y, i + a);
      assert -(i + a) == -(i - v);
    } else if v > 0 {
      assert i + a == i + v;
    }
  }

  /** From cells reading 0, v in {-2, ..., 2} gives exactly v. */
  lemma InitSmallFromZero(x: BigInt, t: IntType, v: int, fuel: nat)
    requires x.Valid() && t.Valid() && |x.raw| >= t.bytes && t.Holds(v)
    requires -2 <= v <= 2 && AsInt(x) == 0
    ensures InitAsWritten(x, t, v, fuel) == Some(Encode(|x.raw|, v))
  {
    var n, i := |x.raw|, AsInt(x);
    var w := if v >= 0 then i + v else -(i - v);
    assert w == v;
    assert Encode(n, w) == Encode(n, v);
    InitSmall(x, t, v, fuel);
  }

  /** For v in {-2, -1, 1, 2} the loop has nothing left after the start steps. */
  lemma InitSmallSteps(x: BigInt, t: IntType, v: int, fuel: nat)
    requires x.Valid() && t.Valid() && |x.raw| >= t.bytes && t.Holds(v)
    requires -2 <= v <= 2 && v != 0
    ensures InitAsWritten(x, t, v, fuel) == ApplySign(Some(InitStart(x, Magnitude(v))), v < 0)
  {
    var a := Magnitude(v);
    var y := InitStart(x, a);
    if a == 1 {
      assert a % 2 == 1 && InitRemaining(a) == 0;
    } else {
      assert a == 2 && a % 2 == 0 && InitRemaining(a) == 0;
    }
    assert InitLoop(y, 0, fuel) == Some(y);
  }

  /** The constructor is exact for v in {-2, ..., 2}. */
  lemma ConstructSmall(n: nat, t: IntType, v: int, fuel: nat)
    requires t.Valid() && n >= t.bytes && t.Holds(v)
    requires -2 <= v <= 2
    ensures Construct(n, t, v, fuel) == Some(Encode(n, v))
    ensures AsInt(Construct(n, t, v, fuel).value) == v
  {
    InitSmallFromZero(Zero(n), t, v, fuel);
    assert HalfModulus(n) >= 128;
    EncodeSigned(n, v);
  }

  /** `zero()`: `big_int(u8(0))`, all cells zero. */
  function ZeroFactory(n: nat, fuel: nat): (r: Option<BigInt>)
    requires n >= 1
    ensures r.Some? && r.value.Valid() && |r.value.raw| == n
    ensures r.value == Zero(n) && AsInt(r.value) == 0
  {
    Construct(n, U8, 0, fuel)
  }

  /** `one()`: `big_int(u8(1))`, the value 1. */
  function OneFactory(n: nat, fuel: nat): (r: Option<BigInt>)
    requires n >= 1
    ensures r.Some? && r.value.Valid() && |r.value.raw| == n
    ensures AsInt(r.value) == 1
  {
    ConstructSmall(n, U8, 1, fuel);
    Construct(n, U8, 1, fuel)
  }

  /** `operator=(T a)`: `big_int_init` on the cells already there. */
  function Assign(x: BigInt, t: IntType, v: int, fuel: nat): (r: Option<BigInt>)
    requires x.Valid() && t.Valid() && |x.raw| >= t.bytes && t.Holds(v)
    ensures r.Some? ==> SameWidth(x, r.value)
  {
    InitAsWritten(x, t, v, fuel)
  }

  /**
   * Assignment adds instead of replacing: `x = 0` keeps x, and `x = 1`
   * on an x holding 1 leaves 2.
   */
  lemma AssignAccumulates(x: BigInt, t: IntType, fuel: nat)
    requires x.Valid() && t.Valid() && |x.raw| >= t.bytes
    ensures t.Holds(0) && Assign(x, t, 0, fuel) == Some(x)
    ensures t.Holds(1) && Assign(x, t, 1, fuel) == Some(Increment(x))
    ensures AsInt(x) == 1 ==> AsInt(Assign(x, t, 1, fuel).value) == 2
  {
    var n := |x.raw|;
    assert HalfModulus(t.bytes) >= 128;
    InitSmall(x, t, 0, fuel);
    InitSmall(x, t, 1, fuel);
    StartSteps(x, 1);
    if AsInt(x) == 1 {
      assert HalfModulus(n) >= 128;
      EncodeSigned(n, 2);
    }
  }

  // The intended conversion.

  /** Sign extension by the value: the bytes of v, then 0xFF cells for a negative v and 0x00 cells otherwise. */
  function FromInt(n: nat, t: IntType, v: int): (r: BigInt)
    requires t.Valid() && n >= t.bytes && t.Holds(v)
    ensures r.Valid() && |r.raw| == n
  {
    var low := ToBytes(v % Pow256(t.bytes), t.bytes);
    BigInt(low + Fill(if v < 0 then 0xFF else 0, n - t.bytes))
  }

  /** The sign-extended cells are v modulo 2^(8n). */
  lemma FromIntValue(n: nat, t: IntType, v: int)
    requires t.Valid() && n >= t.bytes && t.Holds(v)
    ensures FromInt(n, t, v) == Encode(n, v)
  {
    var b := t.bytes;
    var r := FromInt(n, t, v);
    var low := ToBytes(v % Pow256(b), b);
    var fill := Fill(if v < 0 then 0xFF else 0, n - b);
    ToBytesValue(v % Pow256(b), b);
    UnsignedAppend(low, fill);
    Pow256Add(b, n - b);
    if v < 0 {
      FillFF(n - b);
    } else {
      FillZero(n - b);
    }
    assert Pow256(b) == 2 * HalfModulus(b);
    SignExtendSum(v, Pow256(b), Pow256(n - b), Unsigned(fill));
    EncodeByValue(r, v);
  }

  /**
   * In numbers: the low part v mod p plus p times the fill (q - 1 for a
   * negative v, 0 otherwise) is v modulo p * q.
   */
  lemma SignExtendSum(v: int, p: int, q: int, fill: int)
    requires p >= 2 && q >= 1 && -p <= v < p
    requires fill == (if v < 0 then q - 1 else 0)
    ensures v % p + p * fill == v % (p * q)
  {
    MulLe(p, 1, q);
    if v < 0 {
      DivModUnique(v, p, -1, v + p);
      assert v % p + p * fill == v + p * q;
      DivModUnique(v, p * q, -1, v + p * q);
    } else {
      DivModUnique(v, p, 0, v);
      DivModUnique(v, p * q, 0, v);
    }
  }

  /** A wider integer has a larger half range. */
  lemma HalfMonotone(b: nat, n: nat)
    requires 1 <= b <= n
    ensures HalfModulus(b) <= HalfModulus(n)
  {
    Pow256Add(b - 1, n - b);
    MulLe(Pow256(b - 1), 1, Pow256(n - b));
  }

  /** A b-byte unsigned value fits the signed range of a wider integer. */
  lemma NarrowFitsHalf(b: nat, n: nat)
    requires 1 <= b < n
    ensures Pow256(b) <= HalfModulus(n)
  {
    Pow256Add(b, n - 1 - b);
    MulLe(Pow256(b), 1, Pow256(n - 1 - b));
  }

  /** A signed type's values, and an unsigned type's in a wider integer, keep their value. */
  lemma FromIntExact(n: nat, t: IntType, v: int)
    requires t.Valid() && n >= t.bytes && t.Holds(v)
    requires t.signed || n > t.bytes
    ensures AsInt(FromInt(n, t, v)) == v
  {
    FromIntValue(n, t, v);
    HalfMonotone(t.bytes, n);
    if !t.signed {
      NarrowFitsHalf(t.bytes, n);
    }
    EncodeSigned(n, v);
  }

  /** An unsigned value with its top bit set, in an integer of the same width, wraps to v - 2^(8n). */
  lemma FromIntUnsignedWraps(n: nat, t: IntType, v: int)
    requires t.Valid() && n == t.bytes && !t.signed && t.Holds(v)
    requires v >= HalfModulus(n)
    ensures AsInt(FromInt(n, t, v)) == v - Pow256(n)
  {
    var p := Pow256(n);
    FromIntValue(n, t, v);
    assert p == 2 * HalfModulus(n) by {
      SignBitIsUpperHalf(Zero(n));
    }
    EncodeWraps(n, v - p, 1);
    EncodeSigned(n, v - p);
  }

  /** Where the live conversion finishes, it agrees with the intended one. */
  lemma ConstructAgrees(n: nat, t: IntType, v: int, fuel: nat)
    requires t.Valid() && n >= t.bytes && t.Holds(v)
    ensures Construct(n, t, v, fuel).Some? <==> -2 <= v <= 2
    ensures -2 <= v <= 2 ==> Construct(n, t, v, fuel) == Some(FromInt(n, t, v))
  {
    FromIntValue(n, t, v);
    if -2 <= v <= 2 {
      ConstructSmall(n, t, v, fuel);
    } else {
      InitDiverges(Zero(n), t, v, fuel);
    }
  }
}
