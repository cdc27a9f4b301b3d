/**
 * The wrapping arithmetic of `big_int`: the ripple-carry `+=`, the do-while
 * `increment` and `decrement`, `negate` as complement-plus-one, `-=` as the
 * addition of the negation, and `abs`. Every result is compared with the
 * reference `Encode(n, v)`, the n-byte integer congruent to v modulo 2^(8n).
 */
module Arithmetic {
  import opened Arith
  import opened Bytes
  import opened BigInts
  import opened Bitwise

  function CarryValue(c: bool): int
  {
    if c then 1 else 0
  }

  /**
   * One cell of `+=`: the cell plus the other operand's cell wrapped to eight
   * bits, then plus the incoming carry wrapped again, with the two overflow
   * tests of the source (the new value fell below the value it was made from).
   */
  datatype AddStep = AddStep(cell: Byte, overflowedOnSum: bool, overflowedOnCarry: bool)
  {
    function CarryOut(): bool
    {
      overflowedOnSum || overflowedOnCarry
    }
  }

  function AddCell(a: Byte, b: Byte, carry: bool): (r: AddStep)
    ensures r.overflowedOnSum <==> a as int + b >= 256
    ensures r.overflowedOnCarry <==> (a as int + b) % 256 + CarryValue(carry) >= 256
    ensures !(r.overflowedOnSum && r.overflowedOnCarry)
    ensures r.cell + 256 * CarryValue(r.CarryOut()) == a as int + b + CarryValue(carry)
  {
    var summed := (a as int + b) % 256;
    var cell := (summed + CarryValue(carry)) % 256;
    AddStep(cell, summed < a, cell < summed)
  }

  /** One cell of the ripple carry, in numbers. */
  lemma AddCellsStep(a0: int, b0: int, c: int, cell: int, cout: int, ua: int, ub: int, rest: int, p: int)
    requires 0 <= cell < 256 && p >= 1
    requires cell + 256 * cout == a0 + b0 + c
    requires rest == (ua + ub + cout) % p
    ensures cell + 256 * rest == (a0 + 256 * ua + (b0 + 256 * ub) + c) % (256 * p)
  {
    assert a0 + 256 * ua + (b0 + 256 * ub) + c == cell + 256 * (ua + ub + cout);
    ModShift(cell, ua + ub + cout, 256, p);
  }

  /** The `+=` loop from the current cell on, with the carry coming in. */
  function AddCells(a: seq<Byte>, b: seq<Byte>, carry: bool): (r: seq<Byte>)
    requires |a| == |b|
    ensures |r| == |a|
  {
    if |a| == 0 then []
    else
      var step := AddCell(a[0], b[0], carry);
      [step.cell] + AddCells(a[1..], b[1..], step.CarryOut())
  }

  /** The ripple carry computes the sum of the two readings plus the carry, modulo 2^(8n). */
  lemma {:induction false} AddCellsValue(a: seq<Byte>, b: seq<Byte>, carry: bool)
    requires |a| == |b|
    ensures Unsigned(AddCells(a, b, carry)) == (Unsigned(a) + Unsigned(b) + CarryValue(carry)) % Pow256(|a|)
  {
    if |a| > 0 {
      var step := AddCell(a[0], b[0], carry);
      var rest := AddCells(a[1..], b[1..], step.CarryOut());
      AddCellsValue(a[1..], b[1..], step.CarryOut());
      assert AddCells(a, b, carry) == [step.cell] + rest;
      assert ([step.cell] + rest)[1..] == rest;
      AddCellsStep(a[0], b[0], CarryValue(carry), step.cell, CarryValue(step.CarryOut()),
                   Unsigned(a[1..]), Unsigned(b[1..]), Unsigned(rest), Pow256(|a| - 1));
    }
  }

  /** `operator+` (and `+=`): the sum modulo 2^(8n). */
  function Add(a: BigInt, b: BigInt): (r: BigInt)
    requires SameWidth(a, b)
    ensures SameWidth(a, r)
    ensures AsNat(r) == (AsNat(a) + AsNat(b)) % Pow256(|a.raw|)
    ensures r == Encode(|a.raw|, AsInt(a) + AsInt(b))
  {
    var r := BigInt(AddCells(a.raw, b.raw, false));
    AddCellsValue(a.raw, b.raw, false);
    SumEncoding(a, b, r);
    r
  }

  /** Cells holding the unsigned sum modulo 2^(8n) encode the signed sum. */
  lemma SumEncoding(a: BigInt, b: BigInt, r: BigInt)
    requires SameWidth(a, b) && |r.raw| == |a.raw|
    requires AsNat(r) == (AsNat(a) + AsNat(b)) % Pow256(|a.raw|)
    ensures r == Encode(|a.raw|, AsInt(a) + AsInt(b))
  {
    var m := Pow256(|a.raw|);
    AsIntMod(a);
    AsIntMod(b);
    ModSum(AsInt(a), AsInt(b), m);
    EncodeByValue(r, AsInt(a) + AsInt(b));
  }

  /**
   * `operator+=` as the loop it is: each cell is updated in place and the
   * carry is the disjunction of the two overflow tests.
   */
  method AddAssign(a: BigInt, b: BigInt) returns (r: BigInt)
    requires SameWidth(a, b)
    ensures AsNat(r) == (AsNat(a) + AsNat(b)) % Pow256(|a.raw|)
    ensures r == Add(a, b)
  {
    var raw: seq<Byte> := a.raw;
    var carry := false;
    var i := 0;
    while i < |raw|
      invariant 0 <= i <= |raw| == |a.raw|
      invariant raw[i..] == a.raw[i..]
      invariant Unsigned(raw[..i]) + Pow256(i) * CarryValue(carry)
                == Unsigned(a.raw[..i]) + Unsigned(b.raw[..i])
    {
      ghost var before, carryIn := raw, carry;
      assert raw[i] == a.raw[i];
      raw, carry := AddIntoCell(raw, i, b.raw[i], carry);
      AddAssignStep(before, raw, a.raw, b.raw, i, carryIn, AddCell(a.raw[i], b.raw[i], carryIn));
      assert raw[i + 1..] == before[i + 1..];
      i := i + 1;
    }
    assert raw[..i] == raw && a.raw[..i] == a.raw && b.raw[..i] == b.raw;
    r := BigInt(raw);
    AddAssignDone(a, b, r, CarryValue(carry));
  }

  /**
   * The body of the `+=` loop for cell i: `raw[i] += other`, the first
   * overflow test, `raw[i] += carry`, the second test.
   */
  method AddIntoCell(raw: seq<Byte>, i: nat, other: Byte, carry: bool) returns (after: seq<Byte>, carryOut: bool)
    requires i < |raw|
    ensures after == raw[i := AddCell(raw[i], other, carry).cell]
    ensures carryOut == AddCell(raw[i], other, carry).CarryOut()
  {
    var oldValue := raw[i];
    after := raw[i := (raw[i] as int + other) % 256];
    var overflowedOnSum := after[i] < oldValue;
    var summed := after[i];
    after := after[i := (after[i] + CarryValue(carry)) % 256];
    var overflowedOnCarry := after[i] < summed;
    carryOut := overflowedOnCarry || overflowedOnSum;
  }

  /** After the last cell, the dropped carry is the wrap modulo 2^(8n). */
  lemma AddAssignDone(a: BigInt, b: BigInt, r: BigInt, carry: int)
    requires SameWidth(a, b) && |r.raw| == |a.raw| && 0 <= carry <= 1
    requires AsNat(r) + Pow256(|a.raw|) * carry == AsNat(a) + AsNat(b)
    ensures AsNat(r) == (AsNat(a) + AsNat(b)) % Pow256(|a.raw|)
    ensures r == Add(a, b)
  {
    AsNatBound(r);
    DivModUnique(AsNat(a) + AsNat(b), Pow256(|a.raw|), carry, AsNat(r));
    AsNatInjective(r, Add(a, b));
  }

  /** The loop invariant of `AddAssign` survives one cell. */
  lemma AddAssignStep(before: seq<Byte>, after: seq<Byte>, a: seq<Byte>, b: seq<Byte>, i: nat,
                      carry: bool, step: AddStep)
    requires |before| == |after| == |a| == |b| && i < |a|
    requires before[i] == a[i] && after == before[i := step.cell]
    requires step.cell + 256 * CarryValue(step.CarryOut()) == a[i] as int + b[i] + CarryValue(carry)
    requires Unsigned(before[..i]) + Pow256(i) * CarryValue(carry) == Unsigned(a[..i]) + Unsigned(b[..i])
    ensures Unsigned(after[..i + 1]) + Pow256(i + 1) * CarryValue(step.CarryOut())
            == Unsigned(a[..i + 1]) + Unsigned(b[..i + 1])
  {
    assert after[..i] == before[..i];
    UnsignedSnoc(after, i);
    UnsignedSnoc(a, i);
    UnsignedSnoc(b, i);
    assert Pow256(i + 1) == 256 * Pow256(i);
    CarryWeight(Unsigned(before[..i]), Unsigned(a[..i]), Unsigned(b[..i]), Pow256(i),
                step.cell, CarryValue(step.CarryOut()), a[i], b[i], CarryValue(carry));
  }

  /** The carry of weight 256^i becomes part of cell i and a carry of weight 256^(i+1). */
  lemma CarryWeight(u: int, ua: int, ub: int, p: int, cell: int, co: int, ai: int, bi: int, c: int)
    requires u + p * c == ua + ub
    requires cell + 256 * co == ai + bi + c
    ensures u + p * cell + (256 * p) * co == ua + p * ai + (ub + p * bi)
  {
    assert p * (cell + 256 * co) == p * (ai + bi + c);
    assert p * (cell + 256 * co) == p * cell + (256 * p) * co;
    assert p * (ai + bi + c) == p * ai + p * bi + p * c;
  }

  // Increment and decrement.

  /** `0 + 256 * (x % p)` is `(256 * x) % (256 * p)`. */
  lemma WrapUp(x: int, p: int)
    requires p >= 1
    ensures 256 * (x % p) == (256 * x) % (256 * p)
  {
    ModShift(0, x, 256, p);
  }

  /**
   * The do-while of `increment` from the current cell: add one; a cell that
   * wrapped (its old value is above the new one) carries into the next cell
   * while cells remain.
   */
  function IncCells(s: seq<Byte>): (r: seq<Byte>)
    requires |s| >= 1
    ensures |r| == |s|
  {
    var cell := (s[0] as int + 1) % 256;
    if s[0] > cell && |s| > 1 then [cell] + IncCells(s[1..]) else [cell] + s[1..]
  }

  /** The do-while adds one modulo 2^(8n). */
  lemma {:induction false} IncCellsValue(s: seq<Byte>)
    requires |s| >= 1
    ensures Unsigned(IncCells(s)) == (Unsigned(s) + 1) % Pow256(|s|)
  {
    if s[0] == 255 && |s| > 1 {
      IncCellsValue(s[1..]);
      IncCarries(s);
    } else {
      IncStops(s);
    }
  }

  /** A cell 255 wraps to 0 and carries one into the rest. */
  lemma IncCarries(s: seq<Byte>)
    requires |s| > 1 && s[0] == 255
    requires Unsigned(IncCells(s[1..])) == (Unsigned(s[1..]) + 1) % Pow256(|s| - 1)
    ensures Unsigned(IncCells(s)) == (Unsigned(s) + 1) % Pow256(|s|)
  {
    var rest := IncCells(s[1..]);
    assert IncCells(s) == [0] + rest;
    assert ([0] + rest)[1..] == rest;
    assert Unsigned(s) + 1 == 256 * (Unsigned(s[1..]) + 1);
    WrapUp(Unsigned(s[1..]) + 1, Pow256(|s| - 1));
  }

  /** The carry stops at the first cell: only that cell changes. */
  lemma IncStops(s: seq<Byte>)
    requires |s| >= 1 && !(s[0] == 255 && |s| > 1)
    ensures Unsigned(IncCells(s)) == (Unsigned(s) + 1) % Pow256(|s|)
  {
    var cell := (s[0] as int + 1) % 256;
    assert s[0] > cell <==> s[0] == 255;
    assert IncCells(s) == [cell] + s[1..];
    IncStopsValue(s, cell);
  }

  /** The value of the sequence with only its first cell replaced. */
  lemma IncStopsValue(s: seq<Byte>, cell: Byte)
    requires |s| >= 1 && cell == (s[0] as int + 1) % 256
    requires s[0] == 255 ==> |s| == 1
    ensures Unsigned([cell] + s[1..]) == (Unsigned(s) + 1) % Pow256(|s|)
  {
    assert ([cell] + s[1..])[1..] == s[1..];
    UnsignedBound(s[1..]);
    if s[0] == 255 {
      DivModUnique(Unsigned(s) + 1, 256, 1, 0);
    } else {
      DivModUnique(Unsigned(s) + 1, 256 * Pow256(|s| - 1), 0, Unsigned(s) + 1);
    }
  }

  /** The carry stops at the first cell that does not wrap: every cell above it is kept. */
  lemma {:induction false} IncCellsKeepsHigh(s: seq<Byte>, j: nat)
    requires j < |s| && s[j] != 255
    ensures IncCells(s)[j + 1..] == s[j + 1..]
  {
    var cell := (s[0] as int + 1) % 256;
    if s[0] == 255 && |s| > 1 {
      IncCellsKeepsHigh(s[1..], j - 1);
      assert IncCells(s)[j + 1..] == IncCells(s[1..])[j..];
    }
  }

  /**
   * The do-while of `decrement`: subtract one; a cell that wrapped (its old
   * value is below the new one) borrows from the next cell while cells remain.
   */
  function DecCells(s: seq<Byte>): (r: seq<Byte>)
    requires |s| >= 1
    ensures |r| == |s|
  {
    var cell := (s[0] as int - 1) % 256;
    if s[0] < cell && |s| > 1 then [cell] + DecCells(s[1..]) else [cell] + s[1..]
  }

  /** The do-while subtracts one modulo 2^(8n). */
  lemma {:induction false} DecCellsValue(s: seq<Byte>)
    requires |s| >= 1
    ensures Unsigned(DecCells(s)) == (Unsigned(s) - 1) % Pow256(|s|)
  {
    if s[0] == 0 && |s| > 1 {
      DecCellsValue(s[1..]);
      DecBorrows(s);
    } else {
      DecStops(s);
    }
  }

  /** A cell 0 wraps to 255 and borrows one from the rest. */
  lemma DecBorrows(s: seq<Byte>)
    requires |s| > 1 && s[0] == 0
    requires Unsigned(DecCells(s[1..])) == (Unsigned(s[1..]) - 1) % Pow256(|s| - 1)
    ensures Unsigned(DecCells(s)) == (Unsigned(s) - 1) % Pow256(|s|)
  {
    var rest := DecCells(s[1..]);
    assert DecCells(s) == [255] + rest;
    assert ([255] + rest)[1..] == rest;
    assert Unsigned(s) - 1 == 255 + 256 * (Unsigned(s[1..]) - 1);
    ModShift(255, Unsigned(s[1..]) - 1, 256, Pow256(|s| - 1));
  }

  /** The borrow stops at the first cell: only that cell changes. */
  lemma DecStops(s: seq<Byte>)
    requires |s| >= 1 && !(s[0] == 0 && |s| > 1)
    ensures Unsigned(DecCells(s)) == (Unsigned(s) - 1) % Pow256(|s|)
  {
    var cell := (s[0] as int - 1) % 256;
    assert s[0] < cell <==> s[0] == 0;
    assert DecCells(s) == [cell] + s[1..];
    DecStopsValue(s, cell);
  }

  /** The value of the sequence with only its first cell replaced. */
  lemma DecStopsValue(s: seq<Byte>, cell: Byte)
    requires |s| >= 1 && cell == (s[0] as int - 1) % 256
    requires s[0] == 0 ==> |s| == 1
    ensures Unsigned([cell] + s[1..]) == (Unsigned(s) - 1) % Pow256(|s|)
  {
    assert ([cell] + s[1..])[1..] == s[1..];
    UnsignedBound(s[1..]);
    if s[0] == 0 {
      DivModUnique(Unsigned(s) - 1, 256, -1, 255);
    } else {
      DivModUnique(Unsigned(s) - 1, 256 * Pow256(|s| - 1), 0, Unsigned(s) - 1);
    }
  }

  /** The borrow stops at the first non-zero cell: every cell above it is kept. */
  lemma {:induction false} DecCellsKeepsHigh(s: seq<Byte>, j: nat)
    requires j < |s| && s[j] != 0
    ensures DecCells(s)[j + 1..] == s[j + 1..]
  {
    if s[0] == 0 && |s| > 1 {
      DecCellsKeepsHigh(s[1..], j - 1);
      assert DecCells(s)[j + 1..] == DecCells(s[1..])[j..];
    }
  }

  /** Adding a small constant to the signed value matches adding it to the unsigned one. */
  lemma ShiftedEncoding(x: BigInt, r: BigInt, d: int)
    requires x.Valid() && |r.raw| == |x.raw|
    requires AsNat(r) == (AsNat(x) + d) % Pow256(|x.raw|)
    ensures r == Encode(|x.raw|, AsInt(x) + d)
  {
    var m := Pow256(|x.raw|);
    AsIntMod(x);
    AsNatBound(x);
    DivModUnique(AsNat(x), m, 0, AsNat(x));
    ModSum(AsInt(x), d, m);
    ModSum(AsNat(x), d, m);
    EncodeByValue(r, AsInt(x) + d);
  }

  /** `increment` (prefix and postfix `++`): plus one modulo 2^(8n). */
  function Increment(x: BigInt): (r: BigInt)
    requires x.Valid()
    ensures SameWidth(x, r)
    ensures r == Encode(|x.raw|, AsInt(x) + 1)
  {
    var r := BigInt(IncCells(x.raw));
    IncCellsValue(x.raw);
    ShiftedEncoding(x, r, 1);
    r
  }

  /** `decrement` (prefix and postfix `--`): minus one modulo 2^(8n). */
  function Decrement(x: BigInt): (r: BigInt)
    requires x.Valid()
    ensures SameWidth(x, r)
    ensures r == Encode(|x.raw|, AsInt(x) - 1)
  {
    var r := BigInt(DecCells(x.raw));
    DecCellsValue(x.raw);
    ShiftedEncoding(x, r, -1);
    r
  }

  /** Below the maximum, `++` adds exactly one. */
  lemma IncrementExact(x: BigInt)
    requires x.Valid() && AsInt(x) + 1 < HalfModulus(|x.raw|)
    ensures AsInt(Increment(x)) == AsInt(x) + 1
  {
    AsIntRange(x);
    EncodeSigned(|x.raw|, AsInt(x) + 1);
  }

  /** Above the minimum, `--` subtracts exactly one. */
  lemma DecrementExact(x: BigInt)
    requires x.Valid() && AsInt(x) - 1 >= -HalfModulus(|x.raw|)
    ensures AsInt(Decrement(x)) == AsInt(x) - 1
  {
    AsIntRange(x);
    EncodeSigned(|x.raw|, AsInt(x) - 1);
  }

  /** `--` undoes `++` and `++` undoes `--`. */
  lemma IncrementDecrement(x: BigInt)
    requires x.Valid()
    ensures Decrement(Increment(x)) == x
    ensures Increment(Decrement(x)) == x
  {
    EncodePlus(Increment(x), AsInt(x) + 1, -1);
    EncodePlus(Decrement(x), AsInt(x) - 1, 1);
    EncodeAsInt(x);
  }

  /** `negate`: complement every cell, then increment; the result is -x modulo 2^(8n). */
  function Negate(x: BigInt): (r: BigInt)
    requires x.Valid()
    ensures SameWidth(x, r)
    ensures r == Encode(|x.raw|, -AsInt(x))
  {
    NotValue(x);
    Increment(Not(x))
  }

  /** Away from the minimum, negation is exact. */
  lemma NegateExact(x: BigInt)
    requires x.Valid() && AsInt(x) != -HalfModulus(|x.raw|)
    ensures AsInt(Negate(x)) == -AsInt(x)
  {
    var n, v := |x.raw|, AsInt(x);
    AsIntRange(x);
    assert -HalfModulus(n) <= -v < HalfModulus(n);
    assert Negate(x) == Encode(n, -v);
    EncodeSigned(n, -v);
  }

  /** The minimum is its own negation. */
  lemma NegateMinimum(x: BigInt)
    requires x.Valid() && AsInt(x) == -HalfModulus(|x.raw|)
    ensures Negate(x) == x
  {
    var n := |x.raw|;
    var h := HalfModulus(n);
    var m := Pow256(n);
    SignBitIsUpperHalf(x);
    ModMultiple(-h, 1, m);
    assert -h + 1 * m == h;
    assert h % m == (-h) % m;
    assert Encode(n, h) == Encode(n, -h);
    assert Negate(x) == Encode(n, h);
    EncodeAsInt(x);
  }

  lemma NegateCases(x: BigInt)
    requires x.Valid()
    ensures AsInt(x) != -HalfModulus(|x.raw|) ==> AsInt(Negate(x)) == -AsInt(x)
    ensures AsInt(x) == -HalfModulus(|x.raw|) ==> Negate(x) == x
  {
    if AsInt(x) == -HalfModulus(|x.raw|) {
      NegateMinimum(x);
    } else {
      NegateExact(x);
    }
  }

  /** `-(-x) == x` for every x, the minimum included. */
  lemma NegateInvolution(x: BigInt)
    requires x.Valid()
    ensures Negate(Negate(x)) == x
  {
    EncodeNegated(Negate(x), -AsInt(x));
    EncodeAsInt(x);
  }

  /** `operator-` (and `-=`): `a + (-b)`, the difference modulo 2^(8n). */
  function Sub(a: BigInt, b: BigInt): (r: BigInt)
    requires SameWidth(a, b)
    ensures SameWidth(a, r)
    ensures r == Encode(|a.raw|, AsInt(a) - AsInt(b))
  {
    AddNegated(a, b);
    Add(a, Negate(b))
  }

  /** Adding the wrapped negation of b subtracts b modulo 2^(8n). */
  lemma AddNegated(a: BigInt, b: BigInt)
    requires SameWidth(a, b)
    ensures Add(a, Negate(b)) == Encode(|a.raw|, AsInt(a) - AsInt(b))
  {
    var nb := Negate(b);
    assert Add(a, nb) == Encode(|a.raw|, AsInt(nb) + AsInt(a));
    EncodePlus(nb, -AsInt(b), AsInt(a));
    assert -AsInt(b) + AsInt(a) == AsInt(a) - AsInt(b);
  }

  /** `abs`: negate when negative. */
  function Abs(x: BigInt): (r: BigInt)
    requires x.Valid()
    ensures SameWidth(x, r)
    ensures AsInt(x) != -HalfModulus(|x.raw|) ==> AsInt(r) == (if AsInt(x) < 0 then -AsInt(x) else AsInt(x))
    ensures AsInt(x) == -HalfModulus(|x.raw|) ==> r == x && AsInt(r) < 0
  {
    NegateCases(x);
    AsIntRange(x);
    if IsNegative(x) then Negate(x) else x
  }
}
