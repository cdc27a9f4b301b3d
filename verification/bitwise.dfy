/**
 * The bitwise engine of `big_int`: `~`, `&`, `|`, `^` cell by cell,
 * `flip_sign_bit`, and the single-bit shifts `left_shift_once` and
 * `right_shift_once` with their one-bit carry between cells.
 */
module Bitwise {
  import opened Arith
  import opened Bytes
  import opened Util
  import opened BigInts

  /** Every cell complemented. */
  function ComplementCells(s: seq<Byte>): (r: seq<Byte>)
    ensures |r| == |s|
  {
    if |s| == 0 then [] else [Complement(s[0])] + ComplementCells(s[1..])
  }

  /** Complementing every cell takes each cell b to 255 - b and the value U to 2^(8n) - 1 - U. */
  lemma {:induction false} ComplementCellsValue(s: seq<Byte>)
    ensures forall i :: 0 <= i < |s| ==> ComplementCells(s)[i] == 255 - s[i]
    ensures Unsigned(ComplementCells(s)) == Pow256(|s|) - 1 - Unsigned(s)
  {
    if |s| > 0 {
      var rest := ComplementCells(s[1..]);
      ComplementCellsValue(s[1..]);
      assert ComplementCells(s)[1..] == rest;
      assert forall i :: 1 <= i < |s| ==> ComplementCells(s)[i] == rest[i - 1] && s[1..][i - 1] == s[i];
      ComplementStep(256, s[0], ComplementCells(s)[0], Unsigned(s[1..]), Unsigned(rest), Pow256(|s| - 1));
    }
  }

  /** `operator~`: every bit flipped. */
  function Not(x: BigInt): (r: BigInt)
    requires x.Valid()
    ensures SameWidth(x, r)
  {
    BigInt(ComplementCells(x.raw))
  }

  /** `~x` is `-x - 1`, and every cell of it is the complement of the cell of x. */
  lemma NotValue(x: BigInt)
    requires x.Valid()
    ensures forall i :: 0 <= i < |x.raw| ==> Not(x).raw[i] == 255 - x.raw[i]
    ensures AsInt(Not(x)) == -AsInt(x) - 1
  {
    ComplementCellsValue(x.raw);
    var r := Not(x);
    assert r.raw[|r.raw| - 1] >= 128 <==> x.raw[|x.raw| - 1] < 128;
  }

  /** `~~x == x`. */
  lemma NotInvolution(x: BigInt)
    requires x.Valid()
    ensures Not(Not(x)) == x
  {
    NotValue(x);
    NotValue(Not(x));
    AsIntInjective(Not(Not(x)), x);
  }

  /** `operator&` (and `&=` applied to a copy): cell-wise AND. */
  function And(a: BigInt, b: BigInt): (r: BigInt)
    requires SameWidth(a, b)
    ensures SameWidth(a, r)
  {
    BigInt(seq(|a.raw|, i requires 0 <= i < |a.raw| => ByteAnd(a.raw[i], b.raw[i])))
  }

  /** `operator|` (and `|=` applied to a copy): cell-wise OR. */
  function Or(a: BigInt, b: BigInt): (r: BigInt)
    requires SameWidth(a, b)
    ensures SameWidth(a, r)
  {
    BigInt(seq(|a.raw|, i requires 0 <= i < |a.raw| => ByteOr(a.raw[i], b.raw[i])))
  }

  /** `operator^` (and `^=` applied to a copy): cell-wise XOR. */
  function Xor(a: BigInt, b: BigInt): (r: BigInt)
    requires SameWidth(a, b)
    ensures SameWidth(a, r)
  {
    BigInt(seq(|a.raw|, i requires 0 <= i < |a.raw| => ByteXor(a.raw[i], b.raw[i])))
  }

  /** `x ^ x == 0`: XOR with itself clears every cell. */
  lemma XorSelfIsZero(x: BigInt)
    requires x.Valid()
    ensures Xor(x, x) == Zero(|x.raw|)
  {
    var r := Xor(x, x);
    forall i | 0 <= i < |x.raw|
      ensures r.raw[i] == 0
    {
      ByteXorSelf(x.raw[i]);
    }
    assert r.raw == Zero(|x.raw|).raw;
  }

  /** `(a ^ b) ^ b == a`: XOR undoes itself. */
  lemma XorCancels(a: BigInt, b: BigInt)
    requires SameWidth(a, b)
    ensures Xor(Xor(a, b), b) == a
  {
    var r := Xor(Xor(a, b), b);
    forall i | 0 <= i < |a.raw|
      ensures r.raw[i] == a.raw[i]
    {
      ByteXorCancels(a.raw[i], b.raw[i]);
    }
    assert r.raw == a.raw;
  }

  /** `x & ~x == 0` and `x | ~x == -1`. */
  lemma ComplementPartition(x: BigInt)
    requires x.Valid()
    ensures And(x, Not(x)) == Zero(|x.raw|)
    ensures AsInt(Or(x, Not(x))) == -1
  {
    var n := |x.raw|;
    var nx := Not(x);
    var a, o := And(x, nx), Or(x, nx);
    NotValue(x);
    forall i | 0 <= i < n
      ensures a.raw[i] == 0 && o.raw[i] == 255
    {
      ByteComplementDisjoint(x.raw[i]);
    }
    assert a.raw == Zero(n).raw;
    assert o.raw == Fill(255, n);
    FillFF(n);
  }

  /** De Morgan: `~(a & b) == ~a | ~b`. */
  lemma NotAndIsOrNot(a: BigInt, b: BigInt)
    requires SameWidth(a, b)
    ensures Not(And(a, b)) == Or(Not(a), Not(b))
  {
    var ab, na, nb := And(a, b), Not(a), Not(b);
    var l, r := Not(ab), Or(na, nb);
    NotValue(ab);
    NotValue(a);
    NotValue(b);
    forall i | 0 <= i < |a.raw|
      ensures l.raw[i] == r.raw[i]
    {
      assert l.raw[i] == Complement(ab.raw[i]);
      assert ab.raw[i] == ByteAnd(a.raw[i], b.raw[i]);
      assert r.raw[i] == ByteOr(na.raw[i], nb.raw[i]);
      assert na.raw[i] == Complement(a.raw[i]) && nb.raw[i] == Complement(b.raw[i]);
      ByteDeMorgan(a.raw[i], b.raw[i]);
    }
    assert l.raw == r.raw;
  }

  /** `&`, `|` and `^` are commutative. */
  lemma BitwiseCommutative(a: BigInt, b: BigInt)
    requires SameWidth(a, b)
    ensures And(a, b) == And(b, a)
    ensures Or(a, b) == Or(b, a)
    ensures Xor(a, b) == Xor(b, a)
  {
    forall i | 0 <= i < |a.raw|
      ensures And(a, b).raw[i] == And(b, a).raw[i]
      ensures Or(a, b).raw[i] == Or(b, a).raw[i]
      ensures Xor(a, b).raw[i] == Xor(b, a).raw[i]
    {
      ByteCommute(a.raw[i], b.raw[i]);
    }
    assert And(a, b).raw == And(b, a).raw;
    assert Or(a, b).raw == Or(b, a).raw;
    assert Xor(a, b).raw == Xor(b, a).raw;
  }

  /** `flip_sign_bit`: `raw[size - 1] ^= 1 << 7`. */
  function FlipSignBit(x: BigInt): (r: BigInt)
    requires x.Valid()
    ensures SameWidth(x, r)
    ensures r.raw[..|x.raw| - 1] == x.raw[..|x.raw| - 1]
    ensures r.raw[|x.raw| - 1] == (x.raw[|x.raw| - 1] as int + 128) % 256
  {
    var n := |x.raw|;
    var top := x.raw[n - 1];
    var r := BigInt(x.raw[..n - 1] + [FlipByteSign(top)]);
    assert r.raw[..n - 1] == x.raw[..n - 1];
    r
  }

  /** Flipping the top bit of the top digit: the value plus half the range, wrapped. */
  lemma FlipValue(lo: int, p: int, d: int, dMax: int, nd: int, total: int, flipped: int, half: int, range: int)
    requires 0 <= lo < p && 0 <= d < dMax && dMax % 2 == 0 && nd == (d + dMax / 2) % dMax
    requires total == lo + p * d && flipped == lo + p * nd
    requires half == p * (dMax / 2) && range == p * dMax
    ensures flipped == (total + half) % range
  {
    var h := dMax / 2;
    var s := lo + p * d + p * h;
    if d < h {
      DivModUnique(d + h, dMax, 0, d + h);
      FlipLow(lo, p, d + h, dMax);
      assert s == lo + p * (d + h);
      DivModUnique(s, p * dMax, 0, s);
    } else {
      DivModUnique(d + h, dMax, 1, d + h - dMax);
      FlipLow(lo, p, d + h - dMax, dMax);
      assert s == lo + p * (d + h - dMax) + p * dMax;
      DivModUnique(s, p * dMax, 1, lo + p * (d + h - dMax));
    }
  }

  /** A low part and a digit below dMax stay below p * dMax. */
  lemma FlipLow(lo: int, p: int, e: int, dMax: int)
    requires 0 <= lo < p && 0 <= e < dMax
    ensures 0 <= lo + p * e < p * dMax
  {
    MulLe(p, e, dMax - 1);
    assert p * (dMax - 1) == p * dMax - p;
  }

  /** `flipSignBit` of the byte layout adds half the range to the unsigned value. */
  lemma FlipSignBitValue(x: BigInt)
    requires x.Valid()
    ensures AsNat(FlipSignBit(x)) == (AsNat(x) + HalfModulus(|x.raw|)) % Pow256(|x.raw|)
  {
    var n, r := |x.raw|, FlipSignBit(x);
    var p := Pow256(n - 1);
    UnsignedLast(x.raw);
    UnsignedLast(r.raw);
    UnsignedBound(x.raw[..n - 1]);
    assert Pow256(n) == p * 256 && HalfModulus(n) == p * 128;
    FlipValue(Unsigned(x.raw[..n - 1]), p, x.raw[n - 1], 256, r.raw[n - 1],
              AsNat(x), AsNat(r), HalfModulus(n), Pow256(n));
  }

  /** Flipping the sign bit changes the sign. */
  lemma FlipSignBitSign(x: BigInt)
    requires x.Valid()
    ensures IsNegative(FlipSignBit(x)) != IsNegative(x)
  {
    var r := FlipSignBit(x);
    assert r.raw[|r.raw| - 1] >= 128 <==> x.raw[|x.raw| - 1] < 128;
    SignBitIsUpperHalf(x);
    SignBitIsUpperHalf(r);
  }

  // Single-bit shifts.

  /**
   * The loop of `left_shift_once` from the current cell on: each cell is
   * doubled (`u8(raw[i] << 1)`), receives the carried bit in bit 0, and hands
   * its old bit 7 to the next cell.
   */
  function ShiftLeftCells(s: seq<Byte>, carry: Byte): (r: seq<Byte>)
    ensures |r| == |s|
  {
    if |s| == 0 then []
    else
      var b := s[0];
      DoubleCell(b);
      [ByteOr((2 * (b as int)) % 256, carry)] + ShiftLeftCells(s[1..], MostSignificantBit(b))
  }

  /** The cells shifted left by one with a carried bit: U' = (2U + carry) mod 2^(8n). */
  lemma {:induction false} ShiftLeftCellsValue(s: seq<Byte>, carry: Byte)
    requires carry <= 1
    ensures Unsigned(ShiftLeftCells(s, carry)) == (2 * Unsigned(s) + carry) % Pow256(|s|)
  {
    if |s| > 0 {
      var b := s[0];
      var msb := MostSignificantBit(b);
      var shifted := (2 * (b as int)) % 256;
      var rest := ShiftLeftCells(s[1..], msb);
      ShiftLeftCellsValue(s[1..], msb);
      DoubleCell(b);
      ByteOrLow(shifted, carry);
      var cell := ByteOr(shifted, carry);
      assert ShiftLeftCells(s, carry) == [cell] + rest;
      assert ([cell] + rest)[1..] == rest;
      ShiftLeftStep(b, carry, cell, msb, Unsigned(s[1..]), Unsigned(rest), Pow256(|s| - 1));
    }
  }

  /** Doubling a cell: the low eight bits are even and bit 7 moves out. */
  lemma DoubleCell(b: Byte)
    ensures (2 * b) % 256 % 2 == 0
    ensures 2 * b == (2 * b) % 256 + 256 * (b / 128)
  {
    if b < 128 {
      DivModUnique(2 * b, 256, 0, 2 * b);
    } else {
      DivModUnique(2 * b, 256, 1, 2 * b - 256);
    }
  }

  /** One step of the left shift in numbers: the cell plus 256 times the shifted rest. */
  lemma ShiftLeftStep(b: Byte, carry: int, cell: int, msb: int, u: nat, rest: int, p: nat)
    requires 0 <= cell < 256 && p >= 1
    requires 2 * b + carry == cell + 256 * msb
    requires rest == (2 * u + msb) % p
    ensures cell + 256 * rest == (2 * (b + 256 * u) + carry) % (256 * p)
  {
    assert 2 * (b + 256 * u) + carry == cell + 256 * (msb + 2 * u);
    ModShift(cell, msb + 2 * u, 256, p);
  }

  /**
   * The loop of `right_shift_once`, from the most significant cell down:
   * each cell is halved and receives the carried bit in bit 7, handing its
   * old bit 0 to the cell below.
   */
  function ShiftRightCells(s: seq<Byte>, carry: Byte): (r: seq<Byte>)
    requires carry <= 1
    ensures |r| == |s|
  {
    if |s| == 0 then []
    else
      var n := |s|;
      var b := s[n - 1];
      ShiftRightCells(s[..n - 1], LeastSignificantBit(b)) + [ByteOr(b / 2, carry * 128)]
  }

  /** The cells shifted right by one with a carried bit: U' = (U + carry * 2^(8n)) / 2. */
  lemma ShiftRightCellsValue(s: seq<Byte>, carry: Byte)
    requires carry <= 1
    ensures Unsigned(ShiftRightCells(s, carry)) == (Unsigned(s) + carry * Pow256(|s|)) / 2
  {
    var out := if |s| == 0 then carry as int else s[0] % 2;
    ShiftRightCellsExact(s, carry);
    DivModUnique(Unsigned(s) + carry * Pow256(|s|), 2, Unsigned(ShiftRightCells(s, carry)), out);
  }

  /** The right shift loses one bit off the bottom: the low bit of cell 0, or the carry when there are no cells. */
  lemma {:induction false} ShiftRightCellsExact(s: seq<Byte>, carry: Byte)
    requires carry <= 1
    ensures 2 * Unsigned(ShiftRightCells(s, carry)) + (if |s| == 0 then carry as int else s[0] % 2)
         == Unsigned(s) + carry * Pow256(|s|)
  {
    if |s| > 0 {
      var n := |s|;
      var lsb := LeastSignificantBit(s[n - 1]);
      ShiftRightCellsExact(s[..n - 1], lsb);
      assert (if n - 1 == 0 then lsb as int else s[..n - 1][0] % 2) == s[0] % 2;
      ShiftRightLast(s, carry);
    }
  }

  /** The top cell of the right shift takes the carry in and passes its low bit down. */
  lemma ShiftRightLast(s: seq<Byte>, carry: Byte)
    requires |s| >= 1 && carry <= 1
    requires var n := |s|; var lsb := LeastSignificantBit(s[n - 1]);
      2 * Unsigned(ShiftRightCells(s[..n - 1], lsb)) + s[0] % 2 == Unsigned(s[..n - 1]) + lsb * Pow256(n - 1)
    ensures 2 * Unsigned(ShiftRightCells(s, carry)) + s[0] % 2 == Unsigned(s) + carry * Pow256(|s|)
  {
    var n := |s|;
    var b := s[n - 1];
    var low := ShiftRightCells(s[..n - 1], LeastSignificantBit(b));
    ByteOrHigh(b / 2, carry);
    var cell := ByteOr(b / 2, carry * 128);
    assert ShiftRightCells(s, carry) == low + [cell];
    UnsignedAppend(low, [cell]);
    assert Unsigned([cell]) == cell;
    UnsignedLast(s);
    ShiftRightStep(Unsigned(low), s[0] % 2, Unsigned(s[..n - 1]), b, LeastSignificantBit(b), carry, cell, Pow256(n - 1),
                   Unsigned(low + [cell]), Unsigned(s), Pow256(n));
  }

  /** One step of the right shift in numbers: the top cell b / 2 + 128 carry sits above the shifted lower cells. */
  lemma ShiftRightStep(low: int, out: int, pre: int, b: Byte, lsb: int, carry: int, cell: int, p: int, u: int, sv: int, pn: int)
    requires lsb == b % 2 && 2 * low + out == pre + lsb * p
    requires cell == b / 2 + carry * 128 && u == low + p * cell && sv == pre + p * b && pn == 256 * p
    ensures 2 * u + out == sv + carry * pn
  {
    assert p * b == lsb * p + 2 * (p * (b / 2)) by {
      assert b == b % 2 + 2 * (b / 2);
    }
  }

  /** `left_shift_once`: every cell moves up one bit, the top bit is dropped. */
  function ShiftLeftOnce(x: BigInt): (r: BigInt)
    requires x.Valid()
    ensures SameWidth(x, r)
  {
    BigInt(ShiftLeftCells(x.raw, 0))
  }

  /** `left_shift_once` doubles the unsigned value modulo 2^(8n). */
  lemma ShiftLeftOnceValue(x: BigInt)
    requires x.Valid()
    ensures AsNat(ShiftLeftOnce(x)) == (2 * AsNat(x)) % Pow256(|x.raw|)
  {
    ShiftLeftCellsValue(x.raw, 0);
  }

  /** `right_shift_once`: every cell moves down one bit, the sign bit becomes 0. */
  function ShiftRightOnce(x: BigInt): (r: BigInt)
    requires x.Valid()
    ensures SameWidth(x, r)
  {
    BigInt(ShiftRightCells(x.raw, 0))
  }

  /** `right_shift_once` halves the unsigned value: a logical shift. */
  lemma ShiftRightOnceValue(x: BigInt)
    requires x.Valid()
    ensures AsNat(ShiftRightOnce(x)) == AsNat(x) / 2
  {
    ShiftRightCellsValue(x.raw, 0);
  }

  /** After a logical right shift the sign bit is 0. */
  lemma ShiftRightOnceClearsSign(x: BigInt)
    requires x.Valid()
    ensures !IsNegative(ShiftRightOnce(x))
  {
    var r := ShiftRightOnce(x);
    ShiftRightOnceValue(x);
    AsNatBound(x);
    SignBitIsUpperHalf(r);
  }
}
