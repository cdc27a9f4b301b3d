/**
 * The storage cell of `big_int`: an unsigned 8-bit byte, sequences of bytes
 * read little-endian (cell 0 least significant) as natural numbers, and the
 * cell-wise bit operations of `u8`.
 */
module Bytes {
  import opened Arith
  import opened Bits

  /** `u8`: one storage cell. */
  type Byte = x: int | 0 <= x < 256

  /** 256^n, the number of distinct n-byte patterns. */
  function Pow256(n: nat): (p: nat)
    ensures p >= 1
  {
    if n == 0 then 1 else 256 * Pow256(n - 1)
  }

  lemma {:induction false} Pow256Add(m: nat, n: nat)
    ensures Pow256(m + n) == Pow256(m) * Pow256(n)
  {
    if m > 0 {
      Pow256Add(m - 1, n);
      assert Pow256(m + n) == 256 * Pow256(m - 1 + n);
    }
  }

  /** The unsigned value of a little-endian byte sequence. */
  function Unsigned(s: seq<Byte>): nat
  {
    if |s| == 0 then 0 else s[0] + 256 * Unsigned(s[1..])
  }

  lemma {:induction false} UnsignedBound(s: seq<Byte>)
    ensures Unsigned(s) < Pow256(|s|)
  {
    if |s| > 0 {
      UnsignedBound(s[1..]);
    }
  }

  lemma {:induction false} UnsignedAppend(a: seq<Byte>, b: seq<Byte>)
    ensures Unsigned(a + b) == Unsigned(a) + Pow256(|a|) * Unsigned(b)
  {
    if |a| > 0 {
      assert (a + b)[1..] == a[1..] + b;
      UnsignedAppend(a[1..], b);
      AppendStep(a[0], Unsigned(a[1..]), Unsigned(b), Pow256(|a| - 1), Unsigned(a[1..] + b));
    } else {
      assert a + b == b;
    }
  }

  /** One cell in front of an appended pair, in numbers. */
  lemma AppendStep(a0: int, ua: int, ub: int, p: int, rest: int)
    requires rest == ua + p * ub
    ensures a0 + 256 * rest == (a0 + 256 * ua) + (256 * p) * ub
  {
    assert 256 * (p * ub) == (256 * p) * ub;
  }

  /** The prefix of length i + 1 adds cell i with weight 256^i. */
  lemma UnsignedSnoc(s: seq<Byte>, i: nat)
    requires i < |s|
    ensures Unsigned(s[..i + 1]) == Unsigned(s[..i]) + Pow256(i) * s[i]
  {
    assert s[..i + 1] == s[..i] + [s[i]];
    UnsignedAppend(s[..i], [s[i]]);
    assert Unsigned([s[i]]) == s[i];
  }

  /** The most significant cell carries weight 256^(n-1). */
  lemma UnsignedLast(s: seq<Byte>)
    requires |s| >= 1
    ensures Unsigned(s) == Unsigned(s[..|s| - 1]) + Pow256(|s| - 1) * s[|s| - 1]
  {
    UnsignedSnoc(s, |s| - 1);
    assert s[..|s|] == s;
  }

  /** The value of a byte sequence of known length determines its cells. */
  lemma {:induction false} UnsignedInjective(a: seq<Byte>, b: seq<Byte>)
    requires |a| == |b| && Unsigned(a) == Unsigned(b)
    ensures a == b
  {
    if |a| > 0 {
      DivModUnique(Unsigned(a), 256, Unsigned(a[1..]), a[0]);
      DivModUnique(Unsigned(b), 256, Unsigned(b[1..]), b[0]);
      UnsignedInjective(a[1..], b[1..]);
      assert a == [a[0]] + a[1..];
      assert b == [b[0]] + b[1..];
    }
  }

  lemma {:induction false} UnsignedZero(s: seq<Byte>)
    ensures Unsigned(s) == 0 <==> forall i :: 0 <= i < |s| ==> s[i] == 0
  {
    if |s| > 0 {
      UnsignedZero(s[1..]);
      assert (forall i :: 0 <= i < |s| ==> s[i] == 0)
         <==> s[0] == 0 && (forall i :: 0 <= i < |s[1..]| ==> s[1..][i] == 0);
    }
  }

  /** The n-byte little-endian encoding of an unsigned value below 256^n. */
  function ToBytes(u: nat, n: nat): (r: seq<Byte>)
    requires u < Pow256(n)
    ensures |r| == n
  {
    if n == 0 then []
    else
      assert u / 256 < Pow256(n - 1);
      [u % 256] + ToBytes(u / 256, n - 1)
  }

  /** The encoding reads back as the number encoded. */
  lemma {:induction false} ToBytesValue(u: nat, n: nat)
    requires u < Pow256(n)
    ensures Unsigned(ToBytes(u, n)) == u
  {
    if n > 0 {
      var r := ToBytes(u, n);
      ToBytesValue(u / 256, n - 1);
      assert r[1..] == ToBytes(u / 256, n - 1);
    }
  }

  /** A byte sequence with every cell equal to `b`, n times. */
  function Fill(b: Byte, n: nat): (r: seq<Byte>)
    ensures |r| == n && forall i :: 0 <= i < n ==> r[i] == b
  {
    seq(n, _ => b)
  }

  /** Filling with 0xFF gives the largest value: 256^n - 1. */
  lemma {:induction false} FillFF(n: nat)
    ensures Unsigned(Fill(255, n)) == Pow256(n) - 1
  {
    if n > 0 {
      FillFF(n - 1);
      assert Fill(255, n)[1..] == Fill(255, n - 1);
    }
  }

  lemma {:induction false} FillZero(n: nat)
    ensures Unsigned(Fill(0, n)) == 0
  {
    UnsignedZero(Fill(0, n));
  }

  /**
   * The reverse scan of `operator<`: the first differing cell below index k,
   * looked at from the most significant end, decides; no difference means
   * "not less".
   */
  function LexLess(a: seq<int>, b: seq<int>, k: nat): bool
    requires k <= |a| && k <= |b|
  {
    if k == 0 then false
    else if a[k - 1] != b[k - 1] then a[k - 1] < b[k - 1]
    else LexLess(a, b, k - 1)
  }

  /** On byte sequences the reverse scan is the order of unsigned values. */
  lemma {:induction false} LexLessUnsigned(a: seq<Byte>, b: seq<Byte>, k: nat)
    requires k <= |a| && k <= |b|
    ensures LexLess(a, b, k) <==> Unsigned(a[..k]) < Unsigned(b[..k])
  {
    if k > 0 {
      UnsignedSnoc(a, k - 1);
      UnsignedSnoc(b, k - 1);
      UnsignedBound(a[..k - 1]);
      UnsignedBound(b[..k - 1]);
      var p := Pow256(k - 1);
      if a[k - 1] < b[k - 1] {
        DigitDecides(Unsigned(a[..k - 1]), Unsigned(b[..k - 1]), p, a[k - 1], b[k - 1]);
      } else if b[k - 1] < a[k - 1] {
        DigitDecides(Unsigned(b[..k - 1]), Unsigned(a[..k - 1]), p, b[k - 1], a[k - 1]);
      } else {
        LexLessUnsigned(a, b, k - 1);
      }
    }
  }

  // Cell-wise bit operations of u8.

  /** `u8(~b)`: every bit of the cell flipped, which is 255 - b. */
  function Complement(b: Byte): (r: Byte)
    ensures r == 255 - b
  {
    Pow2Byte();
    NotBitsValue(b, 8);
    assert b % 256 == b;
    NotBits(b, 8)
  }

  /** `u8(a & b)`. */
  function ByteAnd(a: Byte, b: Byte): Byte
  {
    AndBits(a, b, 8)
  }

  /** `u8(a | b)`. */
  function ByteOr(a: Byte, b: Byte): Byte
  {
    OrBits(a, b, 8)
  }

  /** `u8(a ^ b)`. */
  function ByteXor(a: Byte, b: Byte): Byte
  {
    XorBits(a, b, 8)
  }

  // Per-cell laws of the u8 operations.

  lemma ByteXorSelf(a: Byte)
    ensures ByteXor(a, a) == 0
  {
    XorSelf(a, 8);
  }

  lemma ByteXorCancels(a: Byte, b: Byte)
    ensures ByteXor(ByteXor(a, b), b) == a
  {
    XorCancels(a, b, 8);
    Pow2Byte();
  }

  lemma ByteCommute(a: Byte, b: Byte)
    ensures ByteAnd(a, b) == ByteAnd(b, a)
    ensures ByteOr(a, b) == ByteOr(b, a)
    ensures ByteXor(a, b) == ByteXor(b, a)
  {
    BitsCommute(a, b, 8);
  }

  /** `b & ~b == 0` and `b | ~b == 0xFF`. */
  lemma ByteComplementDisjoint(a: Byte)
    ensures ByteAnd(a, Complement(a)) == 0
    ensures ByteOr(a, Complement(a)) == 255
  {
    ComplementDisjoint(a, 8);
    Pow2Byte();
  }

  lemma ByteDeMorgan(a: Byte, b: Byte)
    ensures Complement(ByteAnd(a, b)) == ByteOr(Complement(a), Complement(b))
  {
    DeMorgan(a, b, 8);
  }

  /** `b ^ 0x80` flips bit 7: adds 128 modulo 256. */
  lemma ByteXorTop(a: Byte)
    ensures ByteXor(a, 0x80) == (a + 0x80) % 256
  {
    Pow2Byte();
    XorTopBit(a, 8);
  }

  /** `b ^ (1 << 7)`: bit 7 flipped, that is, 128 added modulo 256. */
  function FlipByteSign(b: Byte): (r: Byte)
    ensures r == (b as int + 0x80) % 256
  {
    ByteXorTop(b);
    ByteXor(b, 0x80)
  }

  /** `b & 0x7F` clears bit 7. */
  lemma ByteAndLow(a: Byte)
    ensures ByteAnd(a, 0x7F) == a % 0x80
  {
    Pow2Byte();
    AndLowMask(a, 7, 8);
  }

  /** `b | c` on a cell whose low bit is clear, with a one-bit c, is a sum. */
  lemma ByteOrLow(b: Byte, c: Byte)
    requires b % 2 == 0 && c <= 1
    ensures ByteOr(b, c) == b + c
  {
    Pow2Byte();
    OrLowBit(b, c, 8);
  }

  /** `b | (c << 7)` on a cell below 128, with a one-bit c, is a sum. */
  lemma ByteOrHigh(b: Byte, c: Byte)
    requires b < 0x80 && c <= 1
    ensures ByteOr(b, c * 0x80) == b + c * 0x80
  {
    Pow2Byte();
    TopBit(b, c, 8);
  }
}
