/**
 * Bitwise operations on the low k bits of a natural number, defined one bit
 * at a time (bit 0 is `a % 2`, the rest is `a / 2`). A `u8` operation is the
 * k = 8 instance and a `u64` operation the k = 64 instance.
 */
module Bits {
  import opened Arith

  function Pow2(k: nat): (p: nat)
    ensures p >= 1
  {
    if k == 0 then 1 else 2 * Pow2(k - 1)
  }

  /** The widths used by `u8`: bit 7 and the modulus 2^8. */
  lemma Pow2Byte()
    ensures Pow2(7) == 0x80 && Pow2(8) == 0x100
  {
    assert Pow2(2) == 4;
    assert Pow2(4) == 16;
    assert Pow2(6) == 64;
    assert Pow2(8) == 256;
  }

  /** The widths used by `u64`: bit 63 and the modulus 2^64. */
  lemma Pow2Word()
    ensures Pow2(63) == 0x8000_0000_0000_0000 && Pow2(64) == 0x1_0000_0000_0000_0000
  {
    Pow2HalfWord();
    Pow2Add(32, 32);
    assert Pow2(64) == 2 * Pow2(63);
  }

  lemma Pow2HalfWord()
    ensures Pow2(32) == 0x1_0000_0000
  {
    Pow2Byte();
    Pow2Add(8, 8);
    Pow2Add(16, 16);
  }

  lemma {:induction false} Pow2Add(m: nat, n: nat)
    ensures Pow2(m + n) == Pow2(m) * Pow2(n)
  {
    if m > 0 {
      Pow2Add(m - 1, n);
      assert Pow2(m + n) == 2 * Pow2(m - 1 + n);
    }
  }

  /** Bit 0 and the remaining bits put back together. */
  lemma Reassemble(a: nat, k: nat)
    requires k >= 1
    ensures a % Pow2(k) == a % 2 + 2 * ((a / 2) % Pow2(k - 1))
  {
    ModShift(a % 2, a / 2, 2, Pow2(k - 1));
  }

  /** A number built from a low bit and higher bits splits back into them. */
  lemma Split(lo: int, hi: nat)
    requires 0 <= lo <= 1
    ensures (lo + 2 * hi) % 2 == lo && (lo + 2 * hi) / 2 == hi
  {
  }

  /** `~a` on k bits. */
  function NotBits(a: nat, k: nat): (r: nat)
    ensures r < Pow2(k)
  {
    if k == 0 then 0 else (1 - a % 2) + 2 * NotBits(a / 2, k - 1)
  }

  /** Flipping all k bits subtracts the low k bits from 2^k - 1. */
  lemma {:induction false} NotBitsValue(a: nat, k: nat)
    ensures NotBits(a, k) == Pow2(k) - 1 - a % Pow2(k)
  {
    if k > 0 {
      NotBitsValue(a / 2, k - 1);
      Reassemble(a, k);
    }
  }

  /** `a & b` on k bits. */
  function AndBits(a: nat, b: nat, k: nat): (r: nat)
    ensures r < Pow2(k)
  {
    if k == 0 then 0
    else (if a % 2 == 1 && b % 2 == 1 then 1 else 0) + 2 * AndBits(a / 2, b / 2, k - 1)
  }

  /** `a | b` on k bits. */
  function OrBits(a: nat, b: nat, k: nat): (r: nat)
    ensures r < Pow2(k)
  {
    if k == 0 then 0
    else (if a % 2 == 1 || b % 2 == 1 then 1 else 0) + 2 * OrBits(a / 2, b / 2, k - 1)
  }

  /** `a ^ b` on k bits. */
  function XorBits(a: nat, b: nat, k: nat): (r: nat)
    ensures r < Pow2(k)
  {
    if k == 0 then 0
    else (if a % 2 != b % 2 then 1 else 0) + 2 * XorBits(a / 2, b / 2, k - 1)
  }

  lemma {:induction false} BitsCommute(a: nat, b: nat, k: nat)
    ensures AndBits(a, b, k) == AndBits(b, a, k)
    ensures OrBits(a, b, k) == OrBits(b, a, k)
    ensures XorBits(a, b, k) == XorBits(b, a, k)
  {
    if k > 0 {
      BitsCommute(a / 2, b / 2, k - 1);
    }
  }

  /** `(a ^ b) ^ b` restores the low k bits of a. */
  lemma {:induction false} XorCancels(a: nat, b: nat, k: nat)
    ensures XorBits(XorBits(a, b, k), b, k) == a % Pow2(k)
  {
    if k > 0 {
      var lo := if a % 2 != b % 2 then 1 else 0;
      Split(lo, XorBits(a / 2, b / 2, k - 1));
      XorCancels(a / 2, b / 2, k - 1);
      Reassemble(a, k);
    }
  }

  lemma {:induction false} XorSelf(a: nat, k: nat)
    ensures XorBits(a, a, k) == 0
  {
    if k > 0 {
      XorSelf(a / 2, k - 1);
    }
  }

  /** A value and its complement share no bit and together cover all k bits. */
  lemma {:induction false} ComplementDisjoint(a: nat, k: nat)
    ensures AndBits(a, NotBits(a, k), k) == 0
    ensures OrBits(a, NotBits(a, k), k) == Pow2(k) - 1
  {
    if k > 0 {
      var lo := 1 - a % 2;
      Split(lo, NotBits(a / 2, k - 1));
      ComplementDisjoint(a / 2, k - 1);
    }
  }

  /** De Morgan: `~(a & b) == ~a | ~b`. */
  lemma {:induction false} DeMorgan(a: nat, b: nat, k: nat)
    ensures NotBits(AndBits(a, b, k), k) == OrBits(NotBits(a, k), NotBits(b, k), k)
  {
    if k > 0 {
      DeMorgan(a / 2, b / 2, k - 1);
      DeMorganStep(a, b, k);
    }
  }

  /** De Morgan on bit 0, given De Morgan on the remaining bits. */
  lemma DeMorganStep(a: nat, b: nat, k: nat)
    requires k > 0
    requires NotBits(AndBits(a / 2, b / 2, k - 1), k - 1)
             == OrBits(NotBits(a / 2, k - 1), NotBits(b / 2, k - 1), k - 1)
    ensures NotBits(AndBits(a, b, k), k) == OrBits(NotBits(a, k), NotBits(b, k), k)
  {
    var lo := if a % 2 == 1 && b % 2 == 1 then 1 else 0;
    var hi := AndBits(a / 2, b / 2, k - 1);
    var na, nb := NotBits(a / 2, k - 1), NotBits(b / 2, k - 1);
    var la, lb := 1 - a % 2, 1 - b % 2;
    NotBitsStep(AndBits(a, b, k), lo, hi, k);
    OrBitsStep(NotBits(a, k), la, na, NotBits(b, k), lb, nb, k);
    assert 1 - lo == if la == 1 || lb == 1 then 1 else 0;
  }

  /** `~` on a number given as its bit 0 and the rest. */
  lemma NotBitsStep(x: nat, lo: int, hi: nat, k: nat)
    requires 0 <= lo <= 1 && k > 0 && x == lo + 2 * hi
    ensures NotBits(x, k) == (1 - lo) + 2 * NotBits(hi, k - 1)
  {
    Split(lo, hi);
  }

  /** `|` on two numbers given as their bit 0 and the rest. */
  lemma OrBitsStep(x: nat, lo1: int, hi1: nat, y: nat, lo2: int, hi2: nat, k: nat)
    requires 0 <= lo1 <= 1 && 0 <= lo2 <= 1 && k > 0
    requires x == lo1 + 2 * hi1 && y == lo2 + 2 * hi2
    ensures OrBits(x, y, k) == (if lo1 == 1 || lo2 == 1 then 1 else 0) + 2 * OrBits(hi1, hi2, k - 1)
  {
    Split(lo1, hi1);
    Split(lo2, hi2);
  }

  /** OR and XOR with 0 keep the low k bits; AND with 0 clears them. */
  lemma {:induction false} WithZero(a: nat, k: nat)
    ensures OrBits(a, 0, k) == a % Pow2(k)
    ensures XorBits(a, 0, k) == a % Pow2(k)
    ensures AndBits(a, 0, k) == 0
  {
    if k > 0 {
      WithZero(a / 2, k - 1);
      Reassemble(a, k);
    }
  }

  /** `a & 1` is the parity of a. */
  lemma AndOne(a: nat, k: nat)
    requires k >= 1
    ensures AndBits(a, 1, k) == a % 2
  {
    WithZero(a / 2, k - 1);
  }

  /** AND with a mask of the low j bits keeps those bits: `a & (2^j - 1)`. */
  lemma {:induction false} AndLowMask(a: nat, j: nat, k: nat)
    requires j <= k
    ensures AndBits(a, Pow2(j) - 1, k) == a % Pow2(j)
  {
    if j == 0 {
      WithZero(a, k);
    } else {
      AndLowMask(a / 2, j - 1, k - 1);
      AndLowMaskStep(a, j, k);
    }
  }

  /** The mask of the low j bits is odd and its upper bits mask the low j - 1 bits of a / 2. */
  lemma AndLowMaskStep(a: nat, j: nat, k: nat)
    requires 1 <= j <= k
    requires AndBits(a / 2, Pow2(j - 1) - 1, k - 1) == (a / 2) % Pow2(j - 1)
    ensures AndBits(a, Pow2(j) - 1, k) == a % Pow2(j)
  {
    var m := Pow2(j - 1);
    var mask := Pow2(j) - 1;
    assert mask == 1 + 2 * (m - 1);
    Split(1, m - 1);
    assert AndBits(a, mask, k) == a % 2 + 2 * AndBits(a / 2, m - 1, k - 1);
    Reassemble(a, j);
  }

  /** OR with 0 on the left keeps the right operand. */
  lemma OrZeroLeft(a: nat, b: nat, k: nat)
    requires a == 0 && b < Pow2(k)
    ensures OrBits(a, b, k) == b
  {
    BitsCommute(a, b, k);
    WithZero(b, k);
  }

  /** OR of an even number with a single low bit is a sum. */
  lemma OrLowBit(a: nat, c: nat, k: nat)
    requires k >= 1 && a < Pow2(k) && a % 2 == 0 && c <= 1
    ensures OrBits(a, c, k) == a + c
  {
    assert c / 2 == 0 && c % 2 == c;
    WithZero(a / 2, k - 1);
    assert a / 2 < Pow2(k - 1);
    DivModUnique(a / 2, Pow2(k - 1), 0, a / 2);
  }

  /** OR / XOR with bit k-1 on a number below 2^(k-1) is a sum. */
  lemma {:induction false} TopBit(a: nat, c: nat, k: nat)
    requires k >= 1 && a < Pow2(k - 1) && c <= 1
    ensures OrBits(a, c * Pow2(k - 1), k) == a + c * Pow2(k - 1)
    ensures XorBits(a, c * Pow2(k - 1), k) == a + c * Pow2(k - 1)
  {
    if k == 1 {
      assert a == 0;
    } else {
      assert (c * Pow2(k - 1)) % 2 == 0 && (c * Pow2(k - 1)) / 2 == c * Pow2(k - 2);
      TopBit(a / 2, c, k - 1);
    }
  }

  /** XOR with bit k-1 flips that bit: adds 2^(k-1) modulo 2^k. */
  lemma {:induction false} XorTopBit(a: nat, k: nat)
    requires k >= 1 && a < Pow2(k)
    ensures XorBits(a, Pow2(k - 1), k) == (a + Pow2(k - 1)) % Pow2(k)
  {
    if k == 1 {
      assert Pow2(0) == 1 && Pow2(1) == 2;
      XorLowBit(a);
    } else {
      HalfBelow(a, Pow2(k - 1));
      XorTopBit(a / 2, k - 1);
      XorTopBitStep(a, k);
    }
  }

  /** The one-bit case: XOR with 1 flips a single bit. */
  lemma XorLowBit(a: nat)
    requires a < 2
    ensures XorBits(a, 1, 1) == (a + 1) % 2
  {
    assert XorBits(a, 1, 1) == (if a % 2 != 1 then 1 else 0) + 2 * XorBits(a / 2, 0, 0);
  }

  lemma HalfBelow(a: nat, p: nat)
    requires a < 2 * p
    ensures a / 2 < p
  {
  }

  /** Flipping bit k-1 of a, given flipping bit k-2 of a / 2. */
  lemma XorTopBitStep(a: nat, k: nat)
    requires k >= 2 && a < Pow2(k)
    requires XorBits(a / 2, Pow2(k - 2), k - 1) == (a / 2 + Pow2(k - 2)) % Pow2(k - 1)
    ensures XorBits(a, Pow2(k - 1), k) == (a + Pow2(k - 1)) % Pow2(k)
  {
    var h, p := a / 2, Pow2(k - 2);
    assert Pow2(k - 1) == 2 * p && Pow2(k) == 4 * p;
    Split(0, p);
    assert XorBits(a, 2 * p, k) == a % 2 + 2 * XorBits(h, p, k - 1);
    FlipStep(a % 2, h, p);
  }

  /** The arithmetic of XorTopBitStep: a = lo + 2h with h < 2p. */
  lemma FlipStep(lo: int, h: int, p: int)
    requires 0 <= lo <= 1 && 0 <= h < 2 * p
    ensures lo + 2 * ((h + p) % (2 * p)) == (lo + 2 * h + 2 * p) % (4 * p)
  {
    if h < p {
      DivModUnique(h + p, 2 * p, 0, h + p);
      DivModUnique(lo + 2 * h + 2 * p, 4 * p, 0, lo + 2 * h + 2 * p);
    } else {
      DivModUnique(h + p, 2 * p, 1, h - p);
      DivModUnique(lo + 2 * h + 2 * p, 4 * p, 1, lo + 2 * h - 2 * p);
    }
  }
}
