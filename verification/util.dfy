/**
 * The bit helpers and the digit test of the shared utility header, over
 * `u8` cells and `u64` words.
 */
module Util {
  import opened Arith
  import opened Bits
  import opened Bytes

  /** `u64`: one machine word of the word-packed layout. */
  type Word = x: int | 0 <= x < 0x1_0000_0000_0000_0000

  const WordModulus: int := 0x1_0000_0000_0000_0000

  /** The bit width of a word, for the bit-by-bit operations of module Bits. */
  const WordBits: nat := 64

  /** `constexpr_is_digit`: a decimal digit character. */
  function IsDigit(ch: char): (r: bool)
    ensures r <==> ch in "0123456789"
  {
    '0' <= ch && ch <= '9'
  }

  /**
   * `most_significant_bit(u8)`: `u8(byte >> 7)`, the sign bit of a cell. A
   * right shift of an unsigned value by k is a division by 2^k.
   */
  function MostSignificantBit(b: Byte): (r: Byte)
    ensures r == 1 <==> b >= 128
    ensures r == 0 <==> b < 128
  {
    b / 128
  }

  /** `least_significant_bit(u8)`: `u8(byte & 1)`, the parity of the cell. */
  function LeastSignificantBit(b: Byte): (r: Byte)
    ensures r == b % 2
  {
    AndOne(b, 8);
    ByteAnd(b, 1)
  }

  /** `least_significant_bit(u64)`: `u8(wide & 1)`, the parity of the word. */
  function LeastSignificantBitWord(w: Word): (r: Byte)
    ensures r == w % 2
  {
    AndOne(w, WordBits);
    AndBits(w, 1, WordBits)
  }

  /**
   * `most_significant_bit(u64)` as written: `u8((wide >> 24) >> 7)`. The two
   * shifts move bit 31 to position 0 and the cast keeps eight bits, so the
   * result is bits 31 to 38 of the word, not bit 63.
   */
  function MostSignificantBitWord(w: Word): (r: Byte)
    ensures r == (w % 0x80_0000_0000) / 0x8000_0000
  {
    ModOfDiv(w, 0x8000_0000, 256);
    ((w / 0x100_0000) / 0x80) % 256
  }

  /** The helper as evidently intended: `u8(wide >> 63)`, the sign bit of the word. */
  function MostSignificantBitWordFixed(w: Word): (r: Byte)
    ensures r == 1 <==> w >= 0x8000_0000_0000_0000
    ensures r == 0 <==> w < 0x8000_0000_0000_0000
  {
    w / 0x8000_0000_0000_0000
  }

  /** `(x / d) % k` keeps the bits of x between d and d * k. */
  lemma ModOfDiv(x: nat, d: nat, k: nat)
    requires d > 0 && k > 0
    ensures (x / d) % k == (x % (d * k)) / d
  {
    var q := x / (d * k);
    var r := x % (d * k);
    assert x == q * (d * k) + r;
    assert x == (q * k) * d + r;
    DivModUnique(x, d, q * k + r / d, r % d) by {
      assert r == (r / d) * d + r % d;
      assert x == (q * k + r / d) * d + r % d;
    }
    assert r / d < k by {
      if r / d >= k {
        MulLe(d, k, r / d);
        assert false;
      }
    }
    DivModUnique(x / d, k, q, r / d);
  }

  /** The shipped helper does not return bit 63: two words that show it. */
  lemma MostSignificantBitWordIsNotBit63()
    ensures MostSignificantBitWord(0x8000_0000_0000_0000) == 0
    ensures MostSignificantBitWordFixed(0x8000_0000_0000_0000) == 1
    ensures MostSignificantBitWord(0x8000_0000) == 1
    ensures MostSignificantBitWordFixed(0x8000_0000) == 0
  {
  }
}
