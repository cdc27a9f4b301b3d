/**
 * The single-bit shifts of the word-packed draft (`left_shift_once`,
 * `right_shift_once` of `big_int64.hpp`) and the shift operators that repeat
 * them. Each is given as written and as evidently intended; the intended
 * versions are proved to be the byte layout's shifts through `Abstract`.
 *
 * As written, the left shift hands on `most_significant_bit(u64)`, which is
 * bits 31 to 38 of the word rather than bit 63. The right shift scans the
 * words before the tail, although the tail cells are the more significant
 * ones, and puts a word's carried bit at bit 7 (`carry << 7`) instead of bit 63.
 */
module WordShift {
  import opened Arith
  import opened Bits
  import opened Bytes
  import opened Util
  import opened BigInts
  import opened Bitwise
  import opened Counting
  import opened Shift
  import opened WordLayout

  /** `u64(a | b)`. */
  function WordOr(a: Word, b: Word): Word
  {
    Pow2Word();
    OrBits(a, b, WordBits)
  }

  /** `w <<= 1` on a word: doubled, bit 63 dropped; the dropped bit is the word's sign bit. */
  function DoubleWord(w: Word): (r: Word)
    ensures r % 2 == 0
    ensures 2 * w == r + WordModulus * MostSignificantBitWordFixed(w)
  {
    if w < 0x8000_0000_0000_0000 then
      2 * w
    else
      2 * w - WordModulus
  }

  /** `|= carry` on an even word with a one-bit carry is a sum. */
  lemma WordOrLow(a: Word, c: int)
    requires a % 2 == 0 && 0 <= c <= 1
    ensures WordOr(a, c) == a + c
  {
    Pow2Word();
    OrLowBit(a, c, WordBits);
  }

  /** `|= carry << 63` on a word below 2^63 with a one-bit carry is a sum. */
  lemma WordOrHigh(a: Word, c: int)
    requires a < 0x8000_0000_0000_0000 && 0 <= c <= 1
    ensures WordOr(a, c * 0x8000_0000_0000_0000) == a + c * 0x8000_0000_0000_0000
  {
    Pow2Word();
    TopBit(a, c, WordBits);
  }

  // Left shift.

  /**
   * The word loop of `left_shift_once` as written, word 0 first: each word is
   * doubled and ORed with the carry, and hands on `most_significant_bit(u64)`
   * of its old value. Also returns the carry left after the last word.
   */
  function ShiftLeftWordsAsWritten(ws: seq<Word>, carry: Byte): (r: (seq<Word>, Byte))
    ensures |r.0| == |ws|
  {
    if |ws| == 0 then ([], carry)
    else
      var rest := ShiftLeftWordsAsWritten(ws[1..], MostSignificantBitWord(ws[0]));
      ([WordOr(DoubleWord(ws[0]), carry)] + rest.0, rest.1)
  }

  /** `left_shift_once` as written: the words from a zero carry, then the tail cells from the words' carry. */
  function ShiftLeft64AsWritten(x: WordInt): (r: WordInt)
    requires x.Valid()
    ensures SameShape(x, r)
  {
    var w := ShiftLeftWordsAsWritten(x.words, 0);
    WordInt(w.0, ShiftLeftCells(x.tail, w.1))
  }

  /** The word loop with the carry taken from bit 63. */
  function ShiftLeftWords(ws: seq<Word>, carry: Byte): (r: (seq<Word>, Byte))
    requires carry <= 1
    ensures |r.0| == |ws| && r.1 <= 1
  {
    if |ws| == 0 then ([], carry)
    else
      var rest := ShiftLeftWords(ws[1..], MostSignificantBitWordFixed(ws[0]));
      ([WordOr(DoubleWord(ws[0]), carry)] + rest.0, rest.1)
  }

  /** The corrected `left_shift_once`: the byte layout's left shift by one. */
  function ShiftLeft64(x: WordInt): (r: WordInt)
    requires x.Valid()
    ensures SameShape(x, r)
    ensures Abstract(r) == ShiftLeftOnce(Abstract(x))
  {
    var w := ShiftLeftWords(x.words, 0);
    var r := WordInt(w.0, ShiftLeftCells(x.tail, w.1));
    ShiftLeft64Refines(x, r);
    r
  }

  /** The words doubled plus the carry in, with the carry out weighing 2^(64k). */
  lemma {:induction false} ShiftLeftWordsValue(ws: seq<Word>, carry: Byte)
    requires carry <= 1
    ensures WordsValue(ShiftLeftWords(ws, carry).0) + Pow256(8 * |ws|) * ShiftLeftWords(ws, carry).1
         == 2 * WordsValue(ws) + carry
  {
    var r := ShiftLeftWords(ws, carry);
    if |ws| == 0 {
      assert WordsValue([]) == 0;
    } else {
      var msb := MostSignificantBitWordFixed(ws[0]);
      var rest := ShiftLeftWords(ws[1..], msb);
      ShiftLeftWordsValue(ws[1..], msb);
      assert r.0[1..] == rest.0 && r.1 == rest.1;
      WordOrLow(DoubleWord(ws[0]), carry);
      WordsCons(ws);
      WordsCons(r.0);
      WordWeight(|ws|);
      DoubleStep(ws[0], carry, r.0[0], msb, WordsValue(ws[1..]), WordsValue(rest.0), rest.1, Pow256(8 * (|ws| - 1)));
    }
  }

  /** One word of the left shift, in numbers. */
  lemma DoubleStep(w: int, c: int, cell: int, msb: int, u: int, rest: int, cout: int, p: int)
    requires 2 * w + c == cell + WordModulus * msb
    requires rest + p * cout == 2 * u + msb
    ensures (cell + WordModulus * rest) + (WordModulus * p) * cout == 2 * (w + WordModulus * u) + c
  {
    assert WordModulus * (rest + p * cout) == WordModulus * (2 * u + msb);
  }

  lemma ShiftLeft64Refines(x: WordInt, r: WordInt)
    requires x.Valid()
    requires r.words == ShiftLeftWords(x.words, 0).0
    requires r.tail == ShiftLeftCells(x.tail, ShiftLeftWords(x.words, 0).1)
    ensures Abstract(r) == ShiftLeftOnce(Abstract(x))
  {
    var A, S := Abstract(x), ShiftLeftOnce(Abstract(x));
    ShiftLeft64Value(x, r);
    ShiftLeftOnceValue(A);
    AsNatInjective(Abstract(r), S);
  }

  /** The reading of the shifted layout is twice the reading, wrapped to the size. */
  lemma ShiftLeft64Value(x: WordInt, r: WordInt)
    requires x.Valid()
    requires r.words == ShiftLeftWords(x.words, 0).0
    requires r.tail == ShiftLeftCells(x.tail, ShiftLeftWords(x.words, 0).1)
    ensures r.Valid() && AsNat(Abstract(r)) == (2 * AsNat(Abstract(x))) % Pow256(x.Size())
  {
    var c := ShiftLeftWords(x.words, 0).1;
    assert r.Valid();
    AbstractValue(r);
    AbstractValue(x);
    var k := TailDoubled(x.tail, r.tail, c);
    ShiftLeftWordsValue(x.words, 0);
    WordsBound(r.words);
    UnsignedBound(r.tail);
    DoubleCombine(WordsValue(x.words), Unsigned(x.tail), WordsValue(r.words), Unsigned(r.tail), c,
                  Pow256(8 * |x.words|), Pow256(|x.tail|), k,
                  AsNat(Abstract(x)), AsNat(Abstract(r)), Pow256(x.Size()));
  }

  /** The tail cells doubled with the words' carry, in numbers: what overflows the tail is k. */
  lemma TailDoubled(t: seq<Byte>, rt: seq<Byte>, c: Byte) returns (k: int)
    requires c <= 1 && rt == ShiftLeftCells(t, c)
    ensures 2 * Unsigned(t) + c == k * Pow256(|t|) + Unsigned(rt)
  {
    ShiftLeftCellsValue(t, c);
    DivModSplit(2 * Unsigned(t) + c, Pow256(|t|));
    k := (2 * Unsigned(t) + c) / Pow256(|t|);
  }

  /**
   * Words and tail shifted separately make the whole shifted: with the words'
   * carry out c fed to the tail, wv' + p * ((2 tv + c) mod q) is 2 (wv + p tv) mod pq.
   */
  lemma DoubleCombine(wv: int, tv: int, wv2: int, tv2: int, c: int, p: int, q: int, k: int,
                      total: int, res: int, range: int)
    requires p >= 1 && q >= 1 && 0 <= wv2 < p && 0 <= tv2 < q
    requires wv2 + p * c == 2 * wv + 0
    requires 2 * tv + c == k * q + tv2
    requires total == wv + p * tv && res == wv2 + p * tv2 && range == p * q
    ensures res == (2 * total) % range
  {
    assert 2 * total == wv2 + p * (2 * tv + c) by {
      assert p * (2 * tv + c) == 2 * (p * tv) + p * c;
    }
    assert p * (2 * tv + c) == k * range + p * tv2 by {
      assert p * (k * q) == k * (p * q);
    }
    MulLe(p, tv2 + 1, q);
    assert res < range by {
      assert p * (tv2 + 1) == p * tv2 + p;
    }
    DivModUnique(2 * total, range, k, res);
  }

  /**
   * A concrete witness, `size == 16` with words [2^31, 0]: the `u64` helper
   * returns 1 for word 0, so word 1 receives a 1 that no bit 63 sent, and
   * 2^32 + 2^64 comes out instead of 2^32.
   */
  lemma ShiftLeft64IsWrong(x: WordInt)
    requires x.Valid() && |x.words| == 2 && |x.tail| == 0
    requires x.words[0] == 0x8000_0000 && x.words[1] == 0
    ensures ShiftLeft64AsWritten(x).words[0] == 0x1_0000_0000 && ShiftLeft64AsWritten(x).words[1] == 1
    ensures ShiftLeft64(x).words[0] == 0x1_0000_0000 && ShiftLeft64(x).words[1] == 0
    ensures Abstract(ShiftLeft64AsWritten(x)) != ShiftLeftOnce(Abstract(x))
  {
    ShiftLeftPairAsWritten(x.words);
    ShiftLeftPairFixed(x.words);
    WordsDiffer(ShiftLeft64AsWritten(x), ShiftLeft64(x));
  }

  /** The as-written word loop on [2^31, 0]: bit 31 is taken for bit 63. */
  lemma ShiftLeftPairAsWritten(ws: seq<Word>)
    requires |ws| == 2 && ws[0] == 0x8000_0000 && ws[1] == 0
    ensures ShiftLeftWordsAsWritten(ws, 0).0[0] == 0x1_0000_0000
    ensures ShiftLeftWordsAsWritten(ws, 0).0[1] == 1
  {
    var w0, w1 := ws[0], ws[1];
    MostSignificantBitWordIsNotBit63();
    LeftHeadAsWritten(ws, 0);
    LeftHeadAsWritten(ws[1..], 1);
    SmallDouble(w0);
    SmallDouble(w1);
    WordOrLow(DoubleWord(w0), 0);
    WordOrLow(DoubleWord(w1), 1);
  }

  /** The corrected word loop on [2^31, 0]: nothing is carried into word 1. */
  lemma ShiftLeftPairFixed(ws: seq<Word>)
    requires |ws| == 2 && ws[0] == 0x8000_0000 && ws[1] == 0
    ensures ShiftLeftWords(ws, 0).0[0] == 0x1_0000_0000
    ensures ShiftLeftWords(ws, 0).0[1] == 0
  {
    var w0, w1 := ws[0], ws[1];
    SmallDouble(w0);
    SmallDouble(w1);
    LeftHead(ws, 0);
    LeftHead(ws[1..], 0);
    WordOrLow(DoubleWord(w0), 0);
    WordOrLow(DoubleWord(w1), 0);
  }

  /** Word 0 of the as-written loop, and the loop on the rest. */
  lemma LeftHeadAsWritten(ws: seq<Word>, carry: Byte)
    requires |ws| >= 1
    ensures ShiftLeftWordsAsWritten(ws, carry).0[0] == WordOr(DoubleWord(ws[0]), carry)
    ensures |ws| >= 2 ==> ShiftLeftWordsAsWritten(ws, carry).0[1]
                          == ShiftLeftWordsAsWritten(ws[1..], MostSignificantBitWord(ws[0])).0[0]
  {
  }

  /** Word 0 of the corrected loop, and the loop on the rest. */
  lemma LeftHead(ws: seq<Word>, carry: Byte)
    requires |ws| >= 1 && carry <= 1
    ensures ShiftLeftWords(ws, carry).0[0] == WordOr(DoubleWord(ws[0]), carry)
    ensures |ws| >= 2 ==> ShiftLeftWords(ws, carry).0[1]
                          == ShiftLeftWords(ws[1..], MostSignificantBitWordFixed(ws[0])).0[0]
  {
  }

  /** A word below 2^63 doubles without a carry. */
  lemma SmallDouble(w: Word)
    requires w < 0x8000_0000_0000_0000
    ensures MostSignificantBitWordFixed(w) == 0 && DoubleWord(w) == 2 * w
  {
  }

  /** Two layouts of the same shape whose word 1 differs differ as byte layouts. */
  lemma WordsDiffer(a: WordInt, b: WordInt)
    requires SameShape(a, b) && |a.words| >= 2 && a.words[1] != b.words[1]
    ensures Abstract(a) != Abstract(b)
  {
    if Abstract(a) == Abstract(b) {
      WordOfLayout(a, 1);
      WordOfLayout(b, 1);
      assert false;
    }
  }

  /** Word i of a layout is read back from cells 8i to 8i + 7 of the byte layout. */
  lemma WordOfLayout(a: WordInt, i: nat)
    requires a.Valid() && i < |a.words|
    ensures Unsigned(Abstract(a).raw[8 * i..8 * i + 8]) == a.words[i]
  {
    var ws := a.words;
    assert ws == ws[..i] + ([ws[i]] + ws[i + 1..]);
    FlattenAppend(ws[..i], [ws[i]] + ws[i + 1..]);
    FlattenAppend([ws[i]], ws[i + 1..]);
    FlattenOne(ws[i]);
    var pre, mid := Flatten(ws[..i]), WordBytes(ws[i]);
    assert Abstract(a).raw == pre + (mid + Flatten(ws[i + 1..])) + a.tail;
    assert Abstract(a).raw[8 * i..8 * i + 8] == mid;
    WordBytesValue(ws[i]);
  }

  // Right shift.

  /**
   * The word loop of `right_shift_once` as written, top word first: each word
   * is halved and ORed with `carry << 7`, and hands on its low bit. Also
   * returns the carry left after word 0.
   */
  function ShiftRightWordsAsWritten(ws: seq<Word>, carry: Byte): (r: (seq<Word>, Byte))
    requires carry <= 1
    ensures |r.0| == |ws| && r.1 <= 1
  {
    if |ws| == 0 then ([], carry)
    else
      var n := |ws|;
      var w := ws[n - 1];
      var low := ShiftRightWordsAsWritten(ws[..n - 1], LeastSignificantBitWord(w));
      (low.0 + [WordOr(w / 2, carry * 0x80)], low.1)
  }

  /** `right_shift_once` as written: the words from a zero carry, then the tail cells from the low bit of word 0. */
  function ShiftRight64AsWritten(x: WordInt): (r: WordInt)
    requires x.Valid()
    ensures SameShape(x, r)
  {
    var w := ShiftRightWordsAsWritten(x.words, 0);
    WordInt(w.0, ShiftRightCells(x.tail, w.1))
  }

  /** The word loop with the carried bit put at bit 63. */
  function ShiftRightWords(ws: seq<Word>, carry: Byte): (r: (seq<Word>, Byte))
    requires carry <= 1
    ensures |r.0| == |ws| && r.1 <= 1
  {
    if |ws| == 0 then ([], carry)
    else
      var n := |ws|;
      var w := ws[n - 1];
      var low := ShiftRightWords(ws[..n - 1], LeastSignificantBitWord(w));
      (low.0 + [WordOr(w / 2, carry * 0x8000_0000_0000_0000)], low.1)
  }

  /** The bit that falls off the bottom of the tail in a right shift from a zero carry. */
  function TailOut(tail: seq<Byte>): (r: Byte)
    ensures r <= 1
  {
    if |tail| == 0 then 0 else LeastSignificantBit(tail[0])
  }

  /** The corrected `right_shift_once`: the tail first, then the words; the byte layout's right shift by one. */
  function ShiftRight64(x: WordInt): (r: WordInt)
    requires x.Valid()
    ensures SameShape(x, r)
    ensures Abstract(r) == ShiftRightOnce(Abstract(x))
  {
    var tail := ShiftRightCells(x.tail, 0);
    var w := ShiftRightWords(x.words, TailOut(x.tail));
    var r := WordInt(w.0, tail);
    ShiftRight64Refines(x, r);
    r
  }

  /** The words halved with the carry in on top: twice the result plus the bit out is the words plus the carry's weight. */
  lemma {:induction false} ShiftRightWordsValue(ws: seq<Word>, carry: Byte)
    requires carry <= 1
    ensures 2 * WordsValue(ShiftRightWords(ws, carry).0) + ShiftRightWords(ws, carry).1
         == WordsValue(ws) + carry * Pow256(8 * |ws|)
  {
    if |ws| == 0 {
      assert WordsValue([]) == 0;
    } else {
      var n := |ws|;
      var lsb := LeastSignificantBitWord(ws[n - 1]);
      ShiftRightWordsValue(ws[..n - 1], lsb);
      ShiftRightWordsLast(ws, carry);
    }
  }

  /** The top word of the right shift takes the carry at bit 63 and passes its low bit down. */
  lemma ShiftRightWordsLast(ws: seq<Word>, carry: Byte)
    requires |ws| >= 1 && carry <= 1
    requires var n := |ws|; var lsb := LeastSignificantBitWord(ws[n - 1]);
      2 * WordsValue(ShiftRightWords(ws[..n - 1], lsb).0) + ShiftRightWords(ws[..n - 1], lsb).1
        == WordsValue(ws[..n - 1]) + lsb * Pow256(8 * (n - 1))
    ensures 2 * WordsValue(ShiftRightWords(ws, carry).0) + ShiftRightWords(ws, carry).1
         == WordsValue(ws) + carry * Pow256(8 * |ws|)
  {
    var n := |ws|;
    var w := ws[n - 1];
    var lsb := LeastSignificantBitWord(w);
    var low := ShiftRightWords(ws[..n - 1], lsb);
    RightWordsParts(ws, carry);
    WordOrHigh(w / 2, carry);
    HalveStep(WordsValue(low.0), low.1, WordsValue(ws[..n - 1]), w, lsb, carry, WordOr(w / 2, carry * 0x8000_0000_0000_0000),
              Pow256(8 * (n - 1)), WordsValue(ShiftRightWords(ws, carry).0), WordsValue(ws), Pow256(8 * n));
  }

  /** The right shift's words in numbers: the lower words' result with the top word above them. */
  lemma RightWordsParts(ws: seq<Word>, carry: Byte)
    requires |ws| >= 1 && carry <= 1
    ensures var n := |ws|; var low := ShiftRightWords(ws[..n - 1], LeastSignificantBitWord(ws[n - 1]));
      && WordsValue(ShiftRightWords(ws, carry).0)
         == WordsValue(low.0) + Pow256(8 * (n - 1)) * WordOr(ws[n - 1] / 2, carry * 0x8000_0000_0000_0000)
      && ShiftRightWords(ws, carry).1 == low.1
      && WordsValue(ws) == WordsValue(ws[..n - 1]) + Pow256(8 * (n - 1)) * ws[n - 1]
      && Pow256(8 * n) == WordModulus * Pow256(8 * (n - 1))
  {
    var n := |ws|;
    var w := ws[n - 1];
    var low := ShiftRightWords(ws[..n - 1], LeastSignificantBitWord(w));
    var top := WordOr(w / 2, carry * 0x8000_0000_0000_0000);
    assert ShiftRightWords(ws, carry).0 == low.0 + [top];
    WordsAppend(low.0, [top]);
    WordOne(top);
    assert ws[..n] == ws;
    WordsSnoc(ws, n - 1);
    WordWeight(n);
  }

  /** A single word reads as itself. */
  lemma WordOne(w: Word)
    ensures WordsValue([w]) == w
  {
    WordsCons([w]);
    assert [w][1..] == [];
  }

  /** One word of the right shift, in numbers. */
  lemma HalveStep(low: int, out: int, pre: int, w: int, lsb: int, carry: int, top: int, p: int, u: int, sv: int, pn: int)
    requires w >= 0 && lsb == w % 2 && 2 * low + out == pre + lsb * p
    requires top == w / 2 + carry * 0x8000_0000_0000_0000
    requires u == low + p * top && sv == pre + p * w && pn == WordModulus * p
    ensures 2 * u + out == sv + carry * pn
  {
    assert p * w == lsb * p + 2 * (p * (w / 2)) by {
      assert w == w % 2 + 2 * (w / 2);
    }
  }

  lemma ShiftRight64Refines(x: WordInt, r: WordInt)
    requires x.Valid()
    requires r.tail == ShiftRightCells(x.tail, 0)
    requires r.words == ShiftRightWords(x.words, TailOut(x.tail)).0
    ensures Abstract(r) == ShiftRightOnce(Abstract(x))
  {
    var A := Abstract(x);
    var c := TailOut(x.tail);
    var w := ShiftRightWords(x.words, c);
    ShiftRightWordsValue(x.words, c);
    ShiftRightCellsExact(x.tail, 0);
    assert 2 * Unsigned(r.tail) + c == Unsigned(x.tail);
    AbstractValue(x);
    AbstractValue(r);
    ShiftRightOnceValue(A);
    HalveCombine(WordsValue(x.words), Unsigned(x.tail), WordsValue(r.words), Unsigned(r.tail), c, w.1,
                 Pow256(8 * |x.words|));
    AsNatInjective(Abstract(r), ShiftRightOnce(A));
  }

  /** The tail halved hands its low bit c to the top word: wv' + p tv' is (wv + p tv) / 2. */
  lemma HalveCombine(wv: int, tv: int, wv2: int, tv2: int, c: int, out: int, p: int)
    requires 0 <= out <= 1
    requires 2 * wv2 + out == wv + c * p
    requires 2 * tv2 + c == tv
    ensures wv2 + p * tv2 == (wv + p * tv) / 2
  {
    assert wv + p * tv == 2 * (wv2 + p * tv2) + out by {
      assert p * tv == 2 * (p * tv2) + p * c;
    }
    DivModUnique(wv + p * tv, 2, wv2 + p * tv2, out);
  }

  /**
   * A concrete witness, `size == 9` with word 0 equal to 0 and tail cell 0
   * equal to 1 (the value 2^64). The tail is shifted last, so its low bit
   * has nowhere to go and 0 comes out instead of 2^63.
   */
  lemma ShiftRight64DropsTailBit(x: WordInt)
    requires x.Valid() && |x.words| == 1 && |x.tail| == 1
    requires x.words[0] == 0 && x.tail[0] == 1
    ensures ShiftRight64AsWritten(x).words[0] == 0 && ShiftRight64AsWritten(x).tail[0] == 0
    ensures ShiftRight64(x).words[0] == 0x8000_0000_0000_0000 && ShiftRight64(x).tail[0] == 0
    ensures Abstract(ShiftRight64AsWritten(x)) != ShiftRightOnce(Abstract(x))
  {
    ShiftRightZeroWord(x.words);
    ShiftRightOneCell(x.tail);
    assert TailOut(x.tail) == 1;
    WordZeroDiffers(ShiftRight64AsWritten(x), ShiftRight64(x));
  }

  /** Word loops on the single word 0: from carry 0 it stays 0, from carry 1 it becomes 2^63. */
  lemma ShiftRightZeroWord(ws: seq<Word>)
    requires |ws| == 1 && ws[0] == 0
    ensures ShiftRightWordsAsWritten(ws, 0).0[0] == 0 && ShiftRightWordsAsWritten(ws, 0).1 == 0
    ensures ShiftRightWords(ws, 1).0[0] == 0x8000_0000_0000_0000
  {
    var w0 := ws[0];
    RightTopAsWritten(ws, 0);
    RightTop(ws, 1);
    assert ws[..0] == [];
    WordOrLow(w0 / 2, 0);
    WordOrHigh(w0 / 2, 1);
  }

  /** The top word of the as-written loop, and the loop below it. */
  lemma RightTopAsWritten(ws: seq<Word>, carry: Byte)
    requires |ws| >= 1 && carry <= 1
    ensures var n := |ws|; var low := ShiftRightWordsAsWritten(ws[..n - 1], LeastSignificantBitWord(ws[n - 1]));
      && ShiftRightWordsAsWritten(ws, carry).0[n - 1] == WordOr(ws[n - 1] / 2, carry * 0x80)
      && ShiftRightWordsAsWritten(ws, carry).1 == low.1
      && (n >= 2 ==> ShiftRightWordsAsWritten(ws, carry).0[0] == low.0[0])
  {
  }

  /** The top word of the corrected loop, and the loop below it. */
  lemma RightTop(ws: seq<Word>, carry: Byte)
    requires |ws| >= 1 && carry <= 1
    ensures var n := |ws|; var low := ShiftRightWords(ws[..n - 1], LeastSignificantBitWord(ws[n - 1]));
      && ShiftRightWords(ws, carry).0[n - 1] == WordOr(ws[n - 1] / 2, carry * 0x8000_0000_0000_0000)
      && ShiftRightWords(ws, carry).1 == low.1
      && (n >= 2 ==> ShiftRightWords(ws, carry).0[0] == low.0[0])
  {
  }

  /** The single cell 1 shifted right from a zero carry is 0, and hands on its low bit. */
  lemma ShiftRightOneCell(s: seq<Byte>)
    requires |s| == 1 && s[0] == 1
    ensures ShiftRightCells(s, 0)[0] == 0 && TailOut(s) == 1
  {
    var b := s[0];
    assert s[..0] == [];
    ByteOrHigh(b / 2, 0);
  }

  /**
   * A concrete witness, `size == 9` with word 0 equal to 1 and tail cell 0
   * equal to 0 (the value 1). The tail is shifted after the words, so the low
   * bit of word 0 lands in bit 7 of the top tail cell, the sign bit: `1 >> 1`
   * comes out as MIN instead of 0.
   */
  lemma ShiftRight64SetsSignBit(x: WordInt)
    requires x.Valid() && |x.words| == 1 && |x.tail| == 1
    requires x.words[0] == 1 && x.tail[0] == 0
    ensures ShiftRight64AsWritten(x).words[0] == 0 && ShiftRight64AsWritten(x).tail[0] == 0x80
    ensures AsInt(Abstract(ShiftRight64AsWritten(x))) == -HalfModulus(9)
    ensures AsInt(Abstract(ShiftRight64(x))) == 0
  {
    var a, c := ShiftRight64AsWritten(x), ShiftRight64(x);
    ShiftRightOneWord(x.words);
    ShiftRightZeroCell(x.tail);
    assert a.words[0] == 0 && a.tail[0] == 0x80;
    SingleWordReading(a);
    SingleWordReading(x);
    ShiftRightOnceValue(Abstract(x));
    ShiftRightOnceClearsSign(Abstract(x));
    NonNegativeIsUnsigned(Abstract(c));
  }

  /** The as-written word loop on the single word 1: it becomes 0 and hands on a carry of 1. */
  lemma ShiftRightOneWord(ws: seq<Word>)
    requires |ws| == 1 && ws[0] == 1
    ensures ShiftRightWordsAsWritten(ws, 0).0[0] == 0 && ShiftRightWordsAsWritten(ws, 0).1 == 1
  {
    var w0 := ws[0];
    assert w0 / 2 == 0 && LeastSignificantBitWord(w0) == 1;
    RightTopAsWritten(ws, 0);
    assert ws[..0] == [];
    assert ShiftRightWordsAsWritten(ws[..0], 1) == ([], 1);
    WordOrLow(w0 / 2, 0);
  }

  /** The single cell 0 shifted right with a carry of 1 is 0x80. */
  lemma ShiftRightZeroCell(s: seq<Byte>)
    requires |s| == 1 && s[0] == 0
    ensures ShiftRightCells(s, 1)[0] == 0x80
  {
    assert s[..0] == [];
    ByteOrHigh(0, 1);
  }

  /** A layout of one word and one tail cell: the cell weighs 2^64 and is the top cell. */
  lemma SingleWordReading(y: WordInt)
    requires y.Valid() && |y.words| == 1 && |y.tail| == 1
    ensures AsNat(Abstract(y)) == y.words[0] + WordModulus * y.tail[0]
    ensures Abstract(y).raw[8] == y.tail[0]
    ensures Pow256(9) == 256 * WordModulus && HalfModulus(9) == 128 * WordModulus
    ensures y.tail[0] >= 128 ==> AsInt(Abstract(y)) == AsNat(Abstract(y)) - 256 * WordModulus
    ensures y.tail[0] < 128 ==> AsInt(Abstract(y)) == AsNat(Abstract(y))
  {
    AbstractValue(y);
    WordsCons(y.words);
    assert y.words[1..] == [];
    assert y.tail[1..] == [];
    Pow256Word();
  }

  /**
   * A concrete witness, `size == 16` with words [0, 1] (the value 2^64).
   * Word 1's low bit lands at bit 7 of word 0, giving 128 instead of 2^63.
   */
  lemma ShiftRight64CarriesToBit7(x: WordInt)
    requires x.Valid() && |x.words| == 2 && |x.tail| == 0
    requires x.words[0] == 0 && x.words[1] == 1
    ensures ShiftRight64AsWritten(x).words[0] == 0x80 && ShiftRight64AsWritten(x).words[1] == 0
    ensures ShiftRight64(x).words[0] == 0x8000_0000_0000_0000 && ShiftRight64(x).words[1] == 0
    ensures Abstract(ShiftRight64AsWritten(x)) != ShiftRightOnce(Abstract(x))
  {
    assert TailOut(x.tail) == 0;
    ShiftRightPairAsWritten(x.words);
    ShiftRightPairFixed(x.words);
    WordZeroDiffers(ShiftRight64AsWritten(x), ShiftRight64(x));
  }

  /** The as-written word loop on [0, 1]: word 1's low bit lands at bit 7 of word 0. */
  lemma ShiftRightPairAsWritten(ws: seq<Word>)
    requires |ws| == 2 && ws[0] == 0 && ws[1] == 1
    ensures ShiftRightWordsAsWritten(ws, 0).0[0] == 0x80 && ShiftRightWordsAsWritten(ws, 0).0[1] == 0
  {
    var w0, w1 := ws[0], ws[1];
    RightTopAsWritten(ws, 0);
    WordOrLow(w1 / 2, 0);
    assert LeastSignificantBitWord(w1) == 1;
    BitSevenAsWritten(ws[..1]);
  }

  /** The as-written loop on the single word 0 with a carry of 1 gives 0x80. */
  lemma BitSevenAsWritten(ws: seq<Word>)
    requires |ws| == 1 && ws[0] == 0
    ensures ShiftRightWordsAsWritten(ws, 1).0[0] == 0x80
  {
    RightTopAsWritten(ws, 1);
    WordOrZero(ws[0] / 2, 1 * 0x80);
  }

  /** The corrected word loop on [0, 1]: word 1's low bit lands at bit 63 of word 0. */
  lemma ShiftRightPairFixed(ws: seq<Word>)
    requires |ws| == 2 && ws[0] == 0 && ws[1] == 1
    ensures ShiftRightWords(ws, 0).0[0] == 0x8000_0000_0000_0000 && ShiftRightWords(ws, 0).0[1] == 0
  {
    var w0, w1 := ws[0], ws[1];
    RightTop(ws, 0);
    RightTop(ws[..1], 1);
    WordOrLow(w1 / 2, 0);
    WordOrHigh(w0 / 2, 1);
  }

  /** `0 | b` on a word is b. */
  lemma WordOrZero(a: Word, b: Word)
    requires a == 0
    ensures WordOr(a, b) == b
  {
    Pow2Word();
    OrZeroLeft(a, b, WordBits);
  }

  /** Two layouts of the same shape whose word 0 differs differ as byte layouts. */
  lemma WordZeroDiffers(a: WordInt, b: WordInt)
    requires SameShape(a, b) && |a.words| >= 1 && a.words[0] != b.words[0]
    ensures Abstract(a) != Abstract(b)
  {
    if Abstract(a) == Abstract(b) {
      WordOfLayout(a, 0);
      WordOfLayout(b, 0);
      assert false;
    }
  }

  // The shift operators.

  /** t corrected single-bit left shifts. */
  function ShiftLeftTimes64(x: WordInt, t: nat): (r: WordInt)
    requires x.Valid()
    ensures SameShape(x, r)
    ensures Abstract(r) == ShiftLeftTimes(Abstract(x), t)
  {
    if t == 0 then x else ShiftLeft64(ShiftLeftTimes64(x, t - 1))
  }

  /** t corrected single-bit right shifts. */
  function ShiftRightTimes64(x: WordInt, t: nat): (r: WordInt)
    requires x.Valid()
    ensures SameShape(x, r)
    ensures Abstract(r) == ShiftRightTimes(Abstract(x), t)
  {
    if t == 0 then x else ShiftRight64(ShiftRightTimes64(x, t - 1))
  }

  /** `operator<<`: the counting loop, one corrected left shift per round. */
  function ShiftLeftBy64(x: WordInt, k: WordInt): (r: WordInt)
    requires SameShape(x, k)
    ensures SameShape(x, r)
    ensures Abstract(r) == ShiftLeft(Abstract(x), Abstract(k))
  {
    ShiftLeftTimes64(x, LoopCount(Abstract(k)))
  }

  /** `operator>>`: the counting loop, one corrected right shift per round. */
  function ShiftRightBy64(x: WordInt, k: WordInt): (r: WordInt)
    requires SameShape(x, k)
    ensures SameShape(x, r)
    ensures Abstract(r) == ShiftRight(Abstract(x), Abstract(k))
  {
    ShiftRightTimes64(x, LoopCount(Abstract(k)))
  }

  /** A positive amount multiplies the unsigned value by 2^k modulo 2^(8 size); a non-positive one leaves x alone. */
  lemma ShiftLeftBy64Value(x: WordInt, k: WordInt)
    requires SameShape(x, k)
    ensures AsInt(Abstract(k)) > 0 ==>
      AsNat(Abstract(ShiftLeftBy64(x, k))) == (AsNat(Abstract(x)) * Pow2(AsInt(Abstract(k)))) % Pow256(x.Size())
    ensures AsInt(Abstract(k)) <= 0 ==> ShiftLeftBy64(x, k) == x
  {
    if AsInt(Abstract(k)) > 0 {
      ShiftLeftValue(Abstract(x), Abstract(k));
    }
  }

  /** A positive amount divides the unsigned value by 2^k; a non-positive one leaves x alone. */
  lemma ShiftRightBy64Value(x: WordInt, k: WordInt)
    requires SameShape(x, k)
    ensures AsInt(Abstract(k)) > 0 ==>
      AsNat(Abstract(ShiftRightBy64(x, k))) == AsNat(Abstract(x)) / Pow2(AsInt(Abstract(k)))
    ensures AsInt(Abstract(k)) <= 0 ==> ShiftRightBy64(x, k) == x
  {
    if AsInt(Abstract(k)) > 0 {
      ShiftRightValue(Abstract(x), Abstract(k));
    }
  }
}
