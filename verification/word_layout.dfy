/**
 * The word-packed draft of `big_int` (`big_int64.hpp`): the low `size / 8`
 * bytes are held as `u64` words (`raw_least_significant_wide`), the
 * remaining `size % 8` bytes as `u8` cells above them
 * (`raw_most_significant_bytes`). Abstract reads such a value in the byte
 * layout of `big_int.hpp`; every operation here is shown to agree with the
 * byte-layout operation through it, or is shown not to.
 *
 * This module holds the layout, the sign, `==`, `<`, `bool`, `~`,
 * `flipSignBit` and the limits.
 */
module WordLayout {
  import opened Arith
  import opened Bits
  import opened Bytes
  import opened Util
  import opened BigInts
  import opened Bitwise
  import opened Limits

  /** `big_int<size>` of the draft: the words, then the cells above them. */
  datatype WordInt = WordInt(words: seq<Word>, tail: seq<Byte>)
  {
    /** `size / 8` words and `size % 8` cells, and `size != 0`. */
    predicate Valid()
    {
      |tail| < 8 && 8 * |words| + |tail| >= 1
    }

    function Size(): nat
    {
      8 * |words| + |tail|
    }
  }

  /** Both operands of a binary operator are of the same `size`. */
  predicate SameShape(a: WordInt, b: WordInt)
  {
    a.Valid() && |b.words| == |a.words| && |b.tail| == |a.tail|
  }

  /** A word holds eight cells: 2^64 == 256^8, and the top cell weighs 256^7. */
  lemma Pow256Word()
    ensures Pow256(8) == WordModulus
    ensures Pow256(7) == 0x100_0000_0000_0000
  {
    assert Pow256(2) == 0x1_0000;
    assert Pow256(3) == 0x100_0000;
    Pow256Add(2, 2);
    Pow256Add(4, 3);
    Pow256Add(4, 4);
  }

  // The layout and its reading.

  /** The eight cells of a word, least significant first, as they lie in memory. */
  function WordBytes(w: Word): (r: seq<Byte>)
    ensures |r| == 8
  {
    Pow256Word();
    ToBytes(w, 8)
  }

  /** The cells of a run of words. */
  function Flatten(ws: seq<Word>): (r: seq<Byte>)
    ensures |r| == 8 * |ws|
  {
    if |ws| == 0 then [] else WordBytes(ws[0]) + Flatten(ws[1..])
  }

  /** The unsigned value of a run of words, word 0 least significant. */
  function WordsValue(ws: seq<Word>): nat
  {
    Unsigned(Flatten(ws))
  }

  /** The same number in the byte layout of `big_int.hpp`: the words' cells, then the tail. */
  function Abstract(x: WordInt): (r: BigInt)
    requires x.Valid()
    ensures r.Valid() && |r.raw| == x.Size()
  {
    BigInt(Flatten(x.words) + x.tail)
  }

  lemma WordBytesValue(w: Word)
    ensures Unsigned(WordBytes(w)) == w
  {
    Pow256Word();
    ToBytesValue(w, 8);
  }

  lemma {:induction false} FlattenAppend(a: seq<Word>, b: seq<Word>)
    ensures Flatten(a + b) == Flatten(a) + Flatten(b)
  {
    if |a| == 0 {
      assert a + b == b;
    } else {
      assert (a + b)[1..] == a[1..] + b;
      FlattenAppend(a[1..], b);
    }
  }

  /** Word 0 plus 2^64 times the words above it. */
  lemma WordsCons(ws: seq<Word>)
    requires |ws| >= 1
    ensures WordsValue(ws) == ws[0] + WordModulus * WordsValue(ws[1..])
  {
    UnsignedAppend(WordBytes(ws[0]), Flatten(ws[1..]));
    WordBytesValue(ws[0]);
    Pow256Word();
  }

  /** The words above word 0 weigh 2^64 each step up. */
  lemma WordWeight(k: nat)
    requires k >= 1
    ensures Pow256(8 * k) == WordModulus * Pow256(8 * (k - 1))
  {
    var m := 8 * (k - 1);
    Pow256Add(8, m);
    assert 8 + m == 8 * k;
    Pow256Word();
  }

  lemma WordsAppend(a: seq<Word>, b: seq<Word>)
    ensures WordsValue(a + b) == WordsValue(a) + Pow256(8 * |a|) * WordsValue(b)
  {
    FlattenAppend(a, b);
    UnsignedAppend(Flatten(a), Flatten(b));
  }

  /** The prefix of i + 1 words adds word i with weight 2^(64 i). */
  lemma WordsSnoc(ws: seq<Word>, i: nat)
    requires i < |ws|
    ensures WordsValue(ws[..i + 1]) == WordsValue(ws[..i]) + Pow256(8 * i) * ws[i]
  {
    assert ws[..i + 1] == ws[..i] + [ws[i]];
    WordsAppend(ws[..i], [ws[i]]);
    WordsCons([ws[i]]);
    assert [ws[i]][1..] == [];
  }

  lemma WordsBound(ws: seq<Word>)
    ensures WordsValue(ws) < Pow256(8 * |ws|)
  {
    UnsignedBound(Flatten(ws));
  }

  /** Words of the same count and value are the same words. */
  lemma {:induction false} WordsInjective(a: seq<Word>, b: seq<Word>)
    requires |a| == |b| && WordsValue(a) == WordsValue(b)
    ensures a == b
  {
    if |a| > 0 {
      WordsCons(a);
      WordsCons(b);
      DivModUnique(WordsValue(a), WordModulus, WordsValue(a[1..]), a[0]);
      DivModUnique(WordsValue(b), WordModulus, WordsValue(b[1..]), b[0]);
      WordsInjective(a[1..], b[1..]);
      assert a == [a[0]] + a[1..];
      assert b == [b[0]] + b[1..];
    }
  }

  /** All words are zero exactly when their value is. */
  lemma {:induction false} WordsZero(ws: seq<Word>)
    ensures WordsValue(ws) == 0 <==> forall i :: 0 <= i < |ws| ==> ws[i] == 0
  {
    if |ws| > 0 {
      WordsCons(ws);
      WordsZero(ws[1..]);
      assert (forall i :: 0 <= i < |ws| ==> ws[i] == 0)
         <==> ws[0] == 0 && (forall i :: 0 <= i < |ws[1..]| ==> ws[1..][i] == 0);
    }
  }

  /** The value of a layout: the words, plus the tail weighted by 2^(64k). */
  lemma AbstractValue(x: WordInt)
    requires x.Valid()
    ensures AsNat(Abstract(x)) == WordsValue(x.words) + Pow256(8 * |x.words|) * Unsigned(x.tail)
    ensures Pow256(x.Size()) == Pow256(8 * |x.words|) * Pow256(|x.tail|)
  {
    UnsignedAppend(Flatten(x.words), x.tail);
    Pow256Add(8 * |x.words|, |x.tail|);
  }

  /** Two layouts of one `size` with the same cells are the same layout. */
  lemma AbstractInjective(a: WordInt, b: WordInt)
    requires SameShape(a, b) && Abstract(a) == Abstract(b)
    ensures a == b
  {
    var k := 8 * |a.words|;
    assert Flatten(a.words) == Abstract(a).raw[..k];
    assert Flatten(b.words) == Abstract(b).raw[..k];
    assert a.tail == Abstract(a).raw[k..];
    assert b.tail == Abstract(b).raw[k..];
    WordsInjective(a.words, b.words);
  }

  lemma SameCellsSameLayout(a: WordInt, b: WordInt)
    requires SameShape(a, b)
    ensures Abstract(a) == Abstract(b) <==> a == b
  {
    if Abstract(a) == Abstract(b) {
      AbstractInjective(a, b);
    }
  }

  /** Two layouts of one `size` with the same value are the same layout. */
  lemma SameValueSameLayout(a: WordInt, b: WordInt)
    requires SameShape(a, b) && AsNat(Abstract(a)) == AsNat(Abstract(b))
    ensures a == b
  {
    AsNatInjective(Abstract(a), Abstract(b));
    AbstractInjective(a, b);
  }

  // The sign.

  /** The top cell of an n-cell encoding is the value divided by 256^(n-1). */
  lemma {:induction false} ToBytesTop(u: nat, n: nat)
    requires n >= 1 && u < Pow256(n)
    ensures ToBytes(u, n)[n - 1] == u / Pow256(n - 1)
  {
    if n > 1 {
      ToBytesTop(u / 256, n - 1);
      DivDiv(u, 256, Pow256(n - 2));
    }
  }

  /** The top cell of a run of words is the top eight bits of its top word. */
  lemma FlattenTop(ws: seq<Word>)
    requires |ws| >= 1
    ensures Flatten(ws)[8 * |ws| - 1] == ws[|ws| - 1] / 0x100_0000_0000_0000
  {
    var k := |ws|;
    FlattenSnoc(ws);
    var lower, top := Flatten(ws[..k - 1]), WordBytes(ws[k - 1]);
    assert |lower| == 8 * k - 8;
    assert (lower + top)[8 * k - 1] == top[7];
    WordTopByte(ws[k - 1]);
  }

  /** The cells of a run of words end with the cells of its top word. */
  lemma FlattenSnoc(ws: seq<Word>)
    requires |ws| >= 1
    ensures Flatten(ws) == Flatten(ws[..|ws| - 1]) + WordBytes(ws[|ws| - 1])
  {
    var pre, last := ws[..|ws| - 1], ws[|ws| - 1];
    LastSplit(ws);
    FlattenAppend(pre, [last]);
    FlattenOne(last);
  }

  /** The cells of a single word. */
  lemma FlattenOne(w: Word)
    ensures Flatten([w]) == WordBytes(w)
  {
    assert [w][1..] == [];
  }

  /** A non-empty run is its prefix followed by its last word. */
  lemma LastSplit(ws: seq<Word>)
    requires |ws| >= 1
    ensures ws == ws[..|ws| - 1] + [ws[|ws| - 1]]
  {
  }

  /** The top cell of a word is its top eight bits. */
  lemma WordTopByte(w: Word)
    ensures WordBytes(w)[7] == w / 0x100_0000_0000_0000
  {
    Pow256Word();
    ToBytesTop(w, 8);
  }

  /**
   * `most_significant_byte`: the top cell of the tail when there is one,
   * else the top word shifted down by 56.
   */
  function MostSignificantByte64(x: WordInt): (r: Byte)
    requires x.Valid()
    ensures r == MostSignificantByte(Abstract(x))
  {
    if |x.tail| > 0 then x.tail[|x.tail| - 1]
    else
      FlattenTop(x.words);
      x.words[|x.words| - 1] / 0x100_0000_0000_0000
  }

  /** `most_significant_byte_no_sign`: that cell `& 0b01111111`. */
  function MostSignificantByteNoSign64(x: WordInt): (r: Byte)
    requires x.Valid()
    ensures r == MostSignificantByteNoSign(Abstract(x))
  {
    var b := MostSignificantByte64(x);
    ByteAndLow(b);
    ByteAnd(b, 0x7F)
  }

  /** `is_negative`: bit 7 of the top cell, which is the sign of the value. */
  function IsNegative64(x: WordInt): (r: bool)
    requires x.Valid()
    ensures r == IsNegative(Abstract(x))
    ensures r <==> AsInt(Abstract(x)) < 0
  {
    MostSignificantBit(MostSignificantByte64(x)) != 0
  }

  // Comparison.

  /** `operator==`: the words match, then the tail cells match. */
  function Equal64(a: WordInt, b: WordInt): (r: bool)
    requires SameShape(a, b)
    ensures r <==> a == b
    ensures r <==> AsInt(Abstract(a)) == AsInt(Abstract(b))
  {
    assert a.words[0..] == a.words && b.words[0..] == b.words;
    assert a.tail[0..] == a.tail && b.tail[0..] == b.tail;
    SameValueSameCells(Abstract(a), Abstract(b));
    SameCellsSameLayout(a, b);
    EqualFrom(a.words, b.words, 0) && EqualFrom(a.tail, b.tail, 0)
  }

  /** The reverse scan over words is the order of their values. */
  lemma {:induction false} WordsLexLess(a: seq<Word>, b: seq<Word>, k: nat)
    requires k <= |a| && k <= |b|
    ensures LexLess(a, b, k) <==> WordsValue(a[..k]) < WordsValue(b[..k])
  {
    if k > 0 {
      WordsSnoc(a, k - 1);
      WordsSnoc(b, k - 1);
      WordsBound(a[..k - 1]);
      WordsBound(b[..k - 1]);
      var p := Pow256(8 * (k - 1));
      if a[k - 1] < b[k - 1] {
        DigitDecides(WordsValue(a[..k - 1]), WordsValue(b[..k - 1]), p, a[k - 1], b[k - 1]);
      } else if b[k - 1] < a[k - 1] {
        DigitDecides(WordsValue(b[..k - 1]), WordsValue(a[..k - 1]), p, b[k - 1], a[k - 1]);
      } else {
        WordsLexLess(a, b, k - 1);
      }
    }
  }

  /** The last stage of `operator<` as written: the words top-down, then the tail top-down. */
  function WordsFirst(a: WordInt, b: WordInt): bool
    requires SameShape(a, b)
  {
    if a.words != b.words then LexLess(a.words, b.words, |a.words|)
    else LexLess(a.tail, b.tail, |a.tail|)
  }

  /** The scan in significance order: the tail top-down, then the words top-down. */
  function TailFirst(a: WordInt, b: WordInt): bool
    requires SameShape(a, b)
  {
    if a.tail != b.tail then LexLess(a.tail, b.tail, |a.tail|)
    else LexLess(a.words, b.words, |a.words|)
  }

  /** Scanning the tail first is the unsigned order of the two values. */
  lemma TailFirstOrder(a: WordInt, b: WordInt)
    requires SameShape(a, b)
    ensures TailFirst(a, b) <==> AsNat(Abstract(a)) < AsNat(Abstract(b))
  {
    var k, t := |a.words|, |a.tail|;
    AbstractValue(a);
    AbstractValue(b);
    WordsBound(a.words);
    WordsBound(b.words);
    assert a.words[..k] == a.words && b.words[..k] == b.words;
    assert a.tail[..t] == a.tail && b.tail[..t] == b.tail;
    var wa, wb := WordsValue(a.words), WordsValue(b.words);
    var ua, ub := Unsigned(a.tail), Unsigned(b.tail);
    if a.tail != b.tail {
      LexLessUnsigned(a.tail, b.tail, t);
      if ua == ub {
        UnsignedInjective(a.tail, b.tail);
      } else if ua < ub {
        DigitDecides(wa, wb, Pow256(8 * k), ua, ub);
      } else {
        DigitDecides(wb, wa, Pow256(8 * k), ub, ua);
      }
    } else {
      WordsLexLess(a.words, b.words, k);
    }
  }

  /** The byte layout's `<` is the byte layout's sign tests followed by the unsigned order. */
  lemma LessByUnsigned(a: BigInt, b: BigInt)
    requires SameWidth(a, b)
    requires IsNegative(a) == IsNegative(b) && MostSignificantByteNoSign(a) == MostSignificantByteNoSign(b)
    ensures Less(a, b) <==> AsNat(a) < AsNat(b)
  {
    var n := |a.raw|;
    LexLessUnsigned(a.raw, b.raw, n);
    assert a.raw[..n] == a.raw && b.raw[..n] == b.raw;
  }

  /**
   * `operator<` as written: the signs, then the top cells without the sign
   * bit, then WordsFirst. The words are compared before the tail cells
   * that lie above them.
   */
  function Less64(a: WordInt, b: WordInt): bool
    requires SameShape(a, b)
  {
    if IsNegative64(a) != IsNegative64(b) then IsNegative64(a)
    else if MostSignificantByteNoSign64(a) == MostSignificantByteNoSign64(b) then WordsFirst(a, b)
    else MostSignificantByteNoSign64(a) < MostSignificantByteNoSign64(b)
  }

  /** `operator<` with the scan in significance order. */
  function Less64Fixed(a: WordInt, b: WordInt): bool
    requires SameShape(a, b)
  {
    if IsNegative64(a) != IsNegative64(b) then IsNegative64(a)
    else if MostSignificantByteNoSign64(a) == MostSignificantByteNoSign64(b) then TailFirst(a, b)
    else MostSignificantByteNoSign64(a) < MostSignificantByteNoSign64(b)
  }

  /** The corrected `<` is the byte layout's `<`, hence the signed order. */
  lemma Less64FixedRefines(a: WordInt, b: WordInt)
    requires SameShape(a, b)
    ensures Less64Fixed(a, b) == Less(Abstract(a), Abstract(b))
    ensures Less64Fixed(a, b) <==> AsInt(Abstract(a)) < AsInt(Abstract(b))
  {
    var A, B := Abstract(a), Abstract(b);
    LessIsSignedOrder(A, B);
    if IsNegative(A) == IsNegative(B) && MostSignificantByteNoSign(A) == MostSignificantByteNoSign(B) {
      TailFirstOrder(a, b);
      LessByUnsigned(A, B);
    }
  }

  /** Equal top cells and no cell besides the top one in the tail: the tails agree. */
  lemma NarrowTailsAgree(a: WordInt, b: WordInt)
    requires SameShape(a, b) && |a.tail| <= 1
    requires IsNegative64(a) == IsNegative64(b)
    requires MostSignificantByteNoSign64(a) == MostSignificantByteNoSign64(b)
    ensures a.tail == b.tail
  {
    var A, B := Abstract(a), Abstract(b);
    SignBitIsUpperHalf(A);
    SignBitIsUpperHalf(B);
    AsNatBound(A);
    AsNatBound(B);
    if |a.tail| == 1 {
      assert a.tail == [MostSignificantByte64(a)];
      assert b.tail == [MostSignificantByte64(b)];
    }
  }

  /** With at most one tail cell (`size % 8 <= 1`) the `<` as written is right. */
  lemma Less64NarrowTail(a: WordInt, b: WordInt)
    requires SameShape(a, b) && |a.tail| <= 1
    ensures Less64(a, b) == Less(Abstract(a), Abstract(b))
  {
    Less64FixedRefines(a, b);
    if IsNegative64(a) == IsNegative64(b) && MostSignificantByteNoSign64(a) == MostSignificantByteNoSign64(b) {
      NarrowTailsAgree(a, b);
      if a.words == b.words {
        LexLessUnsigned(a.tail, b.tail, |a.tail|);
        WordsLexLess(a.words, b.words, |a.words|);
      }
    }
  }

  /**
   * A concrete witness, `size == 10`: a is 1 (word 0 is 1) and b is 2^64
   * (tail cell 0 is 1). The words decide first and say `b < a`.
   */
  lemma Less64IsWrong()
    ensures var a, b := WordInt([1], [0, 0]), WordInt([0], [1, 0]);
      !Less64(a, b) && Less(Abstract(a), Abstract(b)) && Less64Fixed(a, b)
  {
    var a, b := WordInt([1], [0, 0]), WordInt([0], [1, 0]);
    assert MostSignificantByte64(a) == 0 && MostSignificantByte64(b) == 0;
    assert MostSignificantByteNoSign64(a) == MostSignificantByteNoSign64(b);
    assert !LexLess(a.words, b.words, 1);
    assert LexLess(a.tail, b.tail, 2);
    Less64FixedRefines(a, b);
  }

  // Conversion to bool.

  /** `operator bool`: some word or some tail cell is non-zero, that is, the value is not 0. */
  function ToBool64(x: WordInt): (r: bool)
    requires x.Valid()
    ensures r == ToBool(Abstract(x))
    ensures r <==> AsInt(Abstract(x)) != 0
  {
    AnyNonZeroLayout(x);
    AnyNonZero(x.words, 0) || AnyNonZero(x.tail, 0)
  }

  /** Some word or tail cell is non-zero exactly when the value is not 0. */
  lemma AnyNonZeroLayout(x: WordInt)
    requires x.Valid()
    ensures (AnyNonZero(x.words, 0) || AnyNonZero(x.tail, 0)) <==> AsInt(Abstract(x)) != 0
  {
    var wv, tv, p := WordsValue(x.words), Unsigned(x.tail), Pow256(8 * |x.words|);
    AbstractValue(x);
    SumZero(wv, tv, p);
    assert AnyNonZero(x.words, 0) <==> wv != 0 by { WordsZero(x.words); }
    assert AnyNonZero(x.tail, 0) <==> tv != 0 by { UnsignedZero(x.tail); }
    ZeroReadings(Abstract(x));
  }

  /** A sum a + p * b of naturals with p positive is 0 exactly when both parts are. */
  lemma SumZero(a: nat, b: nat, p: nat)
    requires p >= 1
    ensures a + p * b == 0 <==> a == 0 && b == 0
  {
    if b > 0 {
      assert p * b >= 1;
    }
  }

  /** The signed reading is 0 exactly when the unsigned one is. */
  lemma ZeroReadings(x: BigInt)
    requires x.Valid()
    ensures AsInt(x) == 0 <==> AsNat(x) == 0
  {
    AsNatBound(x);
    SignBitIsUpperHalf(x);
  }

  // Complement.

  /** `~w` on a word: 2^64 - 1 - w. */
  function NotWord(w: Word): (r: Word)
    ensures r == WordModulus - 1 - w
  {
    NotWordValue(w);
    NotBits(w, WordBits)
  }

  lemma NotWordValue(w: Word)
    ensures NotBits(w, WordBits) == WordModulus - 1 - w
  {
    Pow2Word();
    NotBitsValue(w, WordBits);
    DivModUnique(w, WordModulus, 0, w);
  }

  function NotWords(ws: seq<Word>): (r: seq<Word>)
    ensures |r| == |ws|
  {
    if |ws| == 0 then [] else [NotWord(ws[0])] + NotWords(ws[1..])
  }

  /** Complementing every word subtracts the value from 2^(64k) - 1. */
  lemma {:induction false} NotWordsValue(ws: seq<Word>)
    ensures WordsValue(NotWords(ws)) == Pow256(8 * |ws|) - 1 - WordsValue(ws)
  {
    if |ws| > 0 {
      var r := NotWords(ws);
      NotWordsValue(ws[1..]);
      assert r[0] == WordModulus - 1 - ws[0];
      assert r[1..] == NotWords(ws[1..]);
      WordsCons(r);
      WordsCons(ws);
      WordWeight(|ws|);
      ComplementStep(WordModulus, ws[0], r[0], WordsValue(ws[1..]), WordsValue(r[1..]), Pow256(8 * (|ws| - 1)));
    }
  }

  /** `operator~`: every word and every tail cell complemented. */
  function Not64(x: WordInt): (r: WordInt)
    requires x.Valid()
    ensures SameShape(x, r)
    ensures Abstract(r) == Not(Abstract(x))
  {
    var r := WordInt(NotWords(x.words), ComplementCells(x.tail));
    NotRefines(x, r);
    r
  }

  lemma NotRefines(x: WordInt, r: WordInt)
    requires x.Valid() && r == WordInt(NotWords(x.words), ComplementCells(x.tail))
    ensures Abstract(r) == Not(Abstract(x))
  {
    var A, R := Abstract(x), Abstract(r);
    var p, q := Pow256(8 * |x.words|), Pow256(|x.tail|);
    AbstractValue(x);
    AbstractValue(r);
    NotWordsValue(x.words);
    ComplementUnsigned(x.tail);
    NotUnsigned(A);
    ComplementSum(WordsValue(x.words), p, Unsigned(x.tail), q, WordsValue(r.words), Unsigned(r.tail), AsNat(R));
    AsNatInjective(R, Not(A));
  }

  lemma ComplementUnsigned(s: seq<Byte>)
    ensures Unsigned(ComplementCells(s)) == Pow256(|s|) - 1 - Unsigned(s)
  {
    ComplementCellsValue(s);
  }

  /** `~` of the byte layout subtracts the unsigned value from 2^(8n) - 1. */
  lemma NotUnsigned(y: BigInt)
    requires y.Valid()
    ensures AsNat(Not(y)) == Pow256(|y.raw|) - 1 - AsNat(y)
  {
    ComplementUnsigned(y.raw);
  }

  /** The complement of each part adds up to the complement of the whole. */
  lemma ComplementSum(w: int, p: int, u: int, q: int, w': int, u': int, total: int)
    requires w' == p - 1 - w && u' == q - 1 - u && total == w' + p * u'
    ensures total == p * q - 1 - (w + p * u)
  {
    assert p * u' == p * q - p - p * u;
  }

  // The default value, the sign flip and the limits.

  /** `big_int()`: every word and every cell 0. */
  function Zero64(k: nat, t: nat): (r: WordInt)
    requires t < 8 && 8 * k + t >= 1
    ensures r.Valid() && |r.words| == k && |r.tail| == t
    ensures Abstract(r) == Zero(8 * k + t)
  {
    var r := WordInt(seq(k, _ => 0), Fill(0, t));
    FillZero(t);
    UnsignedZero(r.tail);
    WordsZero(r.words);
    AbstractValue(r);
    AsNatInjective(Abstract(r), Zero(8 * k + t));
    r
  }

  /** `u64(1) << 63`, the sign bit of the top word, is 128 cells of weight 256^7. */
  lemma TopWordBit(k: nat)
    requires k >= 1
    ensures Pow256(8 * (k - 1)) * 0x8000_0000_0000_0000 == HalfModulus(8 * k)
  {
    Pow256Word();
    Pow256Add(8 * (k - 1), 7);
    assert 0x8000_0000_0000_0000 == 128 * Pow256(7);
  }

  /**
   * `flipSignBit`: `^= 1 << 7` on the top tail cell when there is a tail,
   * else `^= u64(1) << 63` on the top word.
   */
  function FlipSignBit64(x: WordInt): (r: WordInt)
    requires x.Valid()
    ensures SameShape(x, r)
    ensures Abstract(r) == FlipSignBit(Abstract(x))
  {
    if |x.tail| > 0 then FlipTailSign(x) else FlipWordsSign(x)
  }

  /** The tail case: bit 7 of the top tail cell. */
  function FlipTailSign(x: WordInt): (r: WordInt)
    requires x.Valid() && |x.tail| > 0
    ensures SameShape(x, r)
    ensures Abstract(r) == FlipSignBit(Abstract(x))
  {
    var t := |x.tail|;
    var r := WordInt(x.words, x.tail[..t - 1] + [FlipByteSign(x.tail[t - 1])]);
    FlipTailRefines(x, r);
    r
  }

  /** The case without a tail: bit 63 of the top word. */
  function FlipWordsSign(x: WordInt): (r: WordInt)
    requires x.Valid() && |x.tail| == 0
    ensures SameShape(x, r)
    ensures Abstract(r) == FlipSignBit(Abstract(x))
  {
    var k := |x.words|;
    var r := WordInt(x.words[..k - 1] + [FlipWordSign(x.words[k - 1])], x.tail);
    FlipWordRefines(x, r);
    r
  }

  /** `w ^ (u64(1) << 63)`: bit 63 flipped, that is, 2^63 added modulo 2^64. */
  function FlipWordSign(w: Word): (r: Word)
    ensures r == (w + 0x8000_0000_0000_0000) % WordModulus
  {
    Pow2Word();
    XorTopBit(w, WordBits);
    XorBits(w, 0x8000_0000_0000_0000, WordBits)
  }

  lemma FlipTailRefines(x: WordInt, r: WordInt)
    requires x.Valid() && |x.tail| > 0 && r.words == x.words
    requires |r.tail| == |x.tail| && r.tail[..|x.tail| - 1] == x.tail[..|x.tail| - 1]
    requires r.tail[|x.tail| - 1] == (x.tail[|x.tail| - 1] as int + 128) % 256
    ensures Abstract(r) == FlipSignBit(Abstract(x))
  {
    var A, R, F := Abstract(x), Abstract(r), FlipSignBit(Abstract(x));
    var n := |A.raw|;
    assert R.raw[..n - 1] == Flatten(x.words) + r.tail[..|x.tail| - 1];
    assert A.raw[..n - 1] == Flatten(x.words) + x.tail[..|x.tail| - 1];
    assert R.raw == R.raw[..n - 1] + [R.raw[n - 1]];
    assert F.raw == F.raw[..n - 1] + [F.raw[n - 1]];
  }

  lemma FlipWordRefines(x: WordInt, r: WordInt)
    requires x.Valid() && |x.tail| == 0 && r.tail == x.tail
    requires |r.words| == |x.words| && r.words[..|x.words| - 1] == x.words[..|x.words| - 1]
    requires r.words[|x.words| - 1] == (x.words[|x.words| - 1] + 0x8000_0000_0000_0000) % WordModulus
    ensures Abstract(r) == FlipSignBit(Abstract(x))
  {
    var A, R := Abstract(x), Abstract(r);
    var k := |x.words|;
    assert A.raw == Flatten(x.words);
    assert R.raw == Flatten(r.words);
    assert AsNat(A) == WordsValue(x.words) && AsNat(R) == WordsValue(r.words);
    FlipTopWord(x.words, r.words);
    FlipSignBitValue(A);
    assert |A.raw| == 8 * k;
    AsNatInjective(R, FlipSignBit(A));
  }

  /** Flipping bit 63 of the top word adds half the range, wrapped. */
  lemma FlipTopWord(ws: seq<Word>, rs: seq<Word>)
    requires |ws| >= 1 && |rs| == |ws| && rs[..|ws| - 1] == ws[..|ws| - 1]
    requires rs[|ws| - 1] == (ws[|ws| - 1] + 0x8000_0000_0000_0000) % WordModulus
    ensures WordsValue(rs) == (WordsValue(ws) + HalfModulus(8 * |ws|)) % Pow256(8 * |ws|)
  {
    var k := |ws|;
    var lo, p := WordsValue(ws[..k - 1]), Pow256(8 * (k - 1));
    assert ws[..k] == ws && rs[..k] == rs;
    WordsSnoc(ws, k - 1);
    WordsSnoc(rs, k - 1);
    WordsBound(ws[..k - 1]);
    TopWordWeights(k);
    FlipTopSum(lo, p, ws[k - 1], rs[k - 1], WordsValue(ws), WordsValue(rs), HalfModulus(8 * k), Pow256(8 * k));
  }

  /** Flipping bit 63 of the top word d, in numbers. */
  lemma FlipTopSum(lo: int, p: int, d: int, nd: int, total: int, flipped: int, half: int, range: int)
    requires 0 <= lo < p && 0 <= d < WordModulus && nd == (d + 0x8000_0000_0000_0000) % WordModulus
    requires total == lo + p * d && flipped == lo + p * nd
    requires half == p * (WordModulus / 2) && range == p * WordModulus
    ensures flipped == (total + half) % range
  {
    FlipValue(lo, p, d, WordModulus, nd, total, flipped, half, range);
  }

  /** The weight of the top word: 2^(64(k-1)) times 2^64 is the range, times 2^63 half of it. */
  lemma TopWordWeights(k: nat)
    requires k >= 1
    ensures Pow256(8 * (k - 1)) * WordModulus == Pow256(8 * k)
    ensures Pow256(8 * (k - 1)) * (WordModulus / 2) == HalfModulus(8 * k)
  {
    Pow256Word();
    Pow256Add(8 * (k - 1), 8);
    TopWordBit(k);
  }

  /** `numeric_limits::min()` and `lowest()`: the default value with its sign bit flipped. */
  function Min64(k: nat, t: nat): (r: WordInt)
    requires t < 8 && 8 * k + t >= 1
    ensures r.Valid() && |r.words| == k && |r.tail| == t
    ensures Abstract(r) == Min(8 * k + t)
  {
    FlipSignBit64(Zero64(k, t))
  }

  /** `numeric_limits::max()`: the complement of the minimum. */
  function Max64(k: nat, t: nat): (r: WordInt)
    requires t < 8 && 8 * k + t >= 1
    ensures r.Valid() && |r.words| == k && |r.tail| == t
    ensures Abstract(r) == Max(8 * k + t)
  {
    Not64(Min64(k, t))
  }

  /** The limits of the draft hold -2^(8n-1) and 2^(8n-1) - 1. */
  lemma LimitsValue64(k: nat, t: nat)
    requires t < 8 && 8 * k + t >= 1
    ensures AsInt(Abstract(Min64(k, t))) == -HalfModulus(8 * k + t)
    ensures AsInt(Abstract(Max64(k, t))) == HalfModulus(8 * k + t) - 1
    ensures Less64Fixed(Min64(k, t), Max64(k, t))
  {
    Less64FixedRefines(Min64(k, t), Max64(k, t));
  }
}
