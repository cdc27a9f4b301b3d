/**
 * The arithmetic of the word-packed draft (`big_int64.hpp`): `increment`,
 * `decrement`, `negate`, `abs`, `+`, `-` and construction from a native
 * integer. The loops run over the words first, then carry into the tail
 * cells, which is the significance order, so each operation agrees with
 * the byte layout's.
 *
 * The word loops start with a do-while on word 0, and construction writes
 * word 0: with `size < 8` there is no word and these read past the end of
 * an empty array, so they are modelled for `size >= 8` only.
 *
 * `operator=` runs the same `big_int_init` on the old cells: for a
 * negative value every cell is written, for a non-negative one only word 0,
 * so the words and tail cells above it keep their old contents.
 */
module WordArith {
  import opened Arith
  import opened Bits
  import opened Bytes
  import opened Util
  import opened BigInts
  import opened Bitwise
  import opened Arithmetic
  import opened Construct
  import opened WordLayout

  /** The carry or borrow out of the words, moved into the tail, rebuilds the whole value. */
  lemma Recombine(w: int, p: int, c: int, s: int, q: int, u: int, total: int)
    requires 0 <= w < p && q >= 1
    requires u == (s + c) % q && total == w + p * u
    ensures total == (w + p * c + p * s) % (p * q)
  {
    ModShift(w, s + c, p, q);
    assert p * (s + c) == p * c + p * s;
  }

  /**
   * A result whose words are off by c times 2^(64k) from the original words
   * plus d, and whose tail took that carry c, holds the original value plus
   * d, modulo 2^(8n).
   */
  lemma CarriedIntoTail(x: WordInt, r: WordInt, d: int, c: int)
    requires SameShape(x, r)
    requires WordsValue(r.words) + Pow256(8 * |x.words|) * c == WordsValue(x.words) + d
    requires Unsigned(r.tail) == (Unsigned(x.tail) + c) % Pow256(|x.tail|)
    ensures AsNat(Abstract(r)) == (AsNat(Abstract(x)) + d) % Pow256(x.Size())
  {
    var p, q := Pow256(8 * |x.words|), Pow256(|x.tail|);
    AbstractValue(x);
    AbstractValue(r);
    WordsBound(r.words);
    Recombine(WordsValue(r.words), p, c, Unsigned(x.tail), q, Unsigned(r.tail), AsNat(Abstract(r)));
  }

  /**
   * One word of a ripple (carry, borrow or sum), in numbers: the word and
   * its carry out, and the words above with the carry left.
   */
  lemma RippleStep(a0: int, b0: int, c: int, w: int, cout: int, ua: int, ub: int, rest: int, last: int, p: int)
    requires w + WordModulus * cout == a0 + b0 + c
    requires rest + p * last == ua + ub + cout
    ensures (w + WordModulus * rest) + (WordModulus * p) * last
         == (a0 + WordModulus * ua) + (b0 + WordModulus * ub) + c
  {
    assert WordModulus * (rest + p * last) == WordModulus * (ua + ub + cout);
  }

  /** Adding one or subtracting one to a word wraps at most once, and the comparison with the old word tells. */
  lemma WrapStep(a: Word, d: int, w: int, c: int)
    requires d == 1 || d == -1
    requires w == (a + d) % WordModulus
    requires c == (if d == 1 then (if a > w then 1 else 0) else (if a < w then -1 else 0))
    ensures w + WordModulus * c == a + d
  {
    if a + d == WordModulus {
      DivModUnique(a + d, WordModulus, 1, 0);
    } else if a + d == -1 {
      DivModUnique(a + d, WordModulus, -1, WordModulus - 1);
    } else {
      DivModUnique(a + d, WordModulus, 0, a + d);
    }
  }

  // Increment and decrement.

  /**
   * The do-while of `increment` over the words: add one to the word; a
   * word that wrapped (its old value is above the new one) carries into the
   * next word while words remain. The second component is the carry left.
   */
  function IncWords(ws: seq<Word>): (r: (seq<Word>, bool))
    requires |ws| >= 1
    ensures |r.0| == |ws|
  {
    var w := (ws[0] + 1) % WordModulus;
    if ws[0] > w && |ws| > 1 then
      var rest := IncWords(ws[1..]);
      ([w] + rest.0, rest.1)
    else ([w] + ws[1..], ws[0] > w)
  }

  /** The words plus one, with the carry out weighing 2^(64k). */
  lemma {:induction false} IncWordsValue(ws: seq<Word>)
    requires |ws| >= 1
    ensures WordsValue(IncWords(ws).0) + Pow256(8 * |ws|) * CarryValue(IncWords(ws).1) == WordsValue(ws) + 1
  {
    var r := IncWords(ws);
    var w: int := (ws[0] + 1) % WordModulus;
    var p := Pow256(8 * (|ws| - 1));
    if ws[0] > w && |ws| > 1 {
      IncWordsValue(ws[1..]);
      assert r.0[1..] == IncWords(ws[1..]).0 && r.1 == IncWords(ws[1..]).1;
    } else if ws[0] > w {
      assert WordsValue(r.0[1..]) + p * CarryValue(r.1) == WordsValue(ws[1..]) + 1;
    } else {
      assert r.0[1..] == ws[1..] && !r.1;
    }
    IncCombine(ws, r.0, r.1);
  }

  /** One step of the increment ripple: word 0 takes the one, the words above take its carry. */
  lemma IncCombine(ws: seq<Word>, rs: seq<Word>, carry: bool)
    requires |ws| >= 1 && |rs| == |ws| && rs[0] == (ws[0] + 1) % WordModulus
    requires WordsValue(rs[1..]) + Pow256(8 * (|ws| - 1)) * CarryValue(carry)
          == WordsValue(ws[1..]) + (if ws[0] > rs[0] then 1 else 0)
    ensures WordsValue(rs) + Pow256(8 * |ws|) * CarryValue(carry) == WordsValue(ws) + 1
  {
    WordsCons(ws);
    WordsCons(rs);
    WordWeight(|ws|);
    IncStep(ws[0], rs[0], WordsValue(ws[1..]), WordsValue(rs[1..]), CarryValue(carry), Pow256(8 * (|ws| - 1)));
  }

  /** The arithmetic of one increment step, on plain numbers. */
  lemma IncStep(a: Word, w: int, ua: int, rest: int, c: int, p: int)
    requires w == (a + 1) % WordModulus
    requires rest + p * c == ua + (if a > w then 1 else 0)
    ensures (w + WordModulus * rest) + (WordModulus * p) * c == (a + WordModulus * ua) + 1
  {
    var cc := if a > w then 1 else 0;
    WrapStep(a, 1, w, cc);
    RippleStep(a, 0, 1, w, cc, ua, 0, rest, c, p);
  }

  /** `increment`: the words, then the tail cells while the carry lasts. */
  function Increment64(x: WordInt): (r: WordInt)
    requires x.Valid() && |x.words| >= 1
    ensures SameShape(x, r)
    ensures Abstract(r) == Increment(Abstract(x))
  {
    var inc := IncWords(x.words);
    var r := WordInt(inc.0, if inc.1 && |x.tail| > 0 then IncCells(x.tail) else x.tail);
    IncRefines(x, r);
    r
  }

  lemma IncRefines(x: WordInt, r: WordInt)
    requires x.Valid() && |x.words| >= 1
    requires r == WordInt(IncWords(x.words).0, if IncWords(x.words).1 && |x.tail| > 0 then IncCells(x.tail) else x.tail)
    ensures Abstract(r) == Increment(Abstract(x))
  {
    IncValue(x, r);
    ByValue(Abstract(x), Abstract(r), 1);
  }

  /** The words and tail after `increment` read as the old value plus one, wrapped. */
  lemma IncValue(x: WordInt, r: WordInt)
    requires x.Valid() && |x.words| >= 1
    requires r == WordInt(IncWords(x.words).0, if IncWords(x.words).1 && |x.tail| > 0 then IncCells(x.tail) else x.tail)
    ensures AsNat(Abstract(r)) == (AsNat(Abstract(x)) + 1) % Pow256(x.Size())
  {
    var c := CarryValue(IncWords(x.words).1);
    IncWordsValue(x.words);
    TailTakesCarry(x.tail, r.tail, c);
    CarriedIntoTail(x, r, 1, c);
  }

  /** Cells reading the value plus one (minus one), wrapped, are `++` (`--`) of it. */
  lemma ByValue(x: BigInt, r: BigInt, d: int)
    requires x.Valid() && |r.raw| == |x.raw| && (d == 1 || d == -1)
    requires AsNat(r) == (AsNat(x) + d) % Pow256(|x.raw|)
    ensures d == 1 ==> r == Increment(x)
    ensures d == -1 ==> r == Decrement(x)
  {
    ShiftedEncoding(x, r, d);
  }

  /** An empty tail takes no carry: every reading is 0 modulo 1. */
  lemma EmptyTail(tail: seq<Byte>, after: seq<Byte>, c: int)
    requires |tail| == 0 && after == tail
    ensures Unsigned(after) == (Unsigned(tail) + c) % Pow256(|tail|)
  {
    assert Pow256(0) == 1;
    DivModUnique(c, 1, c, 0);
  }

  /** A tail the carry loop does not reach keeps its reading. */
  lemma UnchangedTail(tail: seq<Byte>)
    ensures Unsigned(tail) == (Unsigned(tail) + 0) % Pow256(|tail|)
  {
    UnsignedBound(tail);
    DivModUnique(Unsigned(tail), Pow256(|tail|), 0, Unsigned(tail));
  }

  /** The tail after the carry loop holds the tail plus the carry, wrapped. */
  lemma TailTakesCarry(tail: seq<Byte>, after: seq<Byte>, c: int)
    requires 0 <= c <= 1
    requires after == if c == 1 && |tail| > 0 then IncCells(tail) else tail
    ensures Unsigned(after) == (Unsigned(tail) + c) % Pow256(|tail|)
  {
    if |tail| == 0 {
      EmptyTail(tail, after, c);
    } else if c == 1 {
      IncCellsValue(tail);
    } else {
      UnchangedTail(tail);
    }
  }

  /**
   * The do-while of `decrement` over the words: subtract one; a word that
   * wrapped (its old value is below the new one) borrows from the next word
   * while words remain. The second component is the borrow left.
   */
  function DecWords(ws: seq<Word>): (r: (seq<Word>, bool))
    requires |ws| >= 1
    ensures |r.0| == |ws|
  {
    var w := (ws[0] - 1) % WordModulus;
    if ws[0] < w && |ws| > 1 then
      var rest := DecWords(ws[1..]);
      ([w] + rest.0, rest.1)
    else ([w] + ws[1..], ws[0] < w)
  }

  /** The words minus one, with the borrow weighing 2^(64k). */
  lemma {:induction false} DecWordsValue(ws: seq<Word>)
    requires |ws| >= 1
    ensures WordsValue(DecWords(ws).0) - Pow256(8 * |ws|) * CarryValue(DecWords(ws).1) == WordsValue(ws) - 1
  {
    var r := DecWords(ws);
    var w: int := (ws[0] as int - 1) % WordModulus;
    var bb: int := if ws[0] < w then 1 else 0;
    WrapStep(ws[0], -1, w, -bb);
    WordsCons(ws);
    WordsCons(r.0);
    WordWeight(|ws|);
    var p := Pow256(8 * (|ws| - 1));
    var rest, ua, b := WordsValue(r.0[1..]), WordsValue(ws[1..]), CarryValue(r.1);
    if ws[0] < w && |ws| > 1 {
      DecWordsValue(ws[1..]);
      assert r.0[1..] == DecWords(ws[1..]).0;
    } else {
      assert r.0[1..] == ws[1..];
    }
    assert rest - p * b == ua - bb;
    BorrowStep(ws[0], w, bb, ua, rest, b, p);
  }

  /** One word of the borrow ripple, with every quantity a parameter. */
  lemma BorrowStep(a0: int, w: int, bb: int, ua: int, rest: int, b: int, p: int)
    requires w - WordModulus * bb == a0 - 1
    requires rest - p * b == ua - bb
    ensures (w + WordModulus * rest) - (WordModulus * p) * b == (a0 + WordModulus * ua) - 1
  {
    assert WordModulus * (rest - p * b) == WordModulus * (ua - bb);
  }

  /** `decrement`: the words, then the tail cells while the borrow lasts. */
  function Decrement64(x: WordInt): (r: WordInt)
    requires x.Valid() && |x.words| >= 1
    ensures SameShape(x, r)
    ensures Abstract(r) == Decrement(Abstract(x))
  {
    var dec := DecWords(x.words);
    var r := WordInt(dec.0, if dec.1 && |x.tail| > 0 then DecCells(x.tail) else x.tail);
    DecRefines(x, r);
    r
  }

  lemma DecRefines(x: WordInt, r: WordInt)
    requires x.Valid() && |x.words| >= 1
    requires r == WordInt(DecWords(x.words).0, if DecWords(x.words).1 && |x.tail| > 0 then DecCells(x.tail) else x.tail)
    ensures Abstract(r) == Decrement(Abstract(x))
  {
    DecValue(x, r);
    ByValue(Abstract(x), Abstract(r), -1);
  }

  /** The words and tail after `decrement` read as the old value minus one, wrapped. */
  lemma DecValue(x: WordInt, r: WordInt)
    requires x.Valid() && |x.words| >= 1
    requires r == WordInt(DecWords(x.words).0, if DecWords(x.words).1 && |x.tail| > 0 then DecCells(x.tail) else x.tail)
    ensures AsNat(Abstract(r)) == (AsNat(Abstract(x)) + -1) % Pow256(x.Size())
  {
    var b := CarryValue(DecWords(x.words).1);
    DecWordsValue(x.words);
    TailTakesBorrow(x.tail, r.tail, b);
    CarriedIntoTail(x, r, -1, -b);
  }

  /** The tail after the borrow loop holds the tail minus the borrow, wrapped. */
  lemma TailTakesBorrow(tail: seq<Byte>, after: seq<Byte>, b: int)
    requires 0 <= b <= 1
    requires after == if b == 1 && |tail| > 0 then DecCells(tail) else tail
    ensures Unsigned(after) == (Unsigned(tail) + -b) % Pow256(|tail|)
  {
    if |tail| == 0 {
      EmptyTail(tail, after, -b);
    } else if b == 1 {
      DecCellsValue(tail);
    } else {
      UnchangedTail(tail);
    }
  }

  /** `++` then `--` gives the original layout back, and so does `--` then `++`. */
  lemma IncrementDecrement64(x: WordInt)
    requires x.Valid() && |x.words| >= 1
    ensures Decrement64(Increment64(x)) == x
    ensures Increment64(Decrement64(x)) == x
  {
    IncrementDecrement(Abstract(x));
    SameCellsSameLayout(Decrement64(Increment64(x)), x);
    SameCellsSameLayout(Increment64(Decrement64(x)), x);
  }

  // Negation and absolute value.

  /** `negate` and unary `-`: complement every word and cell, then `increment`. */
  function Negate64(x: WordInt): (r: WordInt)
    requires x.Valid() && |x.words| >= 1
    ensures SameShape(x, r)
    ensures Abstract(r) == Negate(Abstract(x))
  {
    Increment64(Not64(x))
  }

  /** `abs`: negate when negative. */
  function Abs64(x: WordInt): (r: WordInt)
    requires x.Valid() && |x.words| >= 1
    ensures SameShape(x, r)
    ensures Abstract(r) == Abs(Abstract(x))
  {
    if IsNegative64(x) then Negate64(x) else x
  }

  // Addition and subtraction.

  /**
   * One word of `operator+`: the two words summed modulo 2^64, then the
   * carry added modulo 2^64, with the two overflow tests of the source
   * (the new value fell below an operand, below the sum).
   */
  datatype WordStep = WordStep(word: Word, overflowedOnSum: bool, overflowedOnCarry: bool)
  {
    function CarryOut(): bool
    {
      overflowedOnSum || overflowedOnCarry
    }
  }

  function AddWord(a: Word, b: Word, carry: bool): (r: WordStep)
    ensures r.overflowedOnSum <==> a + b >= WordModulus
    ensures !(r.overflowedOnSum && r.overflowedOnCarry)
    ensures r.word + WordModulus * CarryValue(r.CarryOut()) == a + b + CarryValue(carry)
  {
    var summed := (a + b) % WordModulus;
    var word := (summed + CarryValue(carry)) % WordModulus;
    WordStep(word, summed < a || summed < b, word < summed)
  }

  /** The word loop of `operator+`, with the carry left after the last word. */
  function AddWords(a: seq<Word>, b: seq<Word>, carry: bool): (r: (seq<Word>, bool))
    requires |a| == |b|
    ensures |r.0| == |a|
  {
    if |a| == 0 then ([], carry)
    else
      var step := AddWord(a[0], b[0], carry);
      var rest := AddWords(a[1..], b[1..], step.CarryOut());
      ([step.word] + rest.0, rest.1)
  }

  /** The words of the sum plus the carry out weighing 2^(64k) are the two values plus the carry in. */
  lemma {:induction false} AddWordsValue(a: seq<Word>, b: seq<Word>, carry: bool)
    requires |a| == |b|
    ensures WordsValue(AddWords(a, b, carry).0) + Pow256(8 * |a|) * CarryValue(AddWords(a, b, carry).1)
         == WordsValue(a) + WordsValue(b) + CarryValue(carry)
  {
    if |a| > 0 {
      var step := AddWord(a[0], b[0], carry);
      var rest := AddWords(a[1..], b[1..], step.CarryOut());
      var r := AddWords(a, b, carry);
      AddWordsValue(a[1..], b[1..], step.CarryOut());
      assert r.0[1..] == rest.0;
      WordsCons(a);
      WordsCons(b);
      WordsCons(r.0);
      WordWeight(|a|);
      RippleStep(a[0], b[0], CarryValue(carry), step.word, CarryValue(step.CarryOut()),
                 WordsValue(a[1..]), WordsValue(b[1..]), WordsValue(rest.0), CarryValue(rest.1),
                 Pow256(8 * (|a| - 1)));
    }
  }

  /** `operator+`: the words with the source's carry tests, then the tail cells with the carry left. */
  function Add64(a: WordInt, b: WordInt): (r: WordInt)
    requires SameShape(a, b)
    ensures SameShape(a, r)
    ensures Abstract(r) == Add(Abstract(a), Abstract(b))
  {
    var sum := AddWords(a.words, b.words, false);
    var r := WordInt(sum.0, AddCells(a.tail, b.tail, sum.1));
    AddRefines(a, b, r);
    r
  }

  lemma AddRefines(a: WordInt, b: WordInt, r: WordInt)
    requires SameShape(a, b)
    requires r == WordInt(AddWords(a.words, b.words, false).0, AddCells(a.tail, b.tail, AddWords(a.words, b.words, false).1))
    ensures Abstract(r) == Add(Abstract(a), Abstract(b))
  {
    var carry := AddWords(a.words, b.words, false).1;
    AddWordsValue(a.words, b.words, false);
    AddCellsValue(a.tail, b.tail, carry);
    AddValue(a, b, r, CarryValue(carry));
    AsNatInjective(Abstract(r), Add(Abstract(a), Abstract(b)));
  }

  /**
   * Words that sum the operands' words up to a carry c out of the top word,
   * and a tail that sums the tails plus c, read as the sum of the values, wrapped.
   */
  lemma AddValue(a: WordInt, b: WordInt, r: WordInt, c: int)
    requires SameShape(a, b) && SameShape(a, r)
    requires WordsValue(r.words) + Pow256(8 * |a.words|) * c == WordsValue(a.words) + WordsValue(b.words) + CarryValue(false)
    requires Unsigned(r.tail) == (Unsigned(a.tail) + Unsigned(b.tail) + c) % Pow256(|a.tail|)
    ensures AsNat(Abstract(r)) == (AsNat(Abstract(a)) + AsNat(Abstract(b))) % Pow256(a.Size())
  {
    var A, B, R := Abstract(a), Abstract(b), Abstract(r);
    var k, t := |a.words|, |a.tail|;
    var p, q := Pow256(8 * k), Pow256(t);
    assert CarryValue(false) == 0;
    AbstractValue(a);
    AbstractValue(b);
    AbstractValue(r);
    WordsBound(r.words);
    var wr, ua, ub, ur := WordsValue(r.words), Unsigned(a.tail), Unsigned(b.tail), Unsigned(r.tail);
    AddCombine(wr, p, c, ua, ub, q, ur, WordsValue(a.words), WordsValue(b.words), AsNat(R), AsNat(A), AsNat(B));
  }

  /** The sum's words, with the carry moved into the summed tails, make the sum of the values, wrapped. */
  lemma AddCombine(wr: int, p: int, c: int, ua: int, ub: int, q: int, ur: int, wa: int, wb: int,
                   total: int, va: int, vb: int)
    requires 0 <= wr < p && q >= 1 && wr + p * c == wa + wb + 0
    requires ur == (ua + ub + c) % q && total == wr + p * ur
    requires va == wa + p * ua && vb == wb + p * ub
    ensures total == (va + vb) % (p * q)
  {
    Recombine(wr, p, c, ua + ub, q, ur, total);
    assert p * (ua + ub) == p * ua + p * ub;
  }

  /** `operator-`: `*this + (-other)`. */
  function Sub64(a: WordInt, b: WordInt): (r: WordInt)
    requires SameShape(a, b) && |a.words| >= 1
    ensures SameShape(a, r)
    ensures Abstract(r) == Sub(Abstract(a), Abstract(b))
  {
    Add64(a, Negate64(b))
  }

  // Construction from a native integer.

  /** Words all `~u64(0)`: 2^(64m) - 1. */
  lemma {:induction false} AllOnesWords(m: nat)
    ensures WordsValue(seq(m, _ => WordModulus - 1)) == Pow256(8 * m) - 1
  {
    var ws: seq<Word> := seq(m, _ => WordModulus - 1);
    if m > 0 {
      AllOnesWords(m - 1);
      assert ws[1..] == seq(m - 1, _ => WordModulus - 1);
      WordsCons(ws);
      Pow256Word();
      Pow256Add(8, 8 * (m - 1));
    }
  }

  /**
   * `big_int_init` on the cells of x: word 0 takes `a` converted to `u64`;
   * for a negative `a` every other word becomes `~u64(0)` and every tail
   * cell `~u8(0)`; for a non-negative one nothing else is written.
   */
  function InitOn(x: WordInt, v: int): (r: WordInt)
    requires x.Valid() && |x.words| >= 1
    ensures SameShape(x, r)
  {
    var k, t := |x.words|, |x.tail|;
    var w0: Word := v % WordModulus;
    if v < 0 then WordInt([w0] + seq(k - 1, _ => WordModulus - 1), Fill(0xFF, t))
    else WordInt([w0] + x.words[1..], x.tail)
  }

  /** What the template demands of `T`: integral, at most eight bytes, no wider than the `big_int`. */
  predicate Fits(k: nat, t: nat, ty: IntType)
  {
    t < 8 && k >= 1 && ty.Valid() && ty.bytes <= 8 && 8 * k + t >= ty.bytes
  }

  /** `big_int(T a)`: `big_int_init` on the default (all-zero) value. */
  function Init64(k: nat, t: nat, ty: IntType, v: int): (r: WordInt)
    requires Fits(k, t, ty) && ty.Holds(v)
    ensures r.Valid() && |r.words| == k && |r.tail| == t
  {
    InitOn(Zero64(k, t), v)
  }

  /** The cells above word 0 after `big_int_init` of a negative value: 2^(8n-64) - 1. */
  lemma InitFillValue(k: nat, t: nat)
    requires k >= 1 && t < 8
    ensures WordsValue(seq(k - 1, _ => WordModulus - 1)) + Pow256(8 * (k - 1)) * Unsigned(Fill(0xFF, t))
         == Pow256(8 * k + t - 8) - 1
  {
    AllOnesWords(k - 1);
    FillFF(t);
    Pow256Add(8 * (k - 1), t);
    ComplementSum(0, Pow256(8 * (k - 1)), 0, Pow256(t), Pow256(8 * (k - 1)) - 1, Pow256(t) - 1,
                  Pow256(8 * (k - 1)) - 1 + Pow256(8 * (k - 1)) * (Pow256(t) - 1));
  }

  /** The value of a layout by word 0 and the rest. */
  lemma SplitLowWord(x: WordInt)
    requires x.Valid() && |x.words| >= 1
    ensures AsNat(Abstract(x)) == x.words[0] + WordModulus *
      (WordsValue(x.words[1..]) + Pow256(8 * (|x.words| - 1)) * Unsigned(x.tail))
    ensures Pow256(x.Size()) == WordModulus * Pow256(x.Size() - 8)
  {
    var k := |x.words|;
    AbstractValue(x);
    WordsCons(x.words);
    WordWeight(k);
    LowWordSum(x.words[0], WordsValue(x.words[1..]), Pow256(8 * (k - 1)), Unsigned(x.tail),
               WordsValue(x.words), Pow256(8 * k));
    Pow256Add(8, x.Size() - 8);
    Pow256Word();
  }

  lemma LowWordSum(w0: int, rest: int, p: int, u: int, words: int, pk: int)
    requires words == w0 + WordModulus * rest && pk == WordModulus * p
    ensures words + pk * u == w0 + WordModulus * (rest + p * u)
  {
    assert pk * u == WordModulus * (p * u);
  }

  /** A native value fits in a word as a signed or unsigned 64-bit value. */
  lemma HoldsInWord(ty: IntType, v: int)
    requires ty.Valid() && ty.bytes <= 8 && ty.Holds(v)
    ensures -WordModulus <= v < WordModulus
  {
    Pow256Word();
    Pow256Add(ty.bytes, 8 - ty.bytes);
    MulLe(Pow256(ty.bytes), 1, Pow256(8 - ty.bytes));
  }

  /** The constructor gives the sign-extended value: the byte layout's intended conversion. */
  lemma Init64Refines(k: nat, t: nat, ty: IntType, v: int)
    requires Fits(k, t, ty) && ty.Holds(v)
    ensures Abstract(Init64(k, t, ty, v)) == Encode(8 * k + t, v)
    ensures Abstract(Init64(k, t, ty, v)) == FromInt(8 * k + t, ty, v)
  {
    Init64Value(k, t, ty, v);
    EncodeByValue(Abstract(Init64(k, t, ty, v)), v);
    FromIntValue(8 * k + t, ty, v);
  }

  lemma Init64Value(k: nat, t: nat, ty: IntType, v: int)
    requires Fits(k, t, ty) && ty.Holds(v)
    ensures AsNat(Abstract(Init64(k, t, ty, v))) == v % Pow256(8 * k + t)
  {
    HoldsInWord(ty, v);
    InitFill(k, t, ty, v);
    SignExtendedValue(Init64(k, t, ty, v), v, k, t);
  }

  /** Word 0 holding v mod 2^64 and the rest holding v's sign extension read as v, wrapped. */
  lemma SignExtendedValue(r: WordInt, v: int, k: nat, t: nat)
    requires r.Valid() && |r.words| == k && |r.tail| == t
    requires k >= 1 && -WordModulus <= v < WordModulus
    requires r.words[0] == v % WordModulus
    requires WordsValue(r.words[1..]) + Pow256(8 * (k - 1)) * Unsigned(r.tail)
          == (if v < 0 then Pow256(8 * k + t - 8) - 1 else 0)
    ensures AsNat(Abstract(r)) == v % Pow256(8 * k + t)
  {
    var fill := WordsValue(r.words[1..]) + Pow256(8 * (k - 1)) * Unsigned(r.tail);
    SplitLowWord(r);
    assert r.Size() == 8 * k + t;
    SignExtendSum(v, WordModulus, Pow256(8 * k + t - 8), fill);
  }

  /** Above word 0 the constructor leaves all ones for a negative value and zeros otherwise. */
  lemma InitFill(k: nat, t: nat, ty: IntType, v: int)
    requires Fits(k, t, ty) && ty.Holds(v)
    ensures var r := Init64(k, t, ty, v);
      r.words[0] == v % WordModulus &&
      WordsValue(r.words[1..]) + Pow256(8 * (k - 1)) * Unsigned(r.tail)
        == (if v < 0 then Pow256(8 * k + t - 8) - 1 else 0)
  {
    var z, r := Zero64(k, t), Init64(k, t, ty, v);
    if v < 0 {
      assert r.words[1..] == seq(k - 1, _ => WordModulus - 1) && r.tail == Fill(0xFF, t);
      InitFillValue(k, t);
    } else {
      assert r.words[1..] == z.words[1..] && r.tail == z.tail;
      assert z.words[1..] == seq(k - 1, _ => 0);
      WordsZero(z.words[1..]);
      FillZero(t);
    }
  }

  /** `zero()` and `one()`: the constructor from `u8(0)` and `u8(1)`. */
  lemma Factories64(k: nat, t: nat)
    requires t < 8 && k >= 1
    ensures Abstract(Init64(k, t, U8, 0)) == Zero(8 * k + t)
    ensures AsInt(Abstract(Init64(k, t, U8, 1))) == 1
  {
    var n := 8 * k + t;
    Init64Refines(k, t, U8, 0);
    Init64Refines(k, t, U8, 1);
    EncodeAsInt(Zero(n));
    EncodeSigned(n, 1);
  }

  /** `operator=(T a)`: `big_int_init` on the old cells. */
  function Assign64(x: WordInt, ty: IntType, v: int): (r: WordInt)
    requires Fits(|x.words|, |x.tail|, ty) && ty.Holds(v)
    ensures SameShape(x, r)
  {
    InitOn(x, v)
  }

  /** Assigning a negative value writes every cell: the result is v, whatever x held. */
  lemma AssignNegative64(x: WordInt, ty: IntType, v: int)
    requires Fits(|x.words|, |x.tail|, ty) && ty.Holds(v) && v < 0
    ensures Assign64(x, ty, v) == Init64(|x.words|, |x.tail|, ty, v)
  {
  }

  /**
   * Assigning a non-negative value gives v exactly when the words above
   * word 0 and the tail cells of x were already zero.
   */
  lemma AssignNonNegative64(x: WordInt, ty: IntType, v: int)
    requires Fits(|x.words|, |x.tail|, ty) && ty.Holds(v) && v >= 0
    ensures Assign64(x, ty, v) == Init64(|x.words|, |x.tail|, ty, v)
        <==> x.words[1..] == Zero64(|x.words|, |x.tail|).words[1..] && x.tail == Zero64(|x.words|, |x.tail|).tail
  {
    var z := Zero64(|x.words|, |x.tail|);
    var a, i := Assign64(x, ty, v), Init64(|x.words|, |x.tail|, ty, v);
    assert a.words[1..] == x.words[1..] && i.words[1..] == z.words[1..];
    if a == i {
      assert x.words[1..] == a.words[1..];
    }
  }

  /**
   * A concrete witness, `size == 16`: after `x = -1`, `x = 5` leaves word 1
   * all ones, so x holds 5 - 2^64 instead of 5.
   */
  lemma Assign64Keeps()
    ensures var i32 := IntType(4, true);
      var x := Init64(2, 0, i32, -1);
      Assign64(x, i32, 5).words == [5, WordModulus - 1]
        && Assign64(x, i32, 5) != Init64(2, 0, i32, 5)
  {
    var i32 := IntType(4, true);
    assert HalfModulus(4) == 0x8000_0000 by {
      assert Pow256(3) == 0x100_0000;
    }
    var x := Init64(2, 0, i32, -1);
    assert x.words == [WordModulus - 1, WordModulus - 1];
    assert Init64(2, 0, i32, 5).words == [5, 0];
  }
}
