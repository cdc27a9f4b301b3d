/**
 * Small facts of integer arithmetic shared by the byte and the word layout:
 * uniqueness of quotient and remainder, and how a remainder modulo
 * `base * m` splits into a low digit and a remainder modulo `m`.
 */
module Arith {

  lemma MulLe(a: int, b: int, c: int)
    requires a >= 0 && b <= c
    ensures a * b <= a * c
  {
  }

  lemma MulLt(a: int, b: int, c: int)
    requires a > 0 && b < c
    ensures a * b < a * c
  {
  }

  /** Every x splits into its quotient and remainder by m. */
  lemma DivModSplit(x: int, m: int)
    requires m > 0
    ensures x == (x / m) * m + x % m && 0 <= x % m < m
  {
  }

  /** Quotient and remainder are determined by any decomposition `x == q * m + r`. */
  lemma DivModUnique(x: int, m: int, q: int, r: int)
    requires m > 0 && 0 <= r < m && x == q * m + r
    ensures x / m == q && x % m == r
  {
    var q', r' := x / m, x % m;
    assert x == q' * m + r';
    if q' < q {
      MulLe(m, q' + 1, q);
      assert false;
    } else if q < q' {
      MulLe(m, q + 1, q');
      assert false;
    }
  }

  /** Dividing by `base * m` peels off the low digit `lo` first. */
  lemma ModShift(lo: int, x: int, base: int, m: int)
    requires 0 <= lo < base && m > 0
    ensures (lo + base * x) % (base * m) == lo + base * (x % m)
    ensures (lo + base * x) / (base * m) == x / m
  {
    var q, r := x / m, x % m;
    assert x == q * m + r;
    assert base * x == q * (base * m) + base * r;
    MulLe(base, r, m - 1);
    assert 0 <= lo + base * r < base * m;
    DivModUnique(lo + base * x, base * m, q, lo + base * r);
  }

  /** A number below `p` plus `p` times a bigger digit beats one with a smaller digit. */
  lemma DigitDecides(lowA: int, lowB: int, p: int, da: int, db: int)
    requires 0 <= lowA < p && 0 <= lowB < p && da < db
    ensures lowA + p * da < lowB + p * db
  {
    MulLe(p, da + 1, db);
  }

  /** Remainders can be taken before adding. */
  lemma ModSum(x: int, y: int, m: int)
    requires m > 0
    ensures (x + y) % m == (x % m + y % m) % m
  {
    var qx, rx := x / m, x % m;
    var qy, ry := y / m, y % m;
    var q, r := (rx + ry) / m, (rx + ry) % m;
    assert x + y == (qx + qy + q) * m + r;
    DivModUnique(x + y, m, qx + qy + q, r);
  }

  /** Adding a multiple of m does not change the remainder. */
  lemma ModMultiple(x: int, k: int, m: int)
    requires m > 0
    ensures (x + k * m) % m == x % m
  {
    DivModUnique(x + k * m, m, x / m + k, x % m);
  }

  /** Congruent numbers have congruent negations. */
  lemma ModNeg(x: int, y: int, m: int)
    requires m > 0 && x % m == y % m
    ensures (-x) % m == (-y) % m
  {
    var qx, qy := x / m, y / m;
    assert x == m * qx + x % m && y == m * qy + y % m;
    if x % m == 0 {
      DivModUnique(-x, m, -qx, 0);
      DivModUnique(-y, m, -qy, 0);
    } else {
      DivModUnique(-x, m, -qx - 1, m - x % m);
      DivModUnique(-y, m, -qy - 1, m - y % m);
    }
  }

  /** Dividing twice is dividing by the product. */
  lemma DivDiv(x: int, b: int, c: int)
    requires x >= 0 && b > 0 && c > 0
    ensures (x / b) / c == x / (b * c)
  {
    var q1, r1 := x / b, x % b;
    var q2, r2 := q1 / c, q1 % c;
    assert x == q2 * (b * c) + (r2 * b + r1);
    MulLe(b, r2, c - 1);
    DivModUnique(x, b * c, q2, r2 * b + r1);
  }

  /** A factor can be applied before or after reducing modulo m. */
  lemma ModScale(x: int, f: int, m: int)
    requires m > 0
    ensures (f * (x % m)) % m == (f * x) % m
  {
    var q := x / m;
    assert f * x == f * (x % m) + (f * q) * m;
    ModMultiple(f * (x % m), f * q, m);
  }

  /** Complementing the low digit and the digits above it complements the whole number. */
  lemma ComplementStep(m: int, w: int, nw: int, u: int, nu: int, p: int)
    requires nw == m - 1 - w && nu == p - 1 - u
    ensures nw + m * nu == m * p - 1 - (w + m * u)
  {
  }
}
