/**
 Integer facts shared by the bit-field codec, the LIN checksum and the
 network-id split: powers of two, and the uniqueness of Euclidean
 division on which every shift/mask argument rests.
 */
module Arith {

  /** 2^n, the weight of bit n. */
  function Pow2(n: nat): (p: nat)
    ensures p >= 1
  {
    if n == 0 then 1 else 2 * Pow2(n - 1)
  }

  lemma {:induction false} Pow2Add(a: nat, b: nat)
    ensures Pow2(a + b) == Pow2(a) * Pow2(b)
  {
    if a > 0 {
      Pow2Add(a - 1, b);
      assert Pow2(a + b) == 2 * Pow2(a - 1 + b);
    }
  }

  /** The powers of two that size a byte and a 16-bit word. */
  lemma Pow2Byte()
    ensures Pow2(8) == 0x100 && Pow2(16) == 0x1_0000
  {
    assert Pow2(4) == 16;
    assert Pow2(8) == Pow2(4) * Pow2(4) by { Pow2Add(4, 4); }
    assert Pow2(16) == Pow2(8) * Pow2(8) by { Pow2Add(8, 8); }
  }

  /** Quotient and remainder are determined by any decomposition x == q*d + r with 0 <= r < d. */
  lemma DivModUnique(x: int, d: int, q: int, r: int)
    requires d > 0 && 0 <= r < d && x == q * d + r
    ensures x / d == q && x % d == r
  {
    var q', r' := x / d, x % d;
    assert x == q' * d + r';
    if q' < q {
      MulAtLeast(q - q', d);
      assert false;
    } else if q' > q {
      MulAtLeast(q' - q, d);
      assert false;
    }
  }

  lemma MulAtLeast(a: int, d: int)
    requires a >= 1 && d > 0
    ensures a * d >= d
  {
  }

  /** Shifting right by a then by b is shifting right by a+b (floor division composes). */
  lemma DivDiv(x: nat, a: nat, b: nat)
    requires a > 0 && b > 0
    ensures (x / a) / b == x / (a * b)
  {
    var q, r := x / a, x % a;
    var q2, r2 := q / b, q % b;
    assert x == (q2 * b + r2) * a + r;
    assert (q2 * b + r2) * a + r == q2 * (a * b) + (r2 * a + r);
    assert r2 * a <= (b - 1) * a by {
      MulMono(r2, b - 1, a);
    }
    assert (b - 1) * a == a * b - a;
    DivModUnique(x, a * b, q2, r2 * a + r);
  }

  lemma MulMono(x: nat, y: nat, a: nat)
    requires x <= y
    ensures x * a <= y * a
  {
  }

  /** A word is its low digit plus p times its high part. */
  lemma DivModSplit(w: int, p: int)
    requires p > 0
    ensures w == w % p + p * (w / p)
  {
  }

  /** Horner step bound: a low digit below p plus p times a high part below r stays below p*r. */
  lemma HornerBound(a: nat, p: nat, b: nat, r: nat)
    requires a < p && b < r
    ensures a + p * b < p * r
  {
    MulMono(b, r - 1, p);
    assert (r - 1) * p == r * p - p;
  }

  /** Replacing a digit o by v at weight p moves the number by (v - o)*p. */
  lemma Rebase(x: int, w: int, v: int, o: int, p: int)
    requires x == w + (v - o) * p
    ensures x == w - o * p + v * p
  {
  }

  /** Scaling a shifted value: if n == o + d*q then p*n == p*o + d*(p*q). */
  lemma ScaleShift(p: int, n: int, o: int, d: int, q: int)
    requires n == o + d * q
    ensures p * n == p * o + d * (p * q)
  {
    assert p * (d * q) == d * (p * q);
  }

  /** A value below p*r has quotient below r when divided by p. */
  lemma DivBelow(w: nat, p: nat, r: nat)
    requires p > 0 && w < p * r
    ensures w / p < r
  {
    if w / p >= r {
      MulMono(r, w / p, p);
      assert false;
    }
  }
}
