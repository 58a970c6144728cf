/**
  Small facts of real arithmetic that the geometric proofs use.
  Each is stated over plain variables so that a caller can instantiate it with
  the exact terms it already has at hand.
 */
module RealArith {

  /** The square; kept as a function so that sign facts about squares stay usable. */
  function Sq(x: real): real
  {
    x * x
  }

  lemma SquareNonneg(x: real)
    ensures 0.0 <= Sq(x)
  {
  }

  lemma MulZero(a: real, x: real)
    requires a != 0.0
    requires a * x == 0.0
    ensures x == 0.0
  {
  }

  lemma SquarePos(x: real)
    requires x != 0.0
    ensures 0.0 < Sq(x)
  {
    if Sq(x) <= 0.0 {
      SquareNonneg(x);
      MulZero(x, x);
    }
  }

  lemma MulNonneg(x: real, y: real)
    requires 0.0 <= x && 0.0 <= y
    ensures 0.0 <= x * y
  {
  }

  lemma MulPos(x: real, y: real)
    requires 0.0 < x && 0.0 < y
    ensures 0.0 < x * y
  {
  }

  lemma UnitProduct(a: real, b: real)
    requires 0.0 <= a <= 1.0 && 0.0 <= b <= 1.0
    ensures 0.0 <= a * b <= 1.0
  {
    MulNonneg(a, b);
    MulNonneg(1.0 - a, b);
  }

  /** If `p * q` equals `r` and so does `q` (non-zero), then `p` is 1. */
  lemma CancelToOne(p: real, q: real, r: real)
    requires 0.0 < q
    requires p * q == r
    requires q == r
    ensures p == 1.0
  {
    MulZero(q, p - 1.0);
  }

  /** Two numbers with equal squares are equal up to sign. */
  lemma SquaresEqual(u: real, s: real)
    requires Sq(u) == Sq(s)
    ensures u == s || u == -s
  {
    assert u * u == s * s;
  }

  lemma Distribute3(a: real, x: real, y: real, z: real)
    ensures a * x + a * y + a * z == a * (x + y + z)
  {
  }

  lemma DivSquare(x: real, d: real)
    requires d != 0.0
    ensures Sq(x / d) * Sq(d) == Sq(x)
  {
  }

  lemma DivSelf(d: real)
    requires d != 0.0
    ensures d / d == 1.0
  {
    MulZero(d, d / d - 1.0);
  }

  lemma DivMono(x: real, y: real, a: real)
    requires x <= y
    requires 0.0 < a
    ensures x / a <= y / a
  {
    MulNonneg(y - x, 1.0 / a);
  }

  /** A quotient of a part by the whole lies in [0, 1]. */
  lemma DivUnit(x: real, w: real)
    requires 0.0 <= x <= w
    requires 0.0 < w
    ensures 0.0 <= x / w <= 1.0
  {
    DivMono(0.0, x, w);
    DivMono(x, w, w);
  }

  lemma ScaleBelow(s: real, w: real)
    requires 0.0 <= s < 1.0
    requires 0.0 < w
    ensures 0.0 <= s * w < w
  {
    MulNonneg(s, w);
    MulPos(1.0 - s, w);
  }
}
