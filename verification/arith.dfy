/** Facts about integer multiplication and Euclidean division, and about
    dividing reals, that the solver does not find on its own. */
module Arith {

  /** A product of two non-negative integers is non-negative. */
  lemma MulNonNegative(a: int, b: int)
    requires a >= 0 && b >= 0
    ensures a * b >= 0
  {
  }

  /** A non-zero multiple of `m` is at least `m` away from zero. */
  lemma MultipleFarFromZero(d: int, m: int)
    requires m > 0 && d != 0
    ensures d * m >= m || d * m <= -m
  {
    if d > 0 {
      MulNonNegative(d - 1, m);
      assert d * m == (d - 1) * m + m;
    } else {
      MulNonNegative(-d - 1, m);
      assert d * m == -((-d - 1) * m) - m;
    }
  }

  /** If `a` and `b` differ by a multiple of `m`, they leave the same
      remainder. */
  lemma ModShift(a: int, b: int, k: int, m: int)
    requires m > 0 && a == b + k * m
    ensures a % m == b % m
  {
    var qa, ra := a / m, a % m;
    var qb, rb := b / m, b % m;
    assert a == qa * m + ra;
    assert b == qb * m + rb;
    assert (qb + k - qa) * m == ra - rb;
    if qb + k - qa != 0 {
      MultipleFarFromZero(qb + k - qa, m);
    }
  }

  /** Quotient and remainder are unique: any decomposition `q*m + r` with
      `0 <= r < m` is the one `/` and `%` give. */
  lemma DivUnique(a: int, m: int, q: int, r: int)
    requires m > 0 && 0 <= r < m && a == q * m + r
    ensures a / m == q && a % m == r
  {
    var q', r' := a / m, a % m;
    assert a == q' * m + r';
    assert (q - q') * m == r' - r;
    if q - q' != 0 {
      MultipleFarFromZero(q - q', m);
    }
  }

  /** Adding the divisor adds one to the quotient. */
  lemma DivStep(a: int, m: int)
    requires m > 0
    ensures (a + m) / m == a / m + 1
  {
    var q, r := a / m, a % m;
    assert a + m == (q + 1) * m + r;
    DivUnique(a + m, m, q + 1, r);
  }

  /** Dividing by a positive real keeps a strict order. */
  lemma DivLess(p: real, q: real, d: real)
    requires p < q && d > 0.0
    ensures p / d < q / d
  {
  }

  /** A part of a positive whole is a fraction between 0 and 1: strictly
      when the part is strictly between, and exactly 1 for the whole. */
  lemma DivUnit(a: real, d: real)
    requires 0.0 <= a <= d && d > 0.0
    ensures 0.0 <= a / d <= 1.0
    ensures 0.0 < a ==> 0.0 < a / d
    ensures a < d ==> a / d < 1.0
    ensures a == d ==> a / d == 1.0
  {
  }
}
