/** Non-linear facts about natural numbers, each small enough for the solver. */
module Arith {
  lemma MulMonotone(a: nat, b: nat, d: nat)
    requires a <= b
    ensures a * d <= b * d
  {
    assert (b - a) * d >= 0;
  }

  lemma MulCancelLess(a: nat, b: nat, d: nat)
    requires a * d < b * d
    ensures a < b
  {
    if b <= a {
      MulMonotone(b, a, d);
    }
  }

  lemma DivBounds(x: nat, d: nat)
    requires 0 < d
    ensures (x / d) * d <= x < (x / d + 1) * d
  {
    assert x == (x / d) * d + x % d;
    assert (x / d + 1) * d == (x / d) * d + d;
  }

  /** The quotient is pinned by its bounds. */
  lemma DivUnique(x: nat, d: nat, q: nat)
    requires 0 < d && q * d <= x < (q + 1) * d
    ensures x / d == q
  {
    DivBounds(x, d);
    MulCancelLess(q, x / d + 1, d);
    MulCancelLess(x / d, q + 1, d);
  }

  lemma DivBelow(x: nat, d: nat, k: nat)
    requires 0 < d && x < k * d
    ensures x / d < k
  {
    var q := x / d;
    assert q * d <= x by { DivBounds(x, d); }
    MulCancelLess(q, k, d);
  }

  lemma MulAssociates(a: nat, b: nat, c: nat)
    ensures (a * b) * c == a * (b * c)
  {
  }

  lemma MulExchanges(a: nat, b: nat, x: nat, y: nat)
    ensures (a * b) * (x * y) == (a * x) * (b * y)
  {
    MulAssociates(a, b, x * y);
    MulAssociates(b, x, y);
    MulAssociates(x, b, y);
    MulAssociates(a, x, b * y);
    assert b * (x * y) == x * (b * y);
  }

  lemma SquareBounds(p: nat, v: nat, u: nat)
    requires p <= v < u
    ensures p * p <= v * v < u * u
  {
    MulMonotone(p, v, p);
    MulMonotone(p, v, v);
    MulMonotone(v + 1, u, u);
    MulMonotone(v, u, v);
    assert (v + 1) * u == v * u + u;
  }

  lemma CancelFactor(x: nat, y: nat, k: nat)
    requires k > 0 && x * k <= y * k
    ensures x <= y
  {
    assert (y + 1) * k == y * k + k;
    MulCancelLess(x, y + 1, k);
  }
}

/** Non-linear facts about reals. */
module RealArith {
  lemma RealMulMonotone(a: real, b: real, x: real)
    requires a <= b && x >= 0.0
    ensures a * x <= b * x
  {
    assert (b - a) * x >= 0.0;
  }

  lemma RealMulPositive(a: real, b: real)
    requires a > 0.0 && b > 0.0
    ensures a * b > 0.0
  {
  }

  lemma RealMulStrict(a: real, b: real, x: real)
    requires a < b && x > 0.0
    ensures a * x < b * x
  {
    RealMulPositive(b - a, x);
    assert (b - a) * x == b * x - a * x;
  }

  lemma RealMulAssociates(a: real, b: real, c: real)
    ensures (a * b) * c == a * (b * c)
  {
  }

  lemma RealDistributes(a: real, b: real, c: real)
    ensures a * (b + c) == a * b + a * c
    ensures a * (b - c) == a * b - a * c
  {
  }

  function Square(x: real): real {
    x * x
  }

  lemma SquareOfNegation(d: real)
    ensures Square(-d) == Square(d)
  {
    assert (-d) * (-d) == d * d;
  }

  lemma PositiveProduct(a: real, b: real, p: real)
    requires a > 0.0 && b > 0.0 && p == a * b
    ensures p > 0.0
  {
    RealMulPositive(a, b);
  }

  lemma PositiveSquare(d: real)
    requires d > 0.0
    ensures Square(d) > 0.0
  {
    PositiveProduct(d, d, Square(d));
  }

  lemma SquareSign(d: real)
    ensures Square(d) >= 0.0
    ensures d != 0.0 ==> Square(d) > 0.0
    ensures d == 0.0 ==> Square(d) == 0.0
  {
    if d > 0.0 {
      PositiveSquare(d);
    } else if d < 0.0 {
      PositiveSquare(-d);
      SquareOfNegation(d);
    }
  }

  lemma SquareOfDifference(x: real, m: real)
    ensures Square(x - m) == Square(x) - 2.0 * (m * x) + Square(m)
  {
    RealDistributes(x - m, x, m);
    RealDistributes(x, x, m);
    RealDistributes(m, x, m);
    assert (x - m) * x == x * (x - m) && (x - m) * m == m * (x - m) && x * m == m * x;
  }

  lemma SquareOfSum(x: real, t: real)
    ensures Square(x + t) == Square(x) + 2.0 * (x * t) + Square(t)
  {
    RealDistributes(x + t, x, t);
    RealDistributes(x, x, t);
    RealDistributes(t, x, t);
    assert (x + t) * x == x * (x + t) && (x + t) * t == t * (x + t) && x * t == t * x;
  }

  /** Dividing keeps an enclosure. */
  lemma QuotientBetween(x: real, lo: real, hi: real, q: real)
    requires q > 0.0 && lo * q <= x <= hi * q
    ensures lo <= x / q <= hi && (x / q) * q == x
  {
    var f := x / q;
    assert f * q == x;
    if f < lo {
      RealMulStrict(f, lo, q);
    }
    if hi < f {
      RealMulStrict(hi, f, q);
    }
  }
}
