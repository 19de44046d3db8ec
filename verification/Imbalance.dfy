/** Imbalance statistics over executor loads, in exact arithmetic. */
module Imbalance {
  import opened RealArith

  function Sum(xs: seq<real>): real {
    if xs == [] then 0.0 else xs[0] + Sum(xs[1..])
  }

  function SumOfSquares(xs: seq<real>): real {
    if xs == [] then 0.0 else Square(xs[0]) + SumOfSquares(xs[1..])
  }

  /** Sum of squared distances from `m`. */
  function Spread(xs: seq<real>, m: real): real {
    if xs == [] then 0.0 else Square(xs[0] - m) + Spread(xs[1..], m)
  }

  function Mean(xs: seq<real>): real
    requires xs != []
  {
    Sum(xs) / |xs| as real
  }

  ghost predicate NonNegative(xs: seq<real>) {
    forall i :: 0 <= i < |xs| ==> xs[i] >= 0.0
  }

  ghost predicate AllAre(xs: seq<real>, c: real) {
    forall i :: 0 <= i < |xs| ==> xs[i] == c
  }

  ghost predicate AllEqual(xs: seq<real>) {
    forall i, j :: 0 <= i < |xs| && 0 <= j < |xs| ==> xs[i] == xs[j]
  }

  lemma {:induction false} SumAppend(xs: seq<real>, x: real)
    ensures Sum(xs + [x]) == Sum(xs) + x
    decreases |xs|
  {
    if xs != [] {
      assert (xs + [x])[1..] == xs[1..] + [x];
      SumAppend(xs[1..], x);
    }
  }

  lemma {:induction false} SpreadAppend(xs: seq<real>, x: real, m: real)
    ensures Spread(xs + [x], m) == Spread(xs, m) + Square(x - m)
    decreases |xs|
  {
    if xs != [] {
      assert (xs + [x])[1..] == xs[1..] + [x];
      SpreadAppend(xs[1..], x, m);
    }
  }

  lemma {:induction false} SumNonNegative(xs: seq<real>)
    requires NonNegative(xs)
    ensures Sum(xs) >= 0.0
    decreases |xs|
  {
    if xs != [] {
      SumNonNegative(xs[1..]);
    }
  }

  lemma {:induction false} ElementAtMostSum(xs: seq<real>, i: nat)
    requires NonNegative(xs) && i < |xs|
    ensures xs[i] <= Sum(xs)
    decreases |xs|
  {
    if i == 0 {
      SumNonNegative(xs[1..]);
    } else {
      ElementAtMostSum(xs[1..], i - 1);
    }
  }

  lemma {:induction false} SumAtMost(xs: seq<real>, bound: real)
    requires forall i :: 0 <= i < |xs| ==> xs[i] <= bound
    ensures Sum(xs) <= |xs| as real * bound
    decreases |xs|
  {
    if xs != [] {
      SumAtMost(xs[1..], bound);
      assert |xs| as real * bound == |xs[1..]| as real * bound + bound;
    }
  }

  /** Squares of non-negative numbers add up to at most the square of their sum. */
  lemma {:induction false} SquaresAtMostSquare(xs: seq<real>)
    requires NonNegative(xs)
    ensures SumOfSquares(xs) <= Square(Sum(xs))
    decreases |xs|
  {
    if xs != [] {
      SquaresAtMostSquare(xs[1..]);
      SumNonNegative(xs[1..]);
      var x, t := xs[0], Sum(xs[1..]);
      RealMulMonotone(0.0, t, x);
      SquareOfSum(x, t);
    }
  }

  /** The spread about `m`, from the totals: squares, sum and count. */
  function Expanded(squares: real, sum: real, n: real, m: real): real {
    squares - 2.0 * (m * sum) + n * Square(m)
  }

  lemma ExpandOne(x: real, m: real, squares: real, sum: real, n: real)
    ensures Square(x - m) + Expanded(squares, sum, n, m) == Expanded(Square(x) + squares, x + sum, n + 1.0, m)
  {
    SquareOfDifference(x, m);
    RealDistributes(m, x, sum);
    RealDistributes(Square(m), n, 1.0);
  }

  lemma {:induction false} SpreadExpands(xs: seq<real>, m: real)
    ensures Spread(xs, m) == Expanded(SumOfSquares(xs), Sum(xs), |xs| as real, m)
    decreases |xs|
  {
    if xs != [] {
      SpreadExpands(xs[1..], m);
      ExpandOne(xs[0], m, SumOfSquares(xs[1..]), Sum(xs[1..]), |xs[1..]| as real);
    }
  }

  lemma {:induction false} NoSpreadExactlyWhen(xs: seq<real>, m: real)
    ensures Spread(xs, m) >= 0.0
    ensures Spread(xs, m) == 0.0 <==> AllAre(xs, m)
    decreases |xs|
  {
    if xs != [] {
      NoSpreadExactlyWhen(xs[1..], m);
      SquareSign(xs[0] - m);
      assert AllAre(xs, m) <==> xs[0] == m && AllAre(xs[1..], m);
    }
  }

  lemma {:induction false} EqualLoadsSum(xs: seq<real>, c: real)
    requires AllAre(xs, c)
    ensures Sum(xs) == |xs| as real * c
    decreases |xs|
  {
    if xs != [] {
      EqualLoadsSum(xs[1..], c);
      assert |xs| as real * c == |xs[1..]| as real * c + c;
    }
  }

  /** Variance over squared mean, from the sum of squared distances. */
  function Ratio(distances: real, n: real, m: real): real
    requires n > 0.0 && m != 0.0
  {
    SquareSign(m);
    distances / n / Square(m)
  }

  /** The squared coefficient of variation, when the mean is not zero. */
  function SquaredVariation(xs: seq<real>): real
    requires xs != [] && Mean(xs) != 0.0
  {
    Ratio(Spread(xs, Mean(xs)), |xs| as real, Mean(xs))
  }

  lemma RatioBounds(d: real, n: real, m: real)
    requires n > 0.0 && m > 0.0 && 0.0 <= d <= MostSpread(n, m)
    ensures 0.0 <= Ratio(d, n, m) <= n - 1.0
    ensures Ratio(d, n, m) == 0.0 <==> d == 0.0
  {
    var q := Square(m);
    SquareSign(m);
    QuotientBetween(d, 0.0, (n - 1.0) * q, n);
    QuotientBetween(d / n, 0.0, n - 1.0, q);
  }

  /** The most that n loads of mean m can spread. */
  function MostSpread(n: real, m: real): real {
    ((n - 1.0) * Square(m)) * n
  }

  /** The identities behind the bound. */
  lemma MeanIdentities(spread: real, squares: real, sum: real, n: real, m: real)
    requires spread == Expanded(squares, sum, n, m) && squares <= Square(sum) && n > 0.0 && m == sum / n
    ensures spread <= MostSpread(n, m)
  {
    var q := Square(m);
    assert sum == n * m;
    RealMulAssociates(n, m, m);
    assert m * (n * m) == n * q;
    RealMulAssociates(n, m, n * m);
    assert Square(n * m) == n * (n * q);
    RealDistributes(q, n, 1.0);
    RealDistributes(n, n * q, q);
    assert ((n - 1.0) * q) * n == n * (n * q) - n * q;
  }

  lemma SpreadAtMost(xs: seq<real>, m: real)
    requires xs != [] && NonNegative(xs) && m == Mean(xs)
    ensures Spread(xs, m) <= MostSpread(|xs| as real, m)
  {
    SpreadExpands(xs, m);
    SquaresAtMostSquare(xs);
    MeanIdentities(Spread(xs, m), SumOfSquares(xs), Sum(xs), |xs| as real, m);
  }

  /** The equal lists are those equal to their own mean. */
  lemma EqualMeansAllMean(xs: seq<real>)
    requires xs != []
    ensures AllEqual(xs) <==> AllAre(xs, Mean(xs))
  {
    if AllEqual(xs) {
      EqualLoadsSum(xs, xs[0]);
      var n, c := |xs| as real, xs[0];
      assert Mean(xs) * n == c * n;
      QuotientBetween(n * c, c, c, n);
    }
  }

  /** For non-negative loads with a positive mean: at most n - 1, and zero exactly when all loads are equal. */
  lemma VariationBounds(xs: seq<real>)
    requires xs != [] && NonNegative(xs) && Mean(xs) > 0.0
    ensures 0.0 <= SquaredVariation(xs) <= |xs| as real - 1.0
    ensures SquaredVariation(xs) == 0.0 <==> AllEqual(xs)
  {
    SpreadAtMost(xs, Mean(xs));
    NoSpreadExactlyWhen(xs, Mean(xs));
    EqualMeansAllMean(xs);
    RatioBounds(Spread(xs, Mean(xs)), |xs| as real, Mean(xs));
  }

  lemma MeanSquares(sum: real, n: real, m: real)
    requires sum == n * m
    ensures m * sum == n * Square(m) && Square(sum) == n * (n * Square(m))
  {
    RealMulAssociates(m, n, m);
    RealMulAssociates(n, m, m);
    RealMulAssociates(n, m, n * m);
  }

  /** Variance over squared mean, times the squared sum. */
  lemma RatioTimesSum(d: real, n: real, m: real, x: real)
    requires n > 0.0 && m != 0.0 && x == Ratio(d, n, m)
    ensures x * (n * (n * Square(m))) == n * d
  {
    var q := Square(m);
    SquareSign(m);
    var v := d / n;
    assert v * n == d && x * q == v;
    RealMulAssociates(x, q, n * n);
    assert x * (n * (n * q)) == (x * q) * (n * n) by {
      RealMulAssociates(n, n, q);
      assert n * (n * q) == q * (n * n);
    }
    RealMulAssociates(v, n, n);
  }

  predicate IsVariation(v: real, n: real, squares: real, sum: real) {
    v * Square(sum) == n * squares - Square(sum)
  }

  /** The squared coefficient of variation in closed form: with sum S and sum of squares Q of n loads, it is
      n Q / S^2 - 1. */
  lemma VariationClosedForm(xs: seq<real>)
    requires xs != [] && Mean(xs) != 0.0
    ensures IsVariation(SquaredVariation(xs), |xs| as real, SumOfSquares(xs), Sum(xs))
  {
    SpreadExpands(xs, Mean(xs));
    ClosedForm(SumOfSquares(xs), Sum(xs), |xs| as real, Mean(xs));
  }

  lemma ClosedForm(squares: real, sum: real, n: real, m: real)
    requires n > 0.0 && m != 0.0 && m == sum / n
    ensures IsVariation(Ratio(Expanded(squares, sum, n, m), n, m), n, squares, sum)
  {
    assert sum == n * m;
    MeanSquares(sum, n, m);
    var d, nq := Expanded(squares, sum, n, m), n * Square(m);
    assert d == squares - nq;
    RatioTimesSum(d, n, m, Ratio(d, n, m));
    TimesDifference(n, squares, nq);
  }

  lemma TimesDifference(n: real, a: real, b: real)
    ensures n * (a - b) == n * a - n * b
  {
  }

  ghost predicate IsLargest(xs: seq<real>, x: real) {
    x in xs && forall i :: 0 <= i < |xs| ==> xs[i] <= x
  }

  /** `r` is the largest load in units of the mean. */
  ghost predicate LargestInMeans(xs: seq<real>, r: real)
    requires xs != [] && Mean(xs) != 0.0
  {
    exists top :: IsLargest(xs, top) && r == top / Mean(xs)
  }

  lemma MaxOverMeanRange(xs: seq<real>, top: real, r: real)
    requires xs != [] && NonNegative(xs) && Mean(xs) > 0.0 && r == top / Mean(xs)
    requires (forall i :: 0 <= i < |xs| ==> xs[i] <= top) && (top == 0.0 || top in xs)
    ensures 1.0 <= r <= |xs| as real && LargestInMeans(xs, r)
  {
    SumAtMost(xs, top);
    MeanBetween(Sum(xs), |xs| as real, top);
    var i :| 0 <= i < |xs| && xs[i] == top;
    ElementAtMostSum(xs, i);
    assert IsLargest(xs, top);
    LargestShare(top, Sum(xs), |xs| as real, Mean(xs));
  }

  lemma MeanBetween(sum: real, n: real, top: real)
    requires n > 0.0 && sum / n > 0.0 && sum <= n * top
    ensures top > 0.0 && n * (sum / n) == sum && sum / n <= top
  {
    var m := sum / n;
    assert n * m == sum;
    if top < m {
      RealMulStrict(top, m, n);
    }
  }

  lemma LargestShare(top: real, sum: real, n: real, m: real)
    requires m > 0.0 && n * m == sum && m <= top <= sum
    ensures 1.0 <= top / m <= n
  {
    QuotientBetween(top, 1.0, n, m);
  }

  method Total(values: seq<real>) returns (total: real, maxValue: real)
    ensures total == Sum(values)
    ensures forall i :: 0 <= i < |values| ==> values[i] <= maxValue
    ensures maxValue == 0.0 || maxValue in values
    ensures IsLargest([0.0] + values, maxValue)
  {
    total, maxValue := 0.0, 0.0;
    for n := 0 to |values|
      invariant total == Sum(values[..n])
      invariant forall i :: 0 <= i < n ==> values[i] <= maxValue
      invariant maxValue >= 0.0 && (maxValue == 0.0 || maxValue in values)
    {
      assert values[..n + 1] == values[..n] + [values[n]];
      SumAppend(values[..n], values[n]);
      total := total + values[n];
      if values[n] > maxValue {
        maxValue := values[n];
      }
    }
    assert values[..|values|] == values;
  }

  /** Zero for an empty list or zero mean; otherwise the largest of the loads and zero in units of the mean, which for
      non-negative loads is the largest load and lies between 1 and their number. */
  method MaxOverMean(values: seq<real>) returns (r: real)
    ensures values == [] || Mean(values) == 0.0 ==> r == 0.0
    ensures values != [] && Mean(values) != 0.0 ==>
      exists top :: IsLargest([0.0] + values, top) && r == top / Mean(values)
    ensures values != [] && NonNegative(values) && Mean(values) > 0.0 ==> 1.0 <= r <= |values| as real
    ensures values != [] && NonNegative(values) && Mean(values) > 0.0 ==> LargestInMeans(values, r)
  {
    if |values| == 0 {
      return 0.0;
    }
    var total, maxValue := Total(values);
    var mean := total / |values| as real;
    if mean == 0.0 {
      return 0.0;
    }
    r := maxValue / mean;
    if NonNegative(values) && mean > 0.0 {
      MaxOverMeanRange(values, maxValue, r);
    }
  }

  method SquaredDistances(values: seq<real>, mean: real) returns (variance: real)
    ensures variance == Spread(values, mean)
  {
    variance := 0.0;
    for n := 0 to |values|
      invariant variance == Spread(values[..n], mean)
    {
      assert values[..n + 1] == values[..n] + [values[n]];
      SpreadAppend(values[..n], values[n], mean);
      var delta := values[n] - mean;
      variance := variance + Square(delta);
    }
    assert values[..|values|] == values;
  }

  /** `sqrt` is a square root on the non-negative reals. */
  ghost predicate IsSquareRoot(sqrt: real -> real) {
    forall x :: x >= 0.0 ==> sqrt(x) >= 0.0 && Square(sqrt(x)) == x
  }

  lemma SquareOfQuotient(a: real, b: real)
    requires b != 0.0
    ensures Square(b) > 0.0 && Square(a / b) == Square(a) / Square(b)
  {
    var q := a / b;
    assert q * b == a;
    SquareSign(b);
    RealMulAssociates(q, b, q * b);
    RealMulAssociates(b, q, b);
    RealMulAssociates(q, q, Square(b));
    assert b * (q * b) == q * Square(b);
    assert Square(q) * Square(b) == Square(a);
    QuotientIs(Square(a), Square(b), Square(q));
  }

  lemma QuotientIs(x: real, y: real, q: real)
    requires y > 0.0 && q * y == x
    ensures x / y == q
  {
    QuotientBetween(x, q, q, y);
  }

  /** A square root over a mean has the mean's sign. */
  lemma QuotientSign(a: real, b: real)
    requires a >= 0.0 && b != 0.0
    ensures b > 0.0 ==> a / b >= 0.0
    ensures b < 0.0 ==> a / b <= 0.0
  {
    var q := a / b;
    assert q * b == a;
    if b > 0.0 && q < 0.0 {
      RealMulStrict(q, 0.0, b);
    }
    if b < 0.0 && q > 0.0 {
      RealMulPositive(q, -b);
    }
  }

  /** What the loops and the root compute: a number with the sign of the mean whose square is variance over squared
      mean. */
  lemma RootOverMean(distances: real, n: real, m: real, sqrt: real -> real)
    requires IsSquareRoot(sqrt) && distances >= 0.0 && n > 0.0 && m != 0.0
    ensures Square(sqrt(distances / n) / m) == Ratio(distances, n, m)
    ensures m > 0.0 ==> sqrt(distances / n) / m >= 0.0
    ensures m < 0.0 ==> sqrt(distances / n) / m <= 0.0
  {
    QuotientSign(distances, n);
    var root := sqrt(distances / n);
    SquareOfQuotient(root, m);
    QuotientSign(root, m);
  }

  /** The coefficient of variation, for whatever square root is used: zero for an empty list or a zero mean;
      otherwise, for non-negative loads, at most the root of one less than their number, and zero exactly when all
      loads are equal. */
  method CoefficientOfVariation(values: seq<real>, sqrt: real -> real) returns (r: real)
    requires IsSquareRoot(sqrt)
    ensures values == [] || Mean(values) == 0.0 ==> r == 0.0
    ensures values != [] && Mean(values) != 0.0 ==> Square(r) == SquaredVariation(values)
    ensures values != [] && Mean(values) != 0.0 ==>
      IsVariation(Square(r), |values| as real, SumOfSquares(values), Sum(values))
    ensures values != [] && Mean(values) > 0.0 ==> r >= 0.0
    ensures values != [] && Mean(values) < 0.0 ==> r <= 0.0
    ensures values != [] && NonNegative(values) && Mean(values) > 0.0 ==> Square(r) <= |values| as real - 1.0
    ensures values != [] && NonNegative(values) && Mean(values) > 0.0 ==> (r == 0.0 <==> AllEqual(values))
  {
    if |values| == 0 {
      return 0.0;
    }
    var total, _ := Total(values);
    var mean := total / |values| as real;
    if mean == 0.0 {
      return 0.0;
    }
    assert mean == Mean(values);
    var variance := SquaredDistances(values, mean);
    NoSpreadExactlyWhen(values, mean);
    RootOverMean(variance, |values| as real, mean, sqrt);
    r := sqrt(variance / |values| as real) / mean;
    SquareSign(r);
    VariationClosedForm(values);
    if NonNegative(values) && mean > 0.0 {
      VariationBounds(values);
    }
  }
}
