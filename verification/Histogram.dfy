/** Integer powers and floor roots, the exact arithmetic behind exponential bucket boundaries. */
module Powers {
  import opened Arith

  function Pow(b: nat, e: nat): nat {
    if e == 0 then 1 else b * Pow(b, e - 1)
  }

  lemma MulMono2(a: nat, b: nat, c: nat, d: nat)
    requires a <= b && c <= d
    ensures a * c <= b * d
  {
    MulMonotone(a, b, c);
    MulMonotone(c, d, b);
  }

  lemma {:induction false} PowAdd(b: nat, m: nat, n: nat)
    ensures Pow(b, m + n) == Pow(b, m) * Pow(b, n)
  {
    if m > 0 {
      PowAdd(b, m - 1, n);
      assert b * (Pow(b, m - 1) * Pow(b, n)) == (b * Pow(b, m - 1)) * Pow(b, n);
    }
  }

  lemma {:induction false} PowOfProduct(a: nat, b: nat, k: nat)
    ensures Pow(a * b, k) == Pow(a, k) * Pow(b, k)
  {
    if k > 0 {
      PowOfProduct(a, b, k - 1);
      var x, y := Pow(a, k - 1), Pow(b, k - 1);
      MulExchanges(a, b, x, y);
    }
  }

  lemma {:induction false} PowOfPow(b: nat, m: nat, n: nat)
    ensures Pow(Pow(b, m), n) == Pow(b, m * n)
  {
    if n > 0 {
      PowOfPow(b, m, n - 1);
      assert m * n == m + m * (n - 1);
      PowAdd(b, m, m * (n - 1));
    } else {
      assert m * n == 0;
    }
  }

  lemma {:induction false} PowMonotone(a: nat, b: nat, k: nat)
    requires a <= b
    ensures Pow(a, k) <= Pow(b, k)
  {
    if k > 0 {
      PowMonotone(a, b, k - 1);
      MulMono2(a, b, Pow(a, k - 1), Pow(b, k - 1));
    }
  }

  lemma {:induction false} PowPositive(b: nat, k: nat)
    requires b > 0
    ensures Pow(b, k) > 0
  {
    if k > 0 {
      PowPositive(b, k - 1);
      MulMono2(1, b, 1, Pow(b, k - 1));
    }
  }

  lemma PowAtLeastBase(b: nat, k: nat)
    requires b > 0 && k > 0
    ensures b <= Pow(b, k)
  {
    PowPositive(b, k - 1);
    MulMono2(b, b, 1, Pow(b, k - 1));
  }

  lemma PowStrict(a: nat, b: nat, k: nat)
    requires Pow(a, k) < Pow(b, k)
    ensures a < b
  {
    if b <= a {
      PowMonotone(b, a, k);
    }
  }

  lemma PowStrictlyMonotone(b: nat, k: nat)
    requires k > 0
    ensures Pow(b, k) < Pow(b + 1, k)
  {
    PowMonotone(b, b + 1, k - 1);
    PowPositive(b + 1, k - 1);
    MulMono2(b, b, Pow(b, k - 1), Pow(b + 1, k - 1));
    var y := Pow(b + 1, k - 1);
    assert (b + 1) * y == b * y + y;
  }

  /** The largest integer whose k-th power does not exceed `v`. */
  function FloorRoot(v: nat, k: nat): (b: nat)
    requires k > 0
    ensures Pow(b, k) <= v < Pow(b + 1, k)
  {
    PowAtLeastBase(v + 1, k);
    SearchDown(v, k, v)
  }

  function SearchDown(v: nat, k: nat, from: nat): (b: nat)
    requires k > 0 && v < Pow(from + 1, k)
    ensures Pow(b, k) <= v < Pow(b + 1, k)
  {
    if Pow(from, k) <= v then from else SearchDown(v, k, from - 1)
  }

  lemma FloorRootUnique(v: nat, k: nat, b: nat)
    requires k > 0 && Pow(b, k) <= v < Pow(b + 1, k)
    ensures FloorRoot(v, k) == b
  {
    PowStrict(b, FloorRoot(v, k) + 1, k);
    PowStrict(FloorRoot(v, k), b + 1, k);
  }

  lemma FloorRootMonotone(v: nat, w: nat, k: nat)
    requires k > 0 && v <= w
    ensures FloorRoot(v, k) <= FloorRoot(w, k)
  {
    PowStrict(FloorRoot(v, k), FloorRoot(w, k) + 1, k);
  }

  lemma FloorRootAtLeast(v: nat, k: nat, b: nat)
    requires k > 0 && Pow(b, k) <= v
    ensures b <= FloorRoot(v, k)
  {
    PowStrict(b, FloorRoot(v, k) + 1, k);
  }
}

/**
 Exponential histogram buckets.  A boundary is `start * 2^(num / 2^scale)` rounded down, which is the integer `b` with
 b^(2^scale) <= start^(2^scale) * 2^num < (b + 1)^(2^scale).
 */
module Histogram {
  import opened Common
  import opened Arith
  import opened Powers

  datatype Histogram = Histogram(buckets: seq<nat>, scale: nat)

  datatype Panic = BadScale | BadStart | BadEnd | BadLength | IncompleteRow | TooShort | NotLower | Negative
    | OddBuckets | TooFewBuckets

  /** How many buckets double a value. */
  function Width(scale: nat): (w: nat)
    ensures w > 0
  {
    PowPositive(2, scale);
    Pow(2, scale)
  }

  /** The boundary raised to the power 2^scale, before rounding. */
  function Exact(start: nat, num: nat, scale: nat): nat {
    Pow(start, Width(scale)) * Pow(2, num)
  }

  function NextBucket(start: nat, num: nat, scale: nat): nat {
    FloorRoot(Exact(start, num, scale), Width(scale))
  }

  function BucketList(start: nat, scale: nat, length: nat): seq<nat> {
    [0] + seq(length + 1, i requires 0 <= i => NextBucket(start, i, scale))
  }

  lemma ExactSquares(start: nat, num: nat, scale: nat)
    ensures Width(scale + 1) == Width(scale) + Width(scale)
    ensures Exact(start, 2 * num, scale + 1) == Exact(start, num, scale) * Exact(start, num, scale)
  {
    PowAdd(start, Width(scale), Width(scale));
    PowAdd(2, num, num);
    MulExchanges(Pow(start, Width(scale)), Pow(start, Width(scale)), Pow(2, num), Pow(2, num));
  }

  /** Two steps at one scale are one step at the scale below. */
  lemma TwoStepsAreOne(start: nat, num: nat, scale: nat)
    ensures NextBucket(start, 2 * num, scale + 1) == NextBucket(start, num, scale)
  {
    var w, v, b := Width(scale), Exact(start, num, scale), NextBucket(start, num, scale);
    ExactSquares(start, num, scale);
    PowAdd(b, w, w);
    PowAdd(b + 1, w, w);
    SquareBounds(Pow(b, w), v, Pow(b + 1, w));
    FloorRootUnique(Exact(start, 2 * num, scale + 1), w + w, b);
  }

  /** Every coarse boundary is a fine boundary. */
  lemma {:induction false} CoarseBoundaryIsFine(start: nat, num: nat, scale: nat, lower: nat)
    ensures NextBucket(start, num * Width(lower), scale + lower) == NextBucket(start, num, scale)
  {
    if lower > 0 {
      CoarseBoundaryIsFine(start, num, scale, lower - 1);
      var n := num * Width(lower - 1);
      assert num * Width(lower) == 2 * n by { MulAssociates(num, Width(lower - 1), 2); }
      TwoStepsAreOne(start, n, scale + lower - 1);
    } else {
      assert num * Width(0) == num;
    }
  }

  /** Row starts are exact: every 2^scale-th boundary is the start doubled. */
  lemma RowStartsAreExact(start: nat, row: nat, scale: nat)
    ensures NextBucket(start, row * Width(scale), scale) == start * Pow(2, row)
  {
    var w := Width(scale);
    var b := start * Pow(2, row);
    PowOfProduct(start, Pow(2, row), w);
    PowOfPow(2, row, w);
    PowStrictlyMonotone(b, w);
    FloorRootUnique(Exact(start, row * w, scale), w, b);
  }

  lemma BoundariesNeverDecrease(start: nat, num: nat, scale: nat)
    ensures NextBucket(start, num, scale) <= NextBucket(start, num + 1, scale)
  {
    ExactDoubles(start, num, scale);
    FloorRootMonotone(Exact(start, num, scale), Exact(start, num + 1, scale), Width(scale));
  }

  lemma {:induction false} BoundaryAtLeastStart(start: nat, num: nat, scale: nat)
    ensures start <= NextBucket(start, num, scale)
  {
    if num == 0 {
      RowStartsAreExact(start, 0, scale);
      assert 0 * Width(scale) == 0;
    } else {
      BoundaryAtLeastStart(start, num - 1, scale);
      BoundariesNeverDecrease(start, num - 1, scale);
    }
  }

  /** The smallest start whose boundaries are all distinct. */
  function SmallestStart(scale: nat): nat {
    match scale
    case 0 => 1
    case 1 => 3
    case 2 => 6
    case _ => 12
  }

  lemma SmallPowers(b: nat)
    ensures Pow(b, 1) == b
    ensures Pow(b, 2) == b * b
    ensures Pow(b, 4) == (b * b) * (b * b)
    ensures Pow(b, 8) == ((b * b) * (b * b)) * ((b * b) * (b * b))
  {
    assert Pow(b, 1) == b * Pow(b, 0);
    PowAdd(b, 1, 1);
    PowAdd(b, 2, 2);
    PowAdd(b, 4, 4);
  }

  lemma Widths()
    ensures Width(0) == 1 && Width(1) == 2 && Width(2) == 4 && Width(3) == 8
  {
  }

  /** At the threshold one more unit is less than one more bucket; just below it, it is more. */
  lemma Threshold(scale: nat)
    requires scale <= 3
    ensures var t, w := SmallestStart(scale), Width(scale);
      && Pow(t + 1, w) <= 2 * Pow(t, w)
      && (t > 1 ==> 2 * Pow(t - 1, w) < Pow(t, w))
  {
    Widths();
    match scale
    case 0 => SmallPowers(1); SmallPowers(2);
    case 1 => SmallPowers(2); SmallPowers(3); SmallPowers(4);
    case 2 => SmallPowers(5); SmallPowers(6); SmallPowers(7);
    case _ => SmallPowers(11); SmallPowers(12); SmallPowers(13);
  }

  /** If (b+1)/b is at most (t+1)/t, then its w-th power is at most the w-th power of the other. */
  lemma RatioPowers(b: nat, t: nat, w: nat)
    requires t <= b
    ensures Pow(b + 1, w) * Pow(t, w) <= Pow(t + 1, w) * Pow(b, w)
  {
    assert (b + 1) * t == b * t + t && (t + 1) * b == t * b + b;
    PowMonotone((b + 1) * t, (t + 1) * b, w);
    PowOfProduct(b + 1, t, w);
    PowOfProduct(t + 1, b, w);
  }

  lemma RatioAtMostTwo(p: nat, q: nat, x: nat, y: nat)
    requires p > 0 && q <= 2 * p && y * p <= q * x
    ensures y <= 2 * x
  {
    MulMonotone(q, 2 * p, x);
    assert (2 * p) * x == (2 * x) * p by { MulAssociates(2, p, x); MulAssociates(2, x, p); }
    CancelFactor(y, 2 * x, p);
  }

  lemma RatioAboveTwo(p: nat, q: nat, x: nat, y: nat)
    requires x > 0 && 2 * p < q && q * x <= y * p
    ensures 2 * x < y
  {
    MulMonotone(2 * p + 1, q, x);
    assert (2 * p + 1) * x == (2 * p) * x + x;
    assert (2 * p) * x == (2 * x) * p by { MulAssociates(2, p, x); MulAssociates(2, x, p); }
    MulCancelLess(2 * x, y, p);
  }

  /** Boundaries are strictly increasing exactly from the threshold on; below it the first two already coincide. */
  lemma DistinctExactlyWhen(start: nat, num: nat, scale: nat)
    requires 0 < start && scale <= 3
    ensures start >= SmallestStart(scale) ==> NextBucket(start, num, scale) < NextBucket(start, num + 1, scale)
    ensures start < SmallestStart(scale) ==> NextBucket(start, 0, scale) == NextBucket(start, 1, scale)
  {
    if start >= SmallestStart(scale) {
      StrictFromThreshold(start, num, scale);
    } else {
      CoincideBelowThreshold(start, scale);
    }
  }

  lemma ExactDoubles(start: nat, num: nat, scale: nat)
    ensures Exact(start, num + 1, scale) == 2 * Exact(start, num, scale)
  {
    MulAssociates(Pow(start, Width(scale)), Pow(2, num), 2);
  }

  /** From the threshold on, one more unit is at most one more bucket. */
  lemma OneUnitWithinOneBucket(b: nat, scale: nat)
    requires scale <= 3 && SmallestStart(scale) <= b
    ensures Pow(b + 1, Width(scale)) <= 2 * Pow(b, Width(scale))
  {
    var t, w := SmallestStart(scale), Width(scale);
    var p, q, x := Pow(t, w), Pow(t + 1, w), Pow(b, w);
    Threshold(scale);
    RatioPowers(b, t, w);
    PowPositive(t, w);
    RatioAtMostTwo(p, q, x, Pow(b + 1, w));
  }

  lemma StrictFromThreshold(start: nat, num: nat, scale: nat)
    requires scale <= 3 && start >= SmallestStart(scale)
    ensures NextBucket(start, num, scale) < NextBucket(start, num + 1, scale)
  {
    var b := NextBucket(start, num, scale);
    BoundaryAtLeastStart(start, num, scale);
    OneUnitWithinOneBucket(b, scale);
    ExactDoubles(start, num, scale);
    FloorRootAtLeast(Exact(start, num + 1, scale), Width(scale), b + 1);
  }

  /** Below the threshold, one more unit is more than one more bucket. */
  lemma OneUnitBeyondOneBucket(b: nat, scale: nat)
    requires 0 < b < SmallestStart(scale) && scale <= 3
    ensures 2 * Pow(b, Width(scale)) < Pow(b + 1, Width(scale))
  {
    var t, w := SmallestStart(scale), Width(scale);
    var p, q, x, y := Pow(t - 1, w), Pow(t, w), Pow(b, w), Pow(b + 1, w);
    Threshold(scale);
    RatioPowers(t - 1, b, w);
    PowPositive(b, w);
    RatioAboveTwo(p, q, x, y);
  }

  lemma CoincideBelowThreshold(start: nat, scale: nat)
    requires 0 < start < SmallestStart(scale) && scale <= 3
    ensures NextBucket(start, 0, scale) == NextBucket(start, 1, scale)
  {
    RowStartsAreExact(start, 0, scale);
    assert 0 * Width(scale) == 0;
    OneUnitBeyondOneBucket(start, scale);
    assert Exact(start, 0, scale) == Pow(start, Width(scale));
    ExactDoubles(start, 0, scale);
    FloorRootUnique(Exact(start, 1, scale), Width(scale), start);
  }

  method MakeSubsettableHistogram(scale: int, start: int, end: int, length: int) returns (r: Result<Histogram, Panic>)
    ensures r.Ok? <==> && 0 <= scale <= 3 && 0 < start < end && 12 <= length <= 160 && length % Width(scale) == 0
                       && 2 * end <= NextBucket(start, length, scale)
    ensures r.Ok? ==> r.value == Histogram(BucketList(start, scale, length), scale)
  {
    if scale < 0 || scale > 3 {
      return Err(BadScale);
    }
    if start <= 0 {
      return Err(BadStart);
    }
    if start >= end {
      return Err(BadEnd);
    }
    if length < 12 || length > 160 {
      return Err(BadLength);
    }
    if length % Width(scale) != 0 {
      return Err(IncompleteRow);
    }
    var buckets: seq<nat> := [];
    for i := 0 to length
      invariant buckets == seq(i, j requires 0 <= j => NextBucket(start, j, scale))
    {
      buckets := buckets + [NextBucket(start, |buckets|, scale)];
    }
    buckets := buckets + [NextBucket(start, |buckets|, scale)];
    assert buckets == seq(length + 1, j requires 0 <= j => NextBucket(start, j, scale));
    if buckets[|buckets| - 1] < end * 2 {
      return Err(TooShort);
    }
    return Ok(Histogram([0] + buckets, scale));
  }

  /** Keep the zero bucket, every other bucket, and the last. */
  function Halved(buckets: seq<nat>): seq<nat>
    requires |buckets| > 3
  {
    [buckets[0]] + seq((|buckets| - 2) / 2, i requires 0 <= i < (|buckets| - 2) / 2 => buckets[1 + 2 * i])
      + [buckets[|buckets| - 1]]
  }

  method HalveBuckets(buckets: seq<nat>) returns (half: seq<nat>)
    requires |buckets| > 3 && |buckets| % 2 == 0
    ensures half == Halved(buckets)
  {
    var toCompress := buckets[1..|buckets| - 2];
    half := [buckets[0]];
    var i := 0;
    while i < |toCompress|
      invariant 0 <= i <= |toCompress| + 1 && i % 2 == 0
      invariant |half| == 1 + i / 2 && half[0] == buckets[0]
      invariant forall j :: 0 <= j < i / 2 ==> half[1 + j] == buckets[1 + 2 * j]
    {
      half := half + [toCompress[i]];
      i := i + 2;
    }
    half := half + [buckets[|buckets| - 1]];
  }

  lemma HalvedList(start: nat, scale: nat, half: nat)
    requires half > 0
    ensures |BucketList(start, scale + 1, 2 * half)| > 3
    ensures Halved(BucketList(start, scale + 1, 2 * half)) == BucketList(start, scale, half)
  {
    var fine, coarse := BucketList(start, scale + 1, 2 * half), BucketList(start, scale, half);
    var result := Halved(fine);
    assert |result| == |coarse|;
    forall i | 0 <= i < |coarse|
      ensures result[i] == coarse[i]
    {
      if i > 0 {
        TwoStepsAreOne(start, i - 1, scale);
      }
    }
  }

  /**
   Perfect subsetting: for a histogram with `rows` full rows, as the constructor makes them, no panic is reachable for a
   lower scale and the result is the list built directly at that scale with as many rows.
   */
  method SubsetTo(h: Histogram, newScale: int, ghost start: nat, ghost rows: nat) returns (r: Result<Histogram, Panic>)
    ensures newScale >= h.scale ==> r == Err(NotLower)
    ensures newScale < 0 && newScale < h.scale ==> r == Err(Negative)
    ensures 0 <= newScale < h.scale && rows > 0 && h.buckets == BucketList(start, h.scale, rows * Width(h.scale)) ==>
      r == Ok(Histogram(BucketList(start, newScale, rows * Width(newScale)), newScale))
  {
    if newScale >= h.scale {
      return Err(NotLower);
    }
    if newScale < 0 {
      return Err(Negative);
    }
    var dup := h;
    ghost var built := rows > 0 && h.buckets == BucketList(start, h.scale, rows * Width(h.scale));
    while dup.scale > newScale
      invariant newScale <= dup.scale
      invariant built ==> dup.buckets == BucketList(start, dup.scale, rows * Width(dup.scale))
    {
      if built {
        assert rows * Width(dup.scale) == 2 * (rows * Width(dup.scale - 1));
        MulMono2(1, rows, 1, Width(dup.scale - 1));
        HalvedList(start, dup.scale - 1, rows * Width(dup.scale - 1));
      }
      if (|dup.buckets| - 2) % 2 != 0 {
        return Err(OddBuckets);
      }
      if |dup.buckets| <= 3 {
        return Err(TooFewBuckets);
      }
      var half := HalveBuckets(dup.buckets);
      dup := Histogram(half, dup.scale - 1);
    }
    return Ok(dup);
  }

  /** For what the constructor accepts: the rows are full, so subsetting divides the length by 2^(scale - newScale). */
  lemma SubsetLength(scale: nat, length: nat, newScale: nat)
    requires newScale <= scale && length % Width(scale) == 0
    ensures (length / Width(scale)) * Width(scale) == length
    ensures (length / Width(scale)) * Width(newScale) == length / Width(scale - newScale)
  {
    var rows, d := length / Width(scale), scale - newScale;
    PowAdd(2, newScale, d);
    DivideOutOneFactor(rows, Width(newScale), Width(d), length);
  }

  lemma DivideOutOneFactor(rows: nat, a: nat, d: nat, length: nat)
    requires d > 0 && length == rows * (a * d)
    ensures rows * a == length / d
  {
    MulAssociates(rows, a, d);
    var q := rows * a;
    assert (q + 1) * d == q * d + d;
    DivUnique(length, d, q);
  }

  /**
   Perfect subsetting for every histogram the constructor accepts: at any lower scale the result is the list built
   directly at that scale from the same start, with the length divided by 2^(difference of scales).
   */
  method MakeThenSubset(scale: int, start: int, end: int, length: int, k: nat) returns (r: Result<Histogram, Panic>)
    requires k < scale
    ensures r.Ok? <==> && scale <= 3 && 0 < start < end && 12 <= length <= 160 && length % Width(scale) == 0
                       && 2 * end <= NextBucket(start, length, scale)
    ensures r.Ok? ==> r.value == Histogram(BucketList(start, k, length / Width(scale - k)), k)
  {
    var made := MakeSubsettableHistogram(scale, start, end, length);
    if made.Err? {
      return Err(made.error);
    }
    SubsetLength(scale, length, k);
    r := SubsetTo(made.value, k, start, length / Width(scale));
  }

  /** Observations in the bucket above `lo` up to and including `hi`. */
  function Count(observations: seq<int>, lo: nat, hi: nat): nat {
    if observations == [] then 0
    else (if lo < observations[0] <= hi then 1 else 0) + Count(observations[1..], lo, hi)
  }

  /** The counts of `n` consecutive buckets from boundary `first` on. */
  function CountsFrom(observations: seq<int>, start: nat, scale: nat, first: nat, n: nat): nat {
    if n == 0 then 0 else
      var last := Count(observations, NextBucket(start, first + n - 1, scale), NextBucket(start, first + n, scale));
      CountsFrom(observations, start, scale, first, n - 1) + last
  }

  lemma {:induction false} AdjacentCounts(observations: seq<int>, a: nat, b: nat, c: nat)
    requires a <= b <= c
    ensures Count(observations, a, c) == Count(observations, a, b) + Count(observations, b, c)
  {
    if observations != [] {
      AdjacentCounts(observations[1..], a, b, c);
    }
  }

  lemma {:induction false} BoundaryOrder(start: nat, scale: nat, first: nat, n: nat)
    ensures NextBucket(start, first, scale) <= NextBucket(start, first + n, scale)
  {
    if n > 0 {
      BoundaryOrder(start, scale, first, n - 1);
      BoundariesNeverDecrease(start, first + n - 1, scale);
    }
  }

  lemma {:induction false} CountsTelescope(observations: seq<int>, start: nat, scale: nat, first: nat, n: nat)
    ensures CountsFrom(observations, start, scale, first, n)
         == Count(observations, NextBucket(start, first, scale), NextBucket(start, first + n, scale))
  {
    if n > 0 {
      CountsTelescope(observations, start, scale, first, n - 1);
      BoundaryOrder(start, scale, first, n - 1);
      BoundariesNeverDecrease(start, first + n - 1, scale);
      AdjacentCounts(observations, NextBucket(start, first, scale), NextBucket(start, first + n - 1, scale),
          NextBucket(start, first + n, scale));
    } else {
      EmptyBucket(observations, NextBucket(start, first, scale));
    }
  }

  lemma {:induction false} EmptyBucket(observations: seq<int>, b: nat)
    ensures Count(observations, b, b) == 0
  {
    if observations != [] {
      EmptyBucket(observations[1..], b);
    }
  }

  /** Merging fine counts is exact: a coarse bucket counts what its fine buckets count together. */
  lemma MergingCountsLosesNothing(observations: seq<int>, start: nat, num: nat, scale: nat, lower: nat)
    ensures Count(observations, NextBucket(start, num, scale), NextBucket(start, num + 1, scale))
         == CountsFrom(observations, start, scale + lower, num * Width(lower), Width(lower))
  {
    CountsTelescope(observations, start, scale + lower, num * Width(lower), Width(lower));
    CoarseBoundaryIsFine(start, num, scale, lower);
    CoarseBoundaryIsFine(start, num + 1, scale, lower);
    assert (num + 1) * Width(lower) == num * Width(lower) + Width(lower);
  }
}
