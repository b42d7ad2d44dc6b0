/**
 * Column statistics of a cleaned station series, over exact reals: minimum, maximum,
 * arithmetic mean, median and the linear-interpolated quantiles used for q1 and q3.
 */
module OrderStatistics {

  function Sum(xs: seq<real>): real {
    if xs == [] then 0.0 else Sum(xs[..|xs| - 1]) + xs[|xs| - 1]
  }

  function Min(xs: seq<real>): (m: real)
    requires |xs| > 0
    ensures m in xs
    ensures forall i :: 0 <= i < |xs| ==> m <= xs[i]
  {
    if |xs| == 1 then xs[0]
    else
      var rest := Min(xs[1..]);
      if xs[0] <= rest then xs[0] else rest
  }

  function Max(xs: seq<real>): (m: real)
    requires |xs| > 0
    ensures m in xs
    ensures forall i :: 0 <= i < |xs| ==> xs[i] <= m
  {
    if |xs| == 1 then xs[0]
    else
      var rest := Max(xs[1..]);
      if xs[0] >= rest then xs[0] else rest
  }

  lemma {:induction false} SumAtLeast(xs: seq<real>, lo: real)
    requires forall i :: 0 <= i < |xs| ==> lo <= xs[i]
    ensures |xs| as real * lo <= Sum(xs)
  {
    if xs != [] {
      SumAtLeast(xs[..|xs| - 1], lo);
    }
  }

  lemma {:induction false} SumAtMost(xs: seq<real>, hi: real)
    requires forall i :: 0 <= i < |xs| ==> xs[i] <= hi
    ensures Sum(xs) <= |xs| as real * hi
  {
    if xs != [] {
      SumAtMost(xs[..|xs| - 1], hi);
    }
  }

  /** The arithmetic mean: the sum shared evenly over the values. */
  function Mean(xs: seq<real>): (m: real)
    requires |xs| > 0
    ensures m * |xs| as real == Sum(xs)
  {
    Sum(xs) / |xs| as real
  }

  lemma ProductNonNegative(x: real, y: real)
    requires x >= 0.0 && y >= 0.0
    ensures x * y >= 0.0
  {
  }

  lemma PositiveFactor(x: real, y: real)
    requires y > 0.0 && x * y >= 0.0
    ensures x >= 0.0
  {
  }

  lemma IntProductNonNegative(x: int, y: int)
    requires x >= 0 && y >= 0
    ensures x * y >= 0
  {
  }

  /** Scaling by a positive factor keeps the order. */
  lemma ScaledOrder(a: real, b: real, n: real)
    requires n > 0.0 && n * a <= n * b
    ensures a <= b
  {
    assert n * b - n * a == (b - a) * n;
    PositiveFactor(b - a, n);
  }

  /** A mean of values that are all at least `lo` is at least `lo`. */
  lemma MeanAtLeast(xs: seq<real>, lo: real)
    requires |xs| > 0 && forall i :: 0 <= i < |xs| ==> lo <= xs[i]
    ensures lo <= Mean(xs)
  {
    SumAtLeast(xs, lo);
    ScaledOrder(lo, Mean(xs), |xs| as real);
  }

  /** A mean of values that are all at most `hi` is at most `hi`. */
  lemma MeanAtMost(xs: seq<real>, hi: real)
    requires |xs| > 0 && forall i :: 0 <= i < |xs| ==> xs[i] <= hi
    ensures Mean(xs) <= hi
  {
    SumAtMost(xs, hi);
    ScaledOrder(Mean(xs), hi, |xs| as real);
  }

  /** The mean lies between the smallest and the largest value. */
  lemma MeanBetweenMinAndMax(xs: seq<real>)
    requires |xs| > 0
    ensures Min(xs) <= Mean(xs) <= Max(xs)
  {
    MeanAtLeast(xs, Min(xs));
    MeanAtMost(xs, Max(xs));
  }

  predicate IsSorted(s: seq<real>) {
    forall i, j :: 0 <= i < j < |s| ==> s[i] <= s[j]
  }

  /** The head of a sorted list bounds any rearrangement of its tail with a larger `x` added. */
  lemma HeadBelowRest(x: real, s: seq<real>, tail: seq<real>)
    requires s != [] && IsSorted(s) && s[0] < x
    requires multiset(tail) == multiset(s[1..]) + multiset{x}
    ensures forall k :: 0 <= k < |tail| ==> s[0] <= tail[k]
    ensures multiset([s[0]] + tail) == multiset(s) + multiset{x}
  {
    assert s == [s[0]] + s[1..];
    forall k | 0 <= k < |tail| ensures s[0] <= tail[k] {
      assert tail[k] in multiset(tail);
    }
  }

  function Insert(x: real, s: seq<real>): (r: seq<real>)
    requires IsSorted(s)
    ensures IsSorted(r)
    ensures multiset(r) == multiset(s) + multiset{x}
  {
    if s == [] then [x]
    else if x <= s[0] then [x] + s
    else
      var tail := Insert(x, s[1..]);
      HeadBelowRest(x, s, tail);
      [s[0]] + tail
  }

  /** The values in ascending order: sorted, and a permutation of the input. */
  function Sort(xs: seq<real>): (s: seq<real>)
    ensures IsSorted(s)
    ensures multiset(s) == multiset(xs)
    ensures |s| == |xs|
  {
    if xs == [] then []
    else
      assert xs == [xs[0]] + xs[1..];
      Insert(xs[0], Sort(xs[1..]))
  }

  /**
   * The floor of the virtual index (n - 1) * k / 4 of the quantile at fraction k/4:
   * a position in the sample.
   */
  function QuantileIndex(n: nat, k: nat): (lo: nat)
    requires n > 0 && k <= 4
    ensures lo < n
  {
    IntProductNonNegative(n - 1, 4 - k);
    assert (n - 1) * 4 - (n - 1) * k == (n - 1) * (4 - k);
    (n - 1) * k / 4
  }

  /** The fractional part of the virtual index (n - 1) * k / 4. */
  function QuantileFraction(n: nat, k: nat): (f: real)
    requires n > 0 && k <= 4
    ensures 0.0 <= f < 1.0
  {
    ((n - 1) * k % 4) as real / 4.0
  }

  /** The value a fraction `frac` of the way from s[lo] to its successor (s[lo] itself at the end). */
  function Interpolate(s: seq<real>, lo: nat, frac: real): real
    requires lo < |s| && 0.0 <= frac < 1.0
  {
    if lo + 1 < |s| then s[lo] + frac * (s[lo + 1] - s[lo]) else s[lo]
  }

  /**
   * The quantile at fraction k/4 with linear interpolation: the sorted values read at
   * the virtual index (n - 1) * k / 4, interpolated between its two neighbours
   * (k = 1 gives q1, k = 3 gives q3).
   */
  function Quantile(xs: seq<real>, k: nat): (q: real)
    requires |xs| > 0 && k <= 4
    ensures Sort(xs)[0] <= q <= Sort(xs)[|xs| - 1]
  {
    var s, lo, frac := Sort(xs), QuantileIndex(|xs|, k), QuantileFraction(|xs|, k);
    var q := Interpolate(s, lo, frac);
    assert s[0] <= q <= s[|xs| - 1] by {
      InterpolateWithinEnds(s, lo, frac);
    }
    q
  }

  /** The median: the middle value, or the mean of the two middle values for an even count. */
  function Median(xs: seq<real>): (m: real)
    requires |xs| > 0
    ensures Sort(xs)[(|xs| - 1) / 2] <= m <= Sort(xs)[|xs| / 2]
  {
    var s := Sort(xs);
    var n := |s|;
    if n % 2 == 1 then
      assert (n - 1) / 2 == n / 2;
      s[n / 2]
    else
      assert (n - 1) / 2 == n / 2 - 1;
      MiddlePair(s);
      (s[n / 2 - 1] + s[n / 2]) / 2.0
  }

  lemma MiddlePair(s: seq<real>)
    requires IsSorted(s) && |s| >= 2
    ensures var a, b := s[|s| / 2 - 1], s[|s| / 2];
      a <= (a + b) / 2.0 <= b
  {
    assert s[|s| / 2 - 1] <= s[|s| / 2];
  }

  /** Interpolating in sorted values stays between the two neighbours. */
  lemma InterpolateBracket(s: seq<real>, lo: nat, frac: real)
    requires IsSorted(s) && lo < |s| && 0.0 <= frac < 1.0
    ensures s[lo] <= Interpolate(s, lo, frac)
    ensures lo + 1 < |s| ==> Interpolate(s, lo, frac) <= s[lo + 1]
    ensures lo + 1 == |s| ==> Interpolate(s, lo, frac) == s[lo]
  {
    if lo + 1 < |s| {
      var gap := s[lo + 1] - s[lo];
      ProductNonNegative(frac, gap);
      ProductNonNegative(1.0 - frac, gap);
      assert gap - frac * gap == (1.0 - frac) * gap;
    }
  }

  /** Interpolating inside a sorted list stays between its first and last values. */
  lemma InterpolateWithinEnds(s: seq<real>, lo: nat, frac: real)
    requires IsSorted(s) && lo < |s| && 0.0 <= frac < 1.0
    ensures s[0] <= Interpolate(s, lo, frac) <= s[|s| - 1]
  {
    InterpolateBracket(s, lo, frac);
  }

  /** Interpolating further along the same step never gives a smaller value. */
  lemma InterpolateMonotone(s: seq<real>, lo: nat, fa: real, fb: real)
    requires IsSorted(s) && lo < |s| && 0.0 <= fa <= fb < 1.0
    ensures Interpolate(s, lo, fa) <= Interpolate(s, lo, fb)
  {
    if lo + 1 < |s| {
      var gap := s[lo + 1] - s[lo];
      ProductNonNegative(fb - fa, gap);
      assert fb * gap - fa * gap == (fb - fa) * gap;
    }
  }

  /** A larger fraction has a later virtual index: a later floor, or the same floor and a larger remainder. */
  lemma PositionMonotone(n: nat, a: nat, b: nat)
    requires n > 0 && a <= b <= 4
    ensures QuantileIndex(n, a) <= QuantileIndex(n, b)
    ensures QuantileIndex(n, a) == QuantileIndex(n, b) ==> QuantileFraction(n, a) <= QuantileFraction(n, b)
  {
    var ha, hb := (n - 1) * a, (n - 1) * b;
    IntProductNonNegative(n - 1, b - a);
    assert hb - ha == (n - 1) * (b - a);
  }

  /** Quantiles are monotone in the fraction. */
  lemma QuantileMonotone(xs: seq<real>, a: nat, b: nat)
    requires |xs| > 0 && a <= b <= 4
    ensures Quantile(xs, a) <= Quantile(xs, b)
  {
    var s, n := Sort(xs), |xs|;
    var loA, loB := QuantileIndex(n, a), QuantileIndex(n, b);
    var fa, fb := QuantileFraction(n, a), QuantileFraction(n, b);
    PositionMonotone(n, a, b);
    if loA == loB {
      InterpolateMonotone(s, loA, fa, fb);
    } else {
      InterpolateBracket(s, loA, fa);
      InterpolateBracket(s, loB, fb);
      assert s[loA + 1] <= s[loB];
    }
  }

  /** The median is the quantile at one half. */
  lemma MedianIsMiddleQuantile(xs: seq<real>)
    requires |xs| > 0
    ensures Median(xs) == Quantile(xs, 2)
  {
    var n := |xs|;
    var h := (n - 1) * 2;
    if n % 2 == 1 {
      assert h % 4 == 0 && h / 4 == n / 2;
      assert QuantileFraction(n, 2) == 0.0;
    } else {
      assert h % 4 == 2 && h / 4 == n / 2 - 1;
      assert QuantileFraction(n, 2) == 0.5;
    }
  }

  /** The sorted values begin at the minimum and end at the maximum. */
  lemma SortedEnds(xs: seq<real>)
    requires |xs| > 0
    ensures Min(xs) <= Sort(xs)[0] && Sort(xs)[|xs| - 1] <= Max(xs)
  {
    var s := Sort(xs);
    assert s[0] in multiset(xs) && s[|xs| - 1] in multiset(xs);
  }

  /** The quantiles at fractions 0 and 1 are the smallest and the largest sorted value. */
  lemma QuantileEnds(xs: seq<real>)
    requires |xs| > 0
    ensures Quantile(xs, 0) == Sort(xs)[0]
    ensures Quantile(xs, 4) == Sort(xs)[|xs| - 1]
  {
    var n := |xs|;
    assert QuantileIndex(n, 0) == 0 && QuantileFraction(n, 0) == 0.0;
    assert QuantileIndex(n, 4) == n - 1;
  }

  /** The five-number summary of a column is ordered: min <= q1 <= median <= q3 <= max. */
  lemma FiveNumberOrder(xs: seq<real>)
    requires |xs| > 0
    ensures Min(xs) <= Quantile(xs, 1) <= Median(xs) <= Quantile(xs, 3) <= Max(xs)
  {
    SortedEnds(xs);
    QuantileEnds(xs);
    QuantileMonotone(xs, 0, 1);
    QuantileMonotone(xs, 1, 2);
    QuantileMonotone(xs, 2, 3);
    QuantileMonotone(xs, 3, 4);
    MedianIsMiddleQuantile(xs);
  }
}
