/**
 * The two pieces of arithmetic in the plotting code: the size of the subplot grid that
 * holds one panel per summary column, and the 1.5 x IQR rule that drops outliers from a
 * column before its histogram is drawn.
 */
module Plotting {
  import OrderStatistics

  // ---------------------------------------------------------------------------
  // Subplot grid

  /** The largest r with r * r <= n, searching upward from `from`. */
  function SqrtFrom(n: nat, from: nat): (r: nat)
    requires from * from <= n
    ensures r * r <= n < (r + 1) * (r + 1)
    decreases n - from
  {
    if (from + 1) * (from + 1) > n then from
    else
      assert from < n by {
        assert from * from < (from + 1) * (from + 1) <= n;
        if from > 0 {
          assert from <= from * from;
        }
      }
      SqrtFrom(n, from + 1)
  }

  /** `int(np.sqrt(n))`: the integer square root. */
  function IntSqrt(n: nat): (r: nat)
    ensures r * r <= n < (r + 1) * (r + 1)
  {
    SqrtFrom(n, 0)
  }

  /**
   * Rows and columns of the grid for `n` panels: one row more than the integer square
   * root, and as many columns, less one when the panels past the square fit in a row
   * that short.
   */
  function GridShape(n: nat): (shape: (nat, nat))
    ensures shape.0 >= 1 && shape.1 <= shape.0 <= shape.1 + 1
  {
    var rows := IntSqrt(n) + 1;
    var cols := if n - (rows - 1) * (rows - 1) <= rows - 1 then rows - 1 else rows;
    (rows, cols)
  }

  /**
   * Every panel has a subplot, and fewer than a full column of subplots stays empty
   * (though for a perfect square a whole row does: 4 panels get a 3 x 2 grid).
   */
  lemma GridFitsAllPanels(n: nat)
    ensures var (rows, cols) := GridShape(n);
      n <= rows * cols && rows * cols - n < rows
  {
    var r := IntSqrt(n);
    var (rows, cols) := GridShape(n);
    assert rows == r + 1;
    if n - r * r <= r {
      assert cols == r;
      assert rows * cols == r * r + r;
    } else {
      assert cols == r + 1;
      assert rows * cols == (r + 1) * (r + 1);
      assert (r + 1) * (r + 1) == r * r + 2 * r + 1;
    }
  }

  lemma SquareMonotone(a: nat, b: nat)
    requires a <= b
    ensures a * a <= b * b
  {
    assert a * a <= a * b <= b * b;
  }

  /** Only one number has its square at most n and the next square above n. */
  lemma RootIsUnique(n: nat, q: nat, r: nat)
    requires q * q <= n < (q + 1) * (q + 1)
    requires r * r <= n < (r + 1) * (r + 1)
    ensures q == r
  {
    if q < r {
      SquareMonotone(q + 1, r);
    } else if q > r {
      SquareMonotone(r + 1, q);
    }
  }

  /** The integer square root of a perfect square is its root. */
  lemma IntSqrtOfSquare(r: nat)
    ensures IntSqrt(r * r) == r
  {
    var n := r * r;
    assert n < (r + 1) * (r + 1) by {
      assert (r + 1) * (r + 1) == n + 2 * r + 1;
    }
    RootIsUnique(n, IntSqrt(n), r);
  }

  /** r * r panels get r + 1 rows of r columns: a whole row stays empty. */
  lemma PerfectSquareLeavesEmptyRow(r: nat)
    requires r >= 1
    ensures GridShape(r * r) == (r + 1, r)
  {
    IntSqrtOfSquare(r);
  }

  // ---------------------------------------------------------------------------
  // Outlier filter

  /** The values of `xs` strictly between `lo` and `hi`, in their order. */
  function StrictlyBetween(xs: seq<real>, lo: real, hi: real): (kept: seq<real>)
    ensures |kept| <= |xs| && multiset(kept) <= multiset(xs)
  {
    if xs == [] then []
    else
      assert xs == xs[..|xs| - 1] + [xs[|xs| - 1]];
      var rest := StrictlyBetween(xs[..|xs| - 1], lo, hi);
      var x := xs[|xs| - 1];
      if lo < x < hi then rest + [x] else rest
  }

  /** The values of `xs` between `lo` and `hi`, the bounds included, in their order. */
  function Between(xs: seq<real>, lo: real, hi: real): (kept: seq<real>)
    ensures |kept| <= |xs| && multiset(kept) <= multiset(xs)
  {
    if xs == [] then []
    else
      assert xs == xs[..|xs| - 1] + [xs[|xs| - 1]];
      var rest := Between(xs[..|xs| - 1], lo, hi);
      var x := xs[|xs| - 1];
      if lo <= x <= hi then rest + [x] else rest
  }

  lemma {:induction false} StrictlyBetweenKeepsExactly(xs: seq<real>, lo: real, hi: real, x: real)
    ensures x in StrictlyBetween(xs, lo, hi) <==> x in xs && lo < x < hi
  {
    if xs != [] {
      StrictlyBetweenKeepsExactly(xs[..|xs| - 1], lo, hi, x);
      assert xs == xs[..|xs| - 1] + [xs[|xs| - 1]];
    }
  }

  lemma {:induction false} BetweenKeepsExactly(xs: seq<real>, lo: real, hi: real, x: real)
    ensures x in Between(xs, lo, hi) <==> x in xs && lo <= x <= hi
  {
    if xs != [] {
      BetweenKeepsExactly(xs[..|xs| - 1], lo, hi, x);
      assert xs == xs[..|xs| - 1] + [xs[|xs| - 1]];
    }
  }

  /** Tukey's fences: 1.5 interquartile ranges below the first and above the third quartile. */
  function Fences(xs: seq<real>): (fences: (real, real))
    requires |xs| > 0
  {
    var q1, q3 := OrderStatistics.Quantile(xs, 1), OrderStatistics.Quantile(xs, 3);
    var iqr := q3 - q1;
    (q1 - 1.5 * iqr, q3 + 1.5 * iqr)
  }

  /**
   * The column with outliers dropped, as the histogram code writes it: a value is kept
   * only strictly inside the fences. An empty column has NaN quartiles and keeps nothing.
   */
  function DropOutliersAsWritten(xs: seq<real>): (kept: seq<real>)
    ensures multiset(kept) <= multiset(xs)
  {
    if xs == [] then [] else StrictlyBetween(xs, Fences(xs).0, Fences(xs).1)
  }

  /** The rule as Tukey states it: only values beyond a fence are outliers. */
  function DropOutliers(xs: seq<real>): (kept: seq<real>)
    ensures multiset(kept) <= multiset(xs)
  {
    if xs == [] then [] else Between(xs, Fences(xs).0, Fences(xs).1)
  }

  /** The quartiles lie between the fences when the interquartile range is not negative. */
  lemma QuartilesWithinFences(xs: seq<real>)
    requires |xs| > 0
    ensures Fences(xs).0 <= OrderStatistics.Quantile(xs, 1) <= OrderStatistics.Quantile(xs, 3) <= Fences(xs).1
  {
    OrderStatistics.QuantileMonotone(xs, 1, 3);
  }

  /** Every value from the first to the third quartile survives the corrected rule. */
  lemma DropOutliersKeepsTheMiddleHalf(xs: seq<real>, x: real)
    requires |xs| > 0 && x in xs
    requires OrderStatistics.Quantile(xs, 1) <= x <= OrderStatistics.Quantile(xs, 3)
    ensures x in DropOutliers(xs)
  {
    QuartilesWithinFences(xs);
    BetweenKeepsExactly(xs, Fences(xs).0, Fences(xs).1, x);
  }

  /** The corrected rule keeps a value exactly when it is in the column and within the fences. */
  lemma DropOutliersKeepsExactly(xs: seq<real>, x: real)
    requires |xs| > 0
    ensures x in DropOutliers(xs) <==> x in xs && Fences(xs).0 <= x <= Fences(xs).1
  {
    BetweenKeepsExactly(xs, Fences(xs).0, Fences(xs).1, x);
  }

  /** The corrected rule drops no value the rule as written keeps. */
  lemma DropOutliersKeepsWhatAsWrittenKeeps(xs: seq<real>, x: real)
    ensures x in DropOutliersAsWritten(xs) ==> x in DropOutliers(xs)
  {
    if xs != [] {
      StrictlyBetweenKeepsExactly(xs, Fences(xs).0, Fences(xs).1, x);
      BetweenKeepsExactly(xs, Fences(xs).0, Fences(xs).1, x);
    }
  }

  /** Sorting a column of equal values leaves only that value. */
  lemma SortOfConstant(xs: seq<real>, c: real)
    requires forall i :: 0 <= i < |xs| ==> xs[i] == c
    ensures forall i :: 0 <= i < |OrderStatistics.Sort(xs)| ==> OrderStatistics.Sort(xs)[i] == c
  {
    var s := OrderStatistics.Sort(xs);
    forall i | 0 <= i < |s| ensures s[i] == c {
      assert s[i] in multiset(xs);
    }
  }

  /** All quartiles of a column holding a single repeated value are that value. */
  lemma QuantileOfConstant(xs: seq<real>, c: real, k: nat)
    requires |xs| > 0 && k <= 4 && forall i :: 0 <= i < |xs| ==> xs[i] == c
    ensures OrderStatistics.Quantile(xs, k) == c
  {
    SortOfConstant(xs, c);
  }

  /**
   * As written, a column whose values are all equal (an interquartile range of 0, as
   * in a column of zero gap counts) loses every value.
   */
  lemma ConstantColumnLosesEveryValue(xs: seq<real>, c: real)
    requires |xs| > 0 && forall i :: 0 <= i < |xs| ==> xs[i] == c
    ensures DropOutliersAsWritten(xs) == []
    ensures DropOutliers(xs) == xs
  {
    QuantileOfConstant(xs, c, 1);
    QuantileOfConstant(xs, c, 3);
    var lo, hi := Fences(xs).0, Fences(xs).1;
    assert lo == c && hi == c;
    NothingStrictlyBetweenEqualBounds(xs, c);
    AllBetweenEqualBounds(xs, c);
  }

  lemma {:induction false} NothingStrictlyBetweenEqualBounds(xs: seq<real>, c: real)
    ensures StrictlyBetween(xs, c, c) == []
  {
    if xs != [] {
      NothingStrictlyBetweenEqualBounds(xs[..|xs| - 1], c);
    }
  }

  lemma {:induction false} AllBetweenEqualBounds(xs: seq<real>, c: real)
    requires forall i :: 0 <= i < |xs| ==> xs[i] == c
    ensures Between(xs, c, c) == xs
  {
    if xs != [] {
      AllBetweenEqualBounds(xs[..|xs| - 1], c);
      assert xs == xs[..|xs| - 1] + [xs[|xs| - 1]];
    }
  }
}
