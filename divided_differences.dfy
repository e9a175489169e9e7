/**
 * The Newton divided-difference table of lab 3 (lab3/lab_3.py,
 * `_getNDDCoeffs`): an n x n table whose column 0 is y and whose column j
 * holds the divided differences of order j, filled column by column; its
 * first row holds the coefficients of Newton's interpolating polynomial.
 */
module NewtonInterpolation {
  import opened Wrappers

  /** The first n nodes are pairwise different, so no denominator x[i+j] - x[i] is zero. */
  predicate DistinctNodes(x: seq<real>, n: nat)
    requires n <= |x|
  {
    forall p, q :: 0 <= p < q < n ==> x[p] != x[q]
  }

  /** The step of the recurrence: (upper - lower) / width. */
  function DifferenceQuotient(upper: real, lower: real, width: real): real
    requires width != 0.0
  {
    (upper - lower) / width
  }

  /** The divided difference f[x_i, ..., x_{i+j}] of the data (x, y). */
  function DividedDifference(x: seq<real>, y: seq<real>, i: nat, j: nat): real
    requires |y| <= |x| && DistinctNodes(x, |y|) && i + j < |y|
    decreases j
  {
    if j == 0 then y[i]
    else
      DifferenceQuotient(DividedDifference(x, y, i + 1, j - 1), DividedDifference(x, y, i, j - 1), x[i + j] - x[i])
  }

  /**
   * The table holds its final entries in every column before j and in the
   * first i rows of column j, and zeros everywhere else.
   */
  ghost predicate FilledUpTo(pyramid: array2<real>, x: seq<real>, y: seq<real>, j: nat, i: nat)
    requires |y| <= |x| && DistinctNodes(x, |y|)
    reads pyramid
  {
    && pyramid.Length0 == |y| && pyramid.Length1 == |y|
    && forall r, c :: 0 <= r < |y| && 0 <= c < |y| ==>
         pyramid[r, c] ==
           if (c < j || (c == j && r < i)) && r + c < |y| then DividedDifference(x, y, r, c) else 0.0
  }

  /** The inner loop `for i in range(n - j)`: fill column j from column j - 1. */
  method FillColumn(pyramid: array2<real>, x: seq<real>, y: seq<real>, j: nat)
    requires |y| <= |x| && DistinctNodes(x, |y|) && 1 <= j < |y|
    requires FilledUpTo(pyramid, x, y, j, 0)
    modifies pyramid
    ensures FilledUpTo(pyramid, x, y, j + 1, 0)
  {
    var n := |y|;
    for i := 0 to n - j
      invariant FilledUpTo(pyramid, x, y, j, i)
    {
      assert pyramid[i + 1, j - 1] == DividedDifference(x, y, i + 1, j - 1);
      assert pyramid[i, j - 1] == DividedDifference(x, y, i, j - 1);
      pyramid[i, j] := (pyramid[i + 1, j - 1] - pyramid[i, j - 1]) / (x[i + j] - x[i]);
    }
  }

  /**
   * The pyramid: `np.zeros([n, n])`, column 0 set to y, then for each column
   * j >= 1 the rows i < n - j set from column j - 1. Entries with i + j >= n
   * and j >= 1 are never written and stay 0.
   */
  method BuildPyramid(x: seq<real>, y: seq<real>) returns (pyramid: array2<real>)
    requires |y| <= |x| && DistinctNodes(x, |y|)
    ensures fresh(pyramid)
    ensures pyramid.Length0 == |y| && pyramid.Length1 == |y|
    ensures forall i, j :: 0 <= i < |y| && 0 <= j < |y| ==>
      pyramid[i, j] == if i + j < |y| then DividedDifference(x, y, i, j) else 0.0
  {
    var n := |y|;
    pyramid := new real[n, n]((i, j) => 0.0);
    for i := 0 to n
      invariant FilledUpTo(pyramid, x, y, 0, i)
    {
      pyramid[i, 0] := y[i];
    }
    var j := 1;
    while j < n
      invariant 1 <= j && FilledUpTo(pyramid, x, y, j, 0)
    {
      FillColumn(pyramid, x, y, j);
      j := j + 1;
    }
  }

  /**
   * _getNDDCoeffs: the first row of the pyramid, coefficient k being the
   * divided difference f[x_0, ..., x_k]. With no data numpy raises IndexError
   * already when it stores y into column 0 of the 0 x 0 table, which is None here.
   */
  method GetNDDCoeffs(x: seq<real>, y: seq<real>) returns (coeffs: Option<seq<real>>)
    requires |y| <= |x| && DistinctNodes(x, |y|)
    ensures coeffs.None? <==> |y| == 0
    ensures coeffs.Some? ==> |coeffs.value| == |y|
    ensures coeffs.Some? ==> forall k :: 0 <= k < |y| ==> coeffs.value[k] == DividedDifference(x, y, 0, k)
  {
    var pyramid := BuildPyramid(x, y);
    if |y| == 0 {
      return None;
    }
    var row := seq(|y|, k requires 0 <= k < |y| reads pyramid => pyramid[0, k]);
    return Some(row);
  }

  /** The first two coefficients: y[0], then the slope (y[1] - y[0]) / (x[1] - x[0]). */
  lemma FirstCoefficients(x: seq<real>, y: seq<real>)
    requires |y| <= |x| && DistinctNodes(x, |y|) && |y| >= 1
    ensures DividedDifference(x, y, 0, 0) == y[0]
    ensures |y| >= 2 ==> DividedDifference(x, y, 0, 1) == (y[1] - y[0]) / (x[1] - x[0])
  {
  }

  /**
   * Data taken from a line y = c * x + d: the divided differences of order 0
   * are the values, those of order 1 are the slope c, and all higher ones are 0
   * (the interpolating polynomial has degree at most 1).
   */
  lemma {:induction false} LinearDataDifferences(x: seq<real>, y: seq<real>, c: real, d: real, i: nat, j: nat)
    requires |y| <= |x| && DistinctNodes(x, |y|) && i + j < |y|
    requires forall k :: 0 <= k < |y| ==> y[k] == c * x[k] + d
    ensures DividedDifference(x, y, i, j) == if j == 0 then y[i] else if j == 1 then c else 0.0
    decreases j
  {
    if j == 1 {
      LineSlope(x, y, c, d, i);
    } else if j >= 2 {
      LinearDataDifferences(x, y, c, d, i + 1, j - 1);
      LinearDataDifferences(x, y, c, d, i, j - 1);
      EqualDifferencesCancel(x, y, i, j);
    }
  }

  /** First-order differences of data on a line are its slope. */
  lemma LineSlope(x: seq<real>, y: seq<real>, c: real, d: real, i: nat)
    requires |y| <= |x| && DistinctNodes(x, |y|) && i + 1 < |y|
    requires y[i] == c * x[i] + d && y[i + 1] == c * x[i + 1] + d
    ensures DividedDifference(x, y, i, 1) == c
  {
    SlopeOfLine(x[i], x[i + 1], y[i], y[i + 1], c, d);
  }

  /** Two equal differences of order j - 1 give a zero difference of order j. */
  lemma EqualDifferencesCancel(x: seq<real>, y: seq<real>, i: nat, j: nat)
    requires |y| <= |x| && DistinctNodes(x, |y|) && 1 <= j && i + j < |y|
    requires DividedDifference(x, y, i + 1, j - 1) == DividedDifference(x, y, i, j - 1)
    ensures DividedDifference(x, y, i, j) == 0.0
  {
  }

  /** Two points on the line y = c * x + d have slope c. */
  lemma SlopeOfLine(x0: real, x1: real, y0: real, y1: real, c: real, d: real)
    requires x0 != x1 && y0 == c * x0 + d && y1 == c * x1 + d
    ensures (y1 - y0) / (x1 - x0) == c
  {
    assert y1 - y0 == c * (x1 - x0);
  }

  /** Divided differences are linear in the data: those of y + z are the sums. */
  lemma {:induction false} DifferencesAdd(x: seq<real>, y: seq<real>, z: seq<real>, sum: seq<real>, i: nat, j: nat)
    requires |y| == |z| == |sum| && |y| <= |x| && DistinctNodes(x, |y|) && i + j < |y|
    requires forall k :: 0 <= k < |y| ==> sum[k] == y[k] + z[k]
    ensures DividedDifference(x, sum, i, j) == DividedDifference(x, y, i, j) + DividedDifference(x, z, i, j)
    decreases j
  {
    if j == 0 {
      assert sum[i] == y[i] + z[i];
    } else {
      DifferencesAdd(x, y, z, sum, i + 1, j - 1);
      DifferencesAdd(x, y, z, sum, i, j - 1);
      DifferencesAddStep(x, y, z, sum, i, j);
    }
  }

  /** One step of DifferencesAdd: sums of order j - 1 give a sum of order j. */
  lemma DifferencesAddStep(x: seq<real>, y: seq<real>, z: seq<real>, sum: seq<real>, i: nat, j: nat)
    requires |y| == |z| == |sum| && |y| <= |x| && DistinctNodes(x, |y|) && 1 <= j && i + j < |y|
    requires DividedDifference(x, sum, i + 1, j - 1) ==
      DividedDifference(x, y, i + 1, j - 1) + DividedDifference(x, z, i + 1, j - 1)
    requires DividedDifference(x, sum, i, j - 1) ==
      DividedDifference(x, y, i, j - 1) + DividedDifference(x, z, i, j - 1)
    ensures DividedDifference(x, sum, i, j) == DividedDifference(x, y, i, j) + DividedDifference(x, z, i, j)
  {
    QuotientsAdd(DividedDifference(x, y, i + 1, j - 1), DividedDifference(x, y, i, j - 1),
                 DividedDifference(x, z, i + 1, j - 1), DividedDifference(x, z, i, j - 1),
                 x[i + j] - x[i]);
  }

  /** The difference quotient of a sum of data is the sum of the quotients. */
  lemma QuotientsAdd(y1: real, y0: real, z1: real, z0: real, dx: real)
    requires dx != 0.0
    ensures DifferenceQuotient(y1 + z1, y0 + z0, dx) == DifferenceQuotient(y1, y0, dx) + DifferenceQuotient(z1, z0, dx)
  {
    assert (y1 + z1) - (y0 + z0) == (y1 - y0) + (z1 - z0);
  }
}
