/** The C solution of the maximum sub-rectangle problem
    (trabalhos/uva_108_maximum_number/main.c): Kadane's scan over a row, and
    the strip-by-strip reduction of the matrix to rows of column sums. */
module MaxSumC {
  import opened MaxSumSpec

  const IntMin: int := -2147483648
  const IntMax: int := 2147483647

  /** `maxSumArray`: the largest sum of a non-empty contiguous run. */
  method MaxSumArray(a: seq<int>) returns (maxSum: int)
    requires |a| >= 1
    ensures IsMaxSubarraySum(a, maxSum)
    ensures forall k :: 0 <= k < |a| ==> a[k] <= maxSum
  {
    maxSum := a[0];
    var currentSum := a[0];
    KadaneStart(a);
    var i := 1;
    while i < |a|
      invariant 1 <= i <= |a|
      invariant IsBestEndingAt(a, i, currentSum)
      invariant IsBestWithin(a, i, maxSum)
    {
      KadaneStep(a, i, currentSum, maxSum);
      currentSum := currentSum + a[i];
      currentSum := if a[i] > currentSum then a[i] else currentSum;
      maxSum := if currentSum > maxSum then currentSum else maxSum;
      i := i + 1;
    }
    KadaneEnd(a, maxSum);
    MaxSubarrayAtLeastElements(a, maxSum);
  }

  /** The innermost loop of `maxSumMatrix`: adds a matrix row, entry by
      entry, to the running column sums. */
  method AddRow(columns: seq<int>, row: seq<int>) returns (next: seq<int>)
    requires |columns| == |row|
    ensures |next| == |columns|
    ensures forall q :: 0 <= q < |next| ==> next[q] == columns[q] + row[q]
  {
    next := columns;
    var k := 0;
    while k < |columns|
      invariant 0 <= k <= |columns|
      invariant |next| == |columns|
      invariant forall q :: 0 <= q < k ==> next[q] == columns[q] + row[q]
      invariant forall q :: k <= q < |columns| ==> next[q] == columns[q]
    {
      next := next[k := next[k] + row[k]];
      k := k + 1;
    }
  }

  lemma ColumnSumsExtend(m: seq<seq<int>>, i: int, j: int, next: seq<int>)
    requires IsSquare(m)
    requires 0 <= i <= j < |m|
    requires |next| == |m|
    requires forall q :: 0 <= q < |m| ==> next[q] == ColumnSums(m, i, j)[q] + m[j][q]
    ensures next == ColumnSums(m, i, j + 1)
  {
  }

  /** The first strip's best run is at least m[0][0], so it replaces INT_MIN. */
  lemma FirstStripBeatsIntMin(m: seq<seq<int>>, stripBest: int)
    requires IsSquare(m) && |m| >= 1
    requires IntMin <= m[0][0]
    requires IsMaxSubarraySum(ColumnSums(m, 0, 1), stripBest)
    ensures stripBest >= IntMin
  {
    RectSumByColumns(m, 0, 1, 0, 1);
    var cs := ColumnSums(m, 0, 1);
    assert Sum(cs, 0, 1) == cs[0];
  }

  /** One pass of the middle loop of `maxSumMatrix`: adds row j to the
      column sums of the strip starting at row i and folds the strip's best
      run into the running maximum. */
  method ScanStrip(m: seq<seq<int>>, i: int, j: int, columns: seq<int>, maxSum: int)
      returns (columns': seq<int>, maxSum': int)
    requires IsSquare(m)
    requires forall r, c :: 0 <= r < |m| && 0 <= c < |m| ==> IntMin <= m[r][c] <= IntMax
    requires 0 <= i <= j < |m|
    requires columns == ColumnSums(m, i, j)
    requires BoundsScanned(m, i, j, maxSum)
    requires j > i || i > 0 ==> AttainedScanned(m, i, j, maxSum)
    requires j == i && i == 0 ==> maxSum == IntMin
    ensures columns' == ColumnSums(m, i, j + 1)
    ensures BoundsScanned(m, i, j + 1, maxSum')
    ensures AttainedScanned(m, i, j + 1, maxSum')
  {
    columns' := AddRow(columns, m[j]);
    ColumnSumsExtend(m, i, j, columns');
    var sumArray := MaxSumArray(columns');
    StripStep(m, i, j, maxSum, sumArray);
    if j == i && i == 0 {
      FirstStripBeatsIntMin(m, sumArray);
    }
    maxSum' := if sumArray > maxSum then sumArray else maxSum;
  }

  /** The middle loop of `maxSumMatrix` for the strips starting at row i:
      column sums restart at zero, then grow one row at a time. */
  method ScanStrips(m: seq<seq<int>>, i: int, maxSum: int) returns (maxSum': int)
    requires IsSquare(m)
    requires forall r, c :: 0 <= r < |m| && 0 <= c < |m| ==> IntMin <= m[r][c] <= IntMax
    requires 0 <= i < |m|
    requires BoundsScanned(m, i, i, maxSum)
    requires i > 0 ==> AttainedScanned(m, i, i, maxSum)
    requires i == 0 ==> maxSum == IntMin
    ensures BoundsScanned(m, i, |m|, maxSum')
    ensures AttainedScanned(m, i, |m|, maxSum')
  {
    var n := |m|;
    maxSum' := maxSum;
    var columns := seq(n, k => 0);
    var j := i;
    while j < n
      invariant i <= j <= n
      invariant columns == ColumnSums(m, i, j)
      invariant BoundsScanned(m, i, j, maxSum')
      invariant j > i || i > 0 ==> AttainedScanned(m, i, j, maxSum')
      invariant j == i && i == 0 ==> maxSum' == IntMin
    {
      columns, maxSum' := ScanStrip(m, i, j, columns, maxSum');
      j := j + 1;
    }
  }

  /** `maxSumMatrix`: the largest sum of a non-empty sub-rectangle, found by
      running `MaxSumArray` on the column sums of every strip of rows. It is
      INT_MIN for an empty matrix. */
  method MaxSumMatrix(m: seq<seq<int>>) returns (maxSum: int)
    requires IsSquare(m)
    requires forall r, c :: 0 <= r < |m| && 0 <= c < |m| ==> IntMin <= m[r][c] <= IntMax
    ensures |m| == 0 ==> maxSum == IntMin
    ensures |m| > 0 ==> IsMaxRectSum(m, maxSum)
    ensures forall r, c :: 0 <= r < |m| && 0 <= c < |m| ==> m[r][c] <= maxSum
  {
    var n := |m|;
    maxSum := IntMin;
    var i := 0;
    while i < n
      invariant 0 <= i <= n
      invariant BoundsScanned(m, i, i, maxSum)
      invariant i > 0 ==> AttainedScanned(m, i, i, maxSum)
      invariant i == 0 ==> maxSum == IntMin
    {
      maxSum := ScanStrips(m, i, maxSum);
      ScannedNextStrip(m, i, maxSum);
      i := i + 1;
    }
    if n > 0 {
      ScannedAll(m, maxSum);
      MaxRectAtLeastEntries(m, maxSum);
    }
  }
}
