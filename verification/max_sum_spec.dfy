/** Reference definitions for the maximum-sum problems of
    trabalhos/uva_108_maximum_number: sums of contiguous runs and of
    sub-rectangles, and what it means to be the largest of them. */
module MaxSumSpec {

  /** a[i] + ... + a[j-1]. */
  function Sum(a: seq<int>, i: int, j: int): int
    requires 0 <= i <= j <= |a|
    decreases j - i
  {
    if i == j then 0 else Sum(a, i, j - 1) + a[j - 1]
  }

  /** `m` is the largest sum of a non-empty contiguous run of `a`. */
  ghost predicate IsMaxSubarraySum(a: seq<int>, m: int)
  {
    && (exists i, j :: 0 <= i < j <= |a| && Sum(a, i, j) == m)
    && (forall i, j :: 0 <= i < j <= |a| ==> Sum(a, i, j) <= m)
  }

  /** Best sum of a non-empty run a[i..e). */
  ghost predicate IsBestEndingAt(a: seq<int>, e: int, cur: int)
    requires 1 <= e <= |a|
  {
    && (exists i :: 0 <= i < e && Sum(a, i, e) == cur)
    && (forall i :: 0 <= i < e ==> Sum(a, i, e) <= cur)
  }

  /** Best sum of a non-empty run inside a[..e]. */
  ghost predicate IsBestWithin(a: seq<int>, e: int, best: int)
    requires 1 <= e <= |a|
  {
    && (exists i, j :: 0 <= i < j <= e && Sum(a, i, j) == best)
    && (forall i, j :: 0 <= i < j <= e ==> Sum(a, i, j) <= best)
  }

  lemma KadaneStart(a: seq<int>)
    requires |a| >= 1
    ensures IsBestEndingAt(a, 1, a[0])
    ensures IsBestWithin(a, 1, a[0])
  {
    assert Sum(a, 0, 1) == a[0];
  }

  /** One step of Kadane's algorithm: extend the best run ending before k by
      a[k] unless a[k] alone is better, then update the best so far. */
  lemma KadaneStep(a: seq<int>, k: int, cur: int, best: int)
    requires 1 <= k < |a|
    requires IsBestEndingAt(a, k, cur)
    requires IsBestWithin(a, k, best)
    ensures IsBestEndingAt(a, k + 1, if a[k] > cur + a[k] then a[k] else cur + a[k])
    ensures var c := if a[k] > cur + a[k] then a[k] else cur + a[k];
            IsBestWithin(a, k + 1, if c > best then c else best)
  {
    var e := k + 1;
    var c := if a[k] > cur + a[k] then a[k] else cur + a[k];
    assert Sum(a, k, e) == a[k];
    var i0 :| 0 <= i0 < k && Sum(a, i0, k) == cur;
    assert Sum(a, i0, e) == cur + a[k];
    forall i | 0 <= i < e
      ensures Sum(a, i, e) <= c
    {
      if i < k {
        assert Sum(a, i, e) == Sum(a, i, k) + a[k];
      }
    }
    assert IsBestEndingAt(a, e, c);
    var b := if c > best then c else best;
    forall i, j | 0 <= i < j <= e
      ensures Sum(a, i, j) <= b
    {
      if j == e {
        assert Sum(a, i, e) <= c;
      }
    }
    if c > best {
      var w :| 0 <= w < e && Sum(a, w, e) == c;
      assert 0 <= w < e <= e;
    } else {
      var i1, j1 :| 0 <= i1 < j1 <= k && Sum(a, i1, j1) == best;
      assert 0 <= i1 < j1 <= e;
    }
  }

  lemma KadaneEnd(a: seq<int>, best: int)
    requires |a| >= 1
    requires IsBestWithin(a, |a|, best)
    ensures IsMaxSubarraySum(a, best)
  {
  }

  lemma MaxSubarraySumUnique(a: seq<int>, m1: int, m2: int)
    requires IsMaxSubarraySum(a, m1) && IsMaxSubarraySum(a, m2)
    ensures m1 == m2
  {
    var i1, j1 :| 0 <= i1 < j1 <= |a| && Sum(a, i1, j1) == m1;
    var i2, j2 :| 0 <= i2 < j2 <= |a| && Sum(a, i2, j2) == m2;
  }

  /** The largest run sum is at least every element. */
  lemma MaxSubarrayAtLeastElements(a: seq<int>, m: int)
    requires IsMaxSubarraySum(a, m)
    ensures forall k :: 0 <= k < |a| ==> a[k] <= m
  {
    forall k | 0 <= k < |a|
      ensures a[k] <= m
    {
      assert Sum(a, k, k + 1) == a[k];
    }
  }

  // Matrices.

  /** Every row has as many entries as there are rows. */
  predicate IsSquare(m: seq<seq<int>>)
  {
    forall r :: 0 <= r < |m| ==> |m[r]| == |m|
  }

  /** Sum of the sub-rectangle with rows r1..r2-1 and columns c1..c2-1. */
  function RectSum(m: seq<seq<int>>, r1: int, r2: int, c1: int, c2: int): int
    requires IsSquare(m)
    requires 0 <= r1 <= r2 <= |m| && 0 <= c1 <= c2 <= |m|
    decreases r2 - r1
  {
    if r1 == r2 then 0 else RectSum(m, r1, r2 - 1, c1, c2) + Sum(m[r2 - 1], c1, c2)
  }

  /** Entry-wise sums of the columns over rows r1..r2-1. */
  function ColumnSums(m: seq<seq<int>>, r1: int, r2: int): (s: seq<int>)
    requires IsSquare(m)
    requires 0 <= r1 <= r2 <= |m|
    ensures |s| == |m|
    decreases r2 - r1
  {
    if r1 == r2 then seq(|m|, k => 0)
    else
      var prev := ColumnSums(m, r1, r2 - 1);
      seq(|m|, k requires 0 <= k < |m| => prev[k] + m[r2 - 1][k])
  }

  lemma SumOfPointwiseAdd(a: seq<int>, b: seq<int>, c: seq<int>, i: int, j: int)
    requires |a| == |b| == |c|
    requires forall k :: 0 <= k < |c| ==> c[k] == a[k] + b[k]
    requires 0 <= i <= j <= |a|
    ensures Sum(c, i, j) == Sum(a, i, j) + Sum(b, i, j)
    decreases j - i
  {
    if i < j {
      SumOfPointwiseAdd(a, b, c, i, j - 1);
    }
  }

  lemma SumOfZeros(a: seq<int>, i: int, j: int)
    requires forall k :: 0 <= k < |a| ==> a[k] == 0
    requires 0 <= i <= j <= |a|
    ensures Sum(a, i, j) == 0
    decreases j - i
  {
    if i < j {
      SumOfZeros(a, i, j - 1);
    }
  }

  /** A rectangle's sum is the run sum of its strip's column sums. */
  lemma {:induction false} RectSumByColumns(m: seq<seq<int>>, r1: int, r2: int, c1: int, c2: int)
    requires IsSquare(m)
    requires 0 <= r1 <= r2 <= |m| && 0 <= c1 <= c2 <= |m|
    ensures RectSum(m, r1, r2, c1, c2) == Sum(ColumnSums(m, r1, r2), c1, c2)
    decreases r2 - r1
  {
    if r1 == r2 {
      SumOfZeros(ColumnSums(m, r1, r2), c1, c2);
    } else {
      RectSumByColumns(m, r1, r2 - 1, c1, c2);
      SumOfPointwiseAdd(ColumnSums(m, r1, r2 - 1), m[r2 - 1], ColumnSums(m, r1, r2), c1, c2);
    }
  }

  /** `v` is the largest sum of a non-empty sub-rectangle of `m`. */
  ghost predicate IsMaxRectSum(m: seq<seq<int>>, v: int)
    requires IsSquare(m)
  {
    && (exists r1, r2, c1, c2 :: 0 <= r1 < r2 <= |m| && 0 <= c1 < c2 <= |m| && RectSum(m, r1, r2, c1, c2) == v)
    && (forall r1, r2, c1, c2 :: 0 <= r1 < r2 <= |m| && 0 <= c1 < c2 <= |m| ==> RectSum(m, r1, r2, c1, c2) <= v)
  }

  /** Rectangles already examined once the strips starting above row i, and
      the strips from row i down to row j-1, have been scanned. */
  ghost predicate Scanned(i: int, j: int, r1: int, r2: int)
  {
    r1 < i || (r1 == i && r2 <= j)
  }

  ghost predicate BoundsScanned(m: seq<seq<int>>, i: int, j: int, best: int)
    requires IsSquare(m)
  {
    forall r1, r2, c1, c2 :: 0 <= r1 < r2 <= |m| && 0 <= c1 < c2 <= |m| && Scanned(i, j, r1, r2) ==>
      RectSum(m, r1, r2, c1, c2) <= best
  }

  ghost predicate AttainedScanned(m: seq<seq<int>>, i: int, j: int, best: int)
    requires IsSquare(m)
  {
    exists r1, r2, c1, c2 :: 0 <= r1 < r2 <= |m| && 0 <= c1 < c2 <= |m| && Scanned(i, j, r1, r2) &&
      RectSum(m, r1, r2, c1, c2) == best
  }

  /** Folding in the best run of the strip rows i..j into the running
      maximum extends the scanned region by that strip. */
  lemma StripStep(m: seq<seq<int>>, i: int, j: int, best: int, stripBest: int)
    requires IsSquare(m)
    requires 0 <= i <= j < |m|
    requires BoundsScanned(m, i, j, best)
    requires IsMaxSubarraySum(ColumnSums(m, i, j + 1), stripBest)
    ensures BoundsScanned(m, i, j + 1, if stripBest > best then stripBest else best)
    ensures stripBest >= best ==> AttainedScanned(m, i, j + 1, stripBest)
    ensures AttainedScanned(m, i, j, best) ==> AttainedScanned(m, i, j + 1, best)
  {
    var cs := ColumnSums(m, i, j + 1);
    var nb := if stripBest > best then stripBest else best;
    forall r1, r2, c1, c2 | 0 <= r1 < r2 <= |m| && 0 <= c1 < c2 <= |m| && Scanned(i, j + 1, r1, r2)
      ensures RectSum(m, r1, r2, c1, c2) <= nb
    {
      if r1 == i && r2 == j + 1 {
        RectSumByColumns(m, i, j + 1, c1, c2);
      } else {
        assert Scanned(i, j, r1, r2);
      }
    }
    if stripBest >= best {
      var c1, c2 :| 0 <= c1 < c2 <= |cs| && Sum(cs, c1, c2) == stripBest;
      RectSumByColumns(m, i, j + 1, c1, c2);
      assert Scanned(i, j + 1, i, j + 1);
    }
    if AttainedScanned(m, i, j, best) {
      var r1, r2, c1, c2 :| 0 <= r1 < r2 <= |m| && 0 <= c1 < c2 <= |m| && Scanned(i, j, r1, r2) &&
        RectSum(m, r1, r2, c1, c2) == best;
      assert Scanned(i, j + 1, r1, r2);
    }
  }

  lemma ScannedNextStrip(m: seq<seq<int>>, i: int, best: int)
    requires IsSquare(m)
    requires 0 <= i < |m|
    ensures BoundsScanned(m, i, |m|, best) ==> BoundsScanned(m, i + 1, i + 1, best)
    ensures AttainedScanned(m, i, |m|, best) ==> AttainedScanned(m, i + 1, i + 1, best)
  {
    if BoundsScanned(m, i, |m|, best) {
      forall r1, r2, c1, c2 | 0 <= r1 < r2 <= |m| && 0 <= c1 < c2 <= |m| && Scanned(i + 1, i + 1, r1, r2)
        ensures RectSum(m, r1, r2, c1, c2) <= best
      {
        assert Scanned(i, |m|, r1, r2);
      }
    }
    if AttainedScanned(m, i, |m|, best) {
      var r1, r2, c1, c2 :| 0 <= r1 < r2 <= |m| && 0 <= c1 < c2 <= |m| && Scanned(i, |m|, r1, r2) &&
        RectSum(m, r1, r2, c1, c2) == best;
      assert Scanned(i + 1, i + 1, r1, r2);
    }
  }

  lemma ScannedAll(m: seq<seq<int>>, best: int)
    requires IsSquare(m)
    requires BoundsScanned(m, |m|, |m|, best)
    requires AttainedScanned(m, |m|, |m|, best)
    ensures IsMaxRectSum(m, best)
  {
    var r1, r2, c1, c2 :| 0 <= r1 < r2 <= |m| && 0 <= c1 < c2 <= |m| && Scanned(|m|, |m|, r1, r2) &&
      RectSum(m, r1, r2, c1, c2) == best;
  }

  /** The largest rectangle sum is at least every entry. */
  lemma MaxRectAtLeastEntries(m: seq<seq<int>>, v: int)
    requires IsSquare(m)
    requires IsMaxRectSum(m, v)
    ensures forall r, c :: 0 <= r < |m| && 0 <= c < |m| ==> m[r][c] <= v
  {
    forall r, c | 0 <= r < |m| && 0 <= c < |m|
      ensures m[r][c] <= v
    {
      assert RectSum(m, r, r, c, c + 1) == 0;
      assert Sum(m[r], c, c + 1) == m[r][c];
      assert RectSum(m, r, r + 1, c, c + 1) == m[r][c];
    }
  }
}
