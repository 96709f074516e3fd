/** The Go solution of the maximum sub-rectangle problem
    (trabalhos/uva_108_maximum_number/main.go). It is the C solution with
    64-bit integers and a branch-free `Max`. */
module MaxSumGo {
  import opened MaxSumSpec

  const TwoTo30: int := 0x4000_0000
  const TwoTo31: int := 0x8000_0000
  const TwoTo62: int := 0x4000_0000_0000_0000
  const TwoTo63: int := 0x8000_0000_0000_0000
  const TwoTo64: int := 0x1_0000_0000_0000_0000

  predicate IsInt64(x: int)
  {
    -TwoTo63 <= x < TwoTo63
  }

  /** Two's-complement wrap-around of a 64-bit result. */
  function Wrap64(v: int): (r: int)
    ensures IsInt64(r)
    ensures IsInt64(v) ==> r == v
    ensures (r - v) % TwoTo64 == 0
  {
    (v + TwoTo63) % TwoTo64 - TwoTo63
  }

  function Abs(x: int): nat
  {
    if x < 0 then -x else x
  }

  /** Bitwise AND of two's-complement integers. Go's `&` on int64 agrees
      with it, since the bits above bit 63 are copies of the sign bit. */
  function And(x: int, y: int): (r: int)
    ensures x >= 0 ==> 0 <= r <= x
    ensures y >= 0 ==> 0 <= r <= y
    decreases Abs(x)
  {
    if x == 0 || y == 0 then 0
    else if x == -1 then y
    else if y == -1 then x
    else 2 * And(x / 2, y / 2) + (if x % 2 == 1 && y % 2 == 1 then 1 else 0)
  }

  lemma AndCommutes(x: int, y: int)
    ensures And(x, y) == And(y, x)
    decreases Abs(x)
  {
    if x != 0 && y != 0 && x != -1 && y != -1 {
      AndCommutes(x / 2, y / 2);
    }
  }

  /** `Max` exactly as written: the sign of x - y is taken by shifting
      right by 31, which only sees the sign of a 32-bit difference. */
  function MaxAsWritten(x: int, y: int): (r: int)
    requires IsInt64(x) && IsInt64(y)
    ensures IsInt64(r)
  {
    var sub := Wrap64(x - y);
    var signal := sub / TwoTo31;
    Wrap64(x - And(sub, signal))
  }

  /** While the difference fits in 32 bits, the shift by 31 yields 0 or -1
      and the result is the larger argument. */
  lemma MaxAsWrittenWithin32Bits(x: int, y: int)
    requires IsInt64(x) && IsInt64(y)
    requires -TwoTo31 <= x - y < TwoTo31
    ensures MaxAsWritten(x, y) == if x >= y then x else y
  {
    var sub := Wrap64(x - y);
    assert sub == x - y;
    if sub >= 0 {
      assert sub / TwoTo31 == 0;
    } else {
      assert sub / TwoTo31 == -1;
    }
  }

  /** Once the difference reaches 2^31 the shift yields 1, and the result
      is neither argument: Max(2^31 + 1, 0) is 2^31. */
  lemma MaxAsWrittenCounterexample()
    ensures MaxAsWritten(TwoTo31 + 1, 0) == TwoTo31
    ensures MaxAsWritten(TwoTo31 + 1, 0) != TwoTo31 + 1
  {
    var sub := Wrap64(TwoTo31 + 1);
    assert sub == TwoTo31 + 1;
    assert sub / TwoTo31 == 1;
    assert And(TwoTo31 + 1, 1) == 2 * And(0x4000_0000, 0) + 1;
  }

  /** `Max` with the shift the 64-bit type needs (63): the shifted
      difference is 0 or -1, so the mask selects y or x. */
  function Max(x: int, y: int): (r: int)
    requires IsInt64(x) && IsInt64(y)
    ensures IsInt64(x - y) ==> r == if x >= y then x else y
  {
    var sub := Wrap64(x - y);
    var signal := sub / TwoTo63;
    assert signal == 0 || signal == -1;
    Wrap64(x - And(sub, signal))
  }

  /** Which shift `Max` takes the sign of the difference with: 31 as
      main.go is written, 63 as the 64-bit type needs. */
  datatype Shift = By31 | By63

  /** The scans are proved for values whose sums stay below this bound:
      below 2^30 every difference `Max` takes fits in 32 bits, below 2^62
      no 64-bit difference overflows. */
  function Bound(shift: Shift): (b: int)
    ensures 0 < b <= TwoTo62
    ensures shift == By31 ==> 2 * b <= TwoTo31
  {
    match shift
    case By31 => TwoTo30
    case By63 => TwoTo62
  }

  /** `Max` with the chosen shift; on values below the shift's bound it is
      the larger argument. */
  function MaxBy(shift: Shift, x: int, y: int): (r: int)
    requires IsInt64(x) && IsInt64(y)
    ensures -Bound(shift) <= x < Bound(shift) && -Bound(shift) <= y < Bound(shift) ==>
              r == if x >= y then x else y
  {
    if shift == By63 then Max(x, y)
    else if -TwoTo31 <= x - y < TwoTo31 then
      MaxAsWrittenWithin32Bits(x, y);
      MaxAsWritten(x, y)
    else MaxAsWritten(x, y)
  }

  // Overflow freedom.

  /** Every run sum lies in [-bound, bound): no running sum overflows and
      every difference `Max` takes is one it gets right. */
  ghost predicate RunSumsBounded(a: seq<int>, bound: int)
  {
    forall i, j :: 0 <= i < j <= |a| ==> -bound <= Sum(a, i, j) < bound
  }

  ghost predicate RectSumsBounded(m: seq<seq<int>>, bound: int)
    requires IsSquare(m)
  {
    forall r1, r2, c1, c2 :: 0 <= r1 < r2 <= |m| && 0 <= c1 < c2 <= |m| ==>
      -bound <= RectSum(m, r1, r2, c1, c2) < bound
  }

  // IntArray.MaxSum.

  /** The loop of `IntArray.MaxSum` from index i on. */
  function ArrayScan(shift: Shift, a: seq<int>, i: int, cur: int, best: int): (r: int)
    requires 1 <= i <= |a|
    requires RunSumsBounded(a, Bound(shift))
    requires IsBestEndingAt(a, i, cur)
    requires IsBestWithin(a, i, best)
    ensures IsMaxSubarraySum(a, r)
    decreases |a| - i
  {
    if i == |a| then
      KadaneEnd(a, best);
      best
    else
      KadaneStep(a, i, cur, best);
      ScanValuesBounded(a, Bound(shift), i, cur, best);
      var cur' := MaxBy(shift, a[i], cur + a[i]);
      ArrayScan(shift, a, i + 1, cur', MaxBy(shift, best, cur'))
  }

  /** The values the loop compares are run sums, so they stay in bounds. */
  lemma ScanValuesBounded(a: seq<int>, bound: int, i: int, cur: int, best: int)
    requires 1 <= i < |a|
    requires RunSumsBounded(a, bound)
    requires IsBestEndingAt(a, i, cur)
    requires IsBestWithin(a, i, best)
    ensures -bound <= a[i] < bound
    ensures -bound <= cur + a[i] < bound
    ensures -bound <= best < bound
  {
    var j :| 0 <= j < i && Sum(a, j, i) == cur;
    var k, l :| 0 <= k < l <= i && Sum(a, k, l) == best;
    assert Sum(a, j, i + 1) == cur + a[i];
    assert Sum(a, i, i + 1) == a[i];
  }

  /** `IntArray.MaxSum`: the largest sum of a non-empty contiguous run. */
  function ArrayMaxSum(shift: Shift, a: seq<int>): (r: int)
    requires |a| >= 1
    requires RunSumsBounded(a, Bound(shift))
    ensures IsMaxSubarraySum(a, r)
  {
    KadaneStart(a);
    ArrayScan(shift, a, 1, a[0], a[0])
  }

  // IntMatrix.MaxSum.

  ghost predicate IsRectSum(m: seq<seq<int>>, v: int)
    requires IsSquare(m)
  {
    exists r1, r2, c1, c2 :: 0 <= r1 < r2 <= |m| && 0 <= c1 < c2 <= |m| && RectSum(m, r1, r2, c1, c2) == v
  }

  /** The best run of a strip's column sums is the sum of a rectangle, and
      the column sums inherit the bound on rectangle sums. */
  lemma StripIsRect(m: seq<seq<int>>, bound: int, i: int, j: int)
    requires IsSquare(m) && RectSumsBounded(m, bound)
    requires 0 <= i < j <= |m|
    ensures RunSumsBounded(ColumnSums(m, i, j), bound)
    ensures forall s :: IsMaxSubarraySum(ColumnSums(m, i, j), s) ==> IsRectSum(m, s)
  {
    var cs := ColumnSums(m, i, j);
    forall c1, c2 | 0 <= c1 < c2 <= |cs|
      ensures -bound <= Sum(cs, c1, c2) < bound
    {
      RectSumByColumns(m, i, j, c1, c2);
    }
    forall s | IsMaxSubarraySum(cs, s)
      ensures IsRectSum(m, s)
    {
      var c1, c2 :| 0 <= c1 < c2 <= |cs| && Sum(cs, c1, c2) == s;
      RectSumByColumns(m, i, j, c1, c2);
    }
  }

  /** A rectangle sum lies within the bound. */
  lemma RectSumWithin(m: seq<seq<int>>, bound: int, v: int)
    requires IsSquare(m) && RectSumsBounded(m, bound)
    requires IsRectSum(m, v)
    ensures -bound <= v < bound
  {
    var r1, r2, c1, c2 :| 0 <= r1 < r2 <= |m| && 0 <= c1 < c2 <= |m| && RectSum(m, r1, r2, c1, c2) == v;
  }

  /** The innermost loop: adds row m[j] to the running column sums. */
  function AddRow(columns: seq<int>, row: seq<int>): (next: seq<int>)
    requires |columns| == |row|
    ensures |next| == |columns|
    ensures forall k :: 0 <= k < |next| ==> next[k] == columns[k] + row[k]
  {
    seq(|columns|, k requires 0 <= k < |columns| => columns[k] + row[k])
  }

  /** One step of the loop over j: `Max` of the running maximum and the
      strip's best is again a scanned bound attained by a rectangle. */
  lemma StripCombine(shift: Shift, m: seq<seq<int>>, i: int, j: int, best: int, stripBest: int)
    requires IsSquare(m) && RectSumsBounded(m, Bound(shift))
    requires 0 <= i <= j < |m|
    requires BoundsScanned(m, i, j, best) && IsRectSum(m, best)
    requires IsMaxSubarraySum(ColumnSums(m, i, j + 1), stripBest) && IsRectSum(m, stripBest)
    ensures IsInt64(best) && IsInt64(stripBest)
    ensures BoundsScanned(m, i, j + 1, MaxBy(shift, best, stripBest))
    ensures IsRectSum(m, MaxBy(shift, best, stripBest))
  {
    StripStep(m, i, j, best, stripBest);
    RectSumWithin(m, Bound(shift), best);
    RectSumWithin(m, Bound(shift), stripBest);
  }

  /** The loop over j for the strips starting at row i. */
  function StripScan(shift: Shift, m: seq<seq<int>>, i: int, j: int, columns: seq<int>, best: int): (r: int)
    requires IsSquare(m) && RectSumsBounded(m, Bound(shift))
    requires 0 <= i <= j <= |m| && i < |m|
    requires columns == ColumnSums(m, i, j)
    requires BoundsScanned(m, i, j, best) && IsRectSum(m, best)
    ensures BoundsScanned(m, i, |m|, r) && IsRectSum(m, r)
    decreases |m| - j
  {
    if j == |m| then best
    else
      var next := AddRow(columns, m[j]);
      assert next == ColumnSums(m, i, j + 1);
      StripIsRect(m, Bound(shift), i, j + 1);
      var stripBest := ArrayMaxSum(shift, next);
      StripCombine(shift, m, i, j, best, stripBest);
      StripScan(shift, m, i, j + 1, next, MaxBy(shift, best, stripBest))
  }

  /** The loop over i, one strip start at a time. */
  function MatrixScan(shift: Shift, m: seq<seq<int>>, i: int, best: int): (r: int)
    requires IsSquare(m) && RectSumsBounded(m, Bound(shift))
    requires 0 <= i <= |m|
    requires BoundsScanned(m, i, i, best) && IsRectSum(m, best)
    ensures BoundsScanned(m, |m|, |m|, r) && IsRectSum(m, r)
    decreases |m| - i
  {
    if i == |m| then best
    else
      var stripBest := StripScan(shift, m, i, i, seq(|m|, k => 0), best);
      ScannedNextStrip(m, i, stripBest);
      MatrixScan(shift, m, i + 1, stripBest)
  }

  lemma ScannedAllRects(m: seq<seq<int>>, best: int)
    requires IsSquare(m)
    requires BoundsScanned(m, |m|, |m|, best) && IsRectSum(m, best)
    ensures IsMaxRectSum(m, best)
  {
    var r1, r2, c1, c2 :| 0 <= r1 < r2 <= |m| && 0 <= c1 < c2 <= |m| && RectSum(m, r1, r2, c1, c2) == best;
    assert Scanned(|m|, |m|, r1, r2);
    ScannedAll(m, best);
  }

  /** `IntMatrix.MaxSum`: the largest sum of a non-empty sub-rectangle. The
      running maximum starts at m[0][0], so the matrix must not be empty. */
  function MatrixMaxSum(shift: Shift, m: seq<seq<int>>): (r: int)
    requires IsSquare(m) && |m| >= 1
    requires RectSumsBounded(m, Bound(shift))
    ensures IsMaxRectSum(m, r)
  {
    assert RectSum(m, 0, 1, 0, 1) == m[0][0] by {
      assert Sum(m[0], 0, 1) == m[0][0];
    }
    var best := MatrixScan(shift, m, 0, m[0][0]);
    ScannedAllRects(m, best);
    best
  }

  /** The two comparisons `IntArray.MaxSum` makes on [0, 2^31 + 1], which
      lies outside the bound of the shift by 31: `Max(a[1], currSum)` is
      right, but `Max(maxSum, currSum)` with maxSum = 0 yields 2^31 + 2,
      one more than the largest run sum 2^31 + 1. */
  lemma ArrayMaxSumAsWrittenCounterexample()
    ensures MaxAsWritten(TwoTo31 + 1, TwoTo31 + 1) == TwoTo31 + 1
    ensures MaxAsWritten(0, TwoTo31 + 1) == TwoTo31 + 2
  {
    MaxAsWrittenWithin32Bits(TwoTo31 + 1, TwoTo31 + 1);
    var sub := Wrap64(0 - (TwoTo31 + 1));
    assert sub == -(TwoTo31 + 1);
    assert sub / TwoTo31 == -2;
    assert And(sub, -2) == 2 * And(-TwoTo30 - 1, -1);
  }

  // The program's sample.

  /** Sum of the positive entries of a[i..j). */
  function PositivePart(a: seq<int>, i: int, j: int): (p: int)
    requires 0 <= i <= j <= |a|
    ensures p >= 0
    decreases j - i
  {
    if i == j then 0 else PositivePart(a, i, j - 1) + (if a[j - 1] > 0 then a[j - 1] else 0)
  }

  /** Sum of the negative entries of a[i..j). */
  function NegativePart(a: seq<int>, i: int, j: int): (n: int)
    requires 0 <= i <= j <= |a|
    ensures n <= 0
    decreases j - i
  {
    if i == j then 0 else NegativePart(a, i, j - 1) + (if a[j - 1] < 0 then a[j - 1] else 0)
  }

  /** A run sum lies between the negative and the positive part of the
      whole row. */
  lemma {:induction false} RunWithinParts(a: seq<int>, i: int, j: int)
    requires 0 <= i <= j <= |a|
    ensures NegativePart(a, 0, |a|) <= Sum(a, i, j) <= PositivePart(a, 0, |a|)
  {
    RunWithinPartsFrom(a, i, j);
    PartsWiden(a, i, j, |a|);
  }

  lemma {:induction false} RunWithinPartsFrom(a: seq<int>, i: int, j: int)
    requires 0 <= i <= j <= |a|
    ensures NegativePart(a, i, j) <= Sum(a, i, j) <= PositivePart(a, i, j)
    decreases j - i
  {
    if i < j {
      RunWithinPartsFrom(a, i, j - 1);
    }
  }

  /** Widening the range on either side only adds to each part. */
  lemma {:induction false} PartsWiden(a: seq<int>, i: int, j: int, n: int)
    requires 0 <= i <= j <= n <= |a|
    ensures NegativePart(a, 0, n) <= NegativePart(a, i, j)
    ensures PositivePart(a, i, j) <= PositivePart(a, 0, n)
    decreases n - j, i
  {
    if j < n {
      PartsWiden(a, i, j, n - 1);
    } else if 0 < i {
      PartsShrinkLeft(a, i, j);
      PartsWiden(a, i - 1, j, n);
    }
  }

  lemma {:induction false} PartsShrinkLeft(a: seq<int>, i: int, j: int)
    requires 0 < i <= j <= |a|
    ensures NegativePart(a, i - 1, j) <= NegativePart(a, i, j)
    ensures PositivePart(a, i, j) <= PositivePart(a, i - 1, j)
    decreases j - i
  {
    if i < j {
      PartsShrinkLeft(a, i, j - 1);
    }
  }

  /** Sum over rows r1..r2-1 of the rows' whole positive (negative) parts. */
  function MatrixPositive(m: seq<seq<int>>, r1: int, r2: int): (p: int)
    requires IsSquare(m)
    requires 0 <= r1 <= r2 <= |m|
    ensures p >= 0
    decreases r2 - r1
  {
    if r1 == r2 then 0 else MatrixPositive(m, r1, r2 - 1) + PositivePart(m[r2 - 1], 0, |m|)
  }

  function MatrixNegative(m: seq<seq<int>>, r1: int, r2: int): (n: int)
    requires IsSquare(m)
    requires 0 <= r1 <= r2 <= |m|
    ensures n <= 0
    decreases r2 - r1
  {
    if r1 == r2 then 0 else MatrixNegative(m, r1, r2 - 1) + NegativePart(m[r2 - 1], 0, |m|)
  }

  /** Every rectangle sum lies between the sum of all negative entries and
      the sum of all positive entries. */
  lemma {:induction false} RectWithinParts(m: seq<seq<int>>, r1: int, r2: int, c1: int, c2: int)
    requires IsSquare(m)
    requires 0 <= r1 <= r2 <= |m| && 0 <= c1 <= c2 <= |m|
    ensures MatrixNegative(m, 0, |m|) <= RectSum(m, r1, r2, c1, c2) <= MatrixPositive(m, 0, |m|)
  {
    RectWithinRows(m, r1, r2, c1, c2);
    RowPartsWiden(m, r1, r2, |m|);
  }

  lemma {:induction false} RectWithinRows(m: seq<seq<int>>, r1: int, r2: int, c1: int, c2: int)
    requires IsSquare(m)
    requires 0 <= r1 <= r2 <= |m| && 0 <= c1 <= c2 <= |m|
    ensures MatrixNegative(m, r1, r2) <= RectSum(m, r1, r2, c1, c2) <= MatrixPositive(m, r1, r2)
    decreases r2 - r1
  {
    if r1 < r2 {
      RectWithinRows(m, r1, r2 - 1, c1, c2);
      RunWithinParts(m[r2 - 1], c1, c2);
    }
  }

  lemma {:induction false} RowPartsWiden(m: seq<seq<int>>, r1: int, r2: int, n: int)
    requires IsSquare(m)
    requires 0 <= r1 <= r2 <= n <= |m|
    ensures MatrixNegative(m, 0, n) <= MatrixNegative(m, r1, r2)
    ensures MatrixPositive(m, r1, r2) <= MatrixPositive(m, 0, n)
    decreases n - r2, r1
  {
    if r2 < n {
      RowPartsWiden(m, r1, r2, n - 1);
    } else if 0 < r1 {
      RowPartsShrinkTop(m, r1, r2);
      RowPartsWiden(m, r1 - 1, r2, n);
    }
  }

  lemma {:induction false} RowPartsShrinkTop(m: seq<seq<int>>, r1: int, r2: int)
    requires IsSquare(m)
    requires 0 < r1 <= r2 <= |m|
    ensures MatrixNegative(m, r1 - 1, r2) <= MatrixNegative(m, r1, r2)
    ensures MatrixPositive(m, r1, r2) <= MatrixPositive(m, r1 - 1, r2)
    decreases r2 - r1
  {
    if r1 < r2 {
      RowPartsShrinkTop(m, r1, r2 - 1);
    }
  }

  /** The matrix `main` prints the answer for. */
  const Sample: seq<seq<int>> := [[-100, 2, -4], [-126, -11, -14], [-88, -76, -13]]

  /** The program prints 2 for its sample: the single entry 2 is the best
      rectangle, since it is the only positive entry. */
  lemma SampleMaxSum()
    ensures IsSquare(Sample) && RectSumsBounded(Sample, TwoTo30)
    ensures MatrixMaxSum(By31, Sample) == 2
  {
    var m := Sample;
    assert PositivePart(m[0], 0, 3) == 2 by {
      assert PositivePart(m[0], 0, 1) == 0;
      assert PositivePart(m[0], 0, 2) == 2;
    }
    assert PositivePart(m[1], 0, 3) == 0 by {
      assert PositivePart(m[1], 0, 2) == 0;
    }
    assert PositivePart(m[2], 0, 3) == 0 by {
      assert PositivePart(m[2], 0, 2) == 0;
    }
    assert MatrixPositive(m, 0, 3) == 2 by {
      assert MatrixPositive(m, 0, 1) == 2;
      assert MatrixPositive(m, 0, 2) == 2;
    }
    assert NegativePart(m[0], 0, 3) == -104 by {
      assert NegativePart(m[0], 0, 2) == -100;
    }
    assert NegativePart(m[1], 0, 3) == -151 by {
      assert NegativePart(m[1], 0, 2) == -137;
    }
    assert NegativePart(m[2], 0, 3) == -177 by {
      assert NegativePart(m[2], 0, 2) == -164;
    }
    assert MatrixNegative(m, 0, 3) == -432 by {
      assert MatrixNegative(m, 0, 1) == -104;
      assert MatrixNegative(m, 0, 2) == -255;
    }
    forall r1, r2, c1, c2 | 0 <= r1 < r2 <= |m| && 0 <= c1 < c2 <= |m|
      ensures -432 <= RectSum(m, r1, r2, c1, c2) <= 2
    {
      RectWithinParts(m, r1, r2, c1, c2);
    }
    assert RectSum(m, 0, 1, 1, 2) == 2 by {
      assert Sum(m[0], 1, 2) == 2;
    }
    assert IsMaxRectSum(m, 2);
    MaxRectSumUnique(m, MatrixMaxSum(By31, m), 2);
  }

  lemma MaxRectSumUnique(m: seq<seq<int>>, v1: int, v2: int)
    requires IsSquare(m)
    requires IsMaxRectSum(m, v1) && IsMaxRectSum(m, v2)
    ensures v1 == v2
  {
    var a1, b1, c1, d1 :| 0 <= a1 < b1 <= |m| && 0 <= c1 < d1 <= |m| && RectSum(m, a1, b1, c1, d1) == v1;
    var a2, b2, c2, d2 :| 0 <= a2 < b2 <= |m| && 0 <= c2 < d2 <= |m| && RectSum(m, a2, b2, c2, d2) == v2;
  }
}
