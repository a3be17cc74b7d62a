/** The Otsu threshold selector of GEE_Code.js (`otsu`, lines 37-61).

    A histogram is two parallel arrays: `counts[j]` is the number of samples in
    bucket `j` and `bucketMeans[j]` is their mean intensity. For every split
    index `i` in `1..size` the first `i` buckets form class A and the rest
    class B; the score of a split is its between-class variance, and the
    selector returns the bucket mean of the best-scoring split.

    Arithmetic is over `real`. Two platform conventions the script relies on are
    written out: `Div` is Earth Engine's `divide`, which yields 0 when the
    divisor is 0, and `ArgMaxLast` picks the last index among equal maxima,
    the modelling choice for the order in which `sort` leaves equal keys. */
module Otsu {
  import opened RealSeqs

  datatype Result<+T, +E> = Success(value: T) | Failure(error: E)

  /** Ways the selector can fail instead of returning a threshold. */
  datatype OtsuError =
    | ShapeMismatch   // `counts` and `bucketMeans` differ in length
    | EmptyHistogram  // no buckets: there is no last element to return

  datatype Histogram = Histogram(counts: seq<real>, bucketMeans: seq<real>)

  predicate WellShaped(h: Histogram)
  {
    |h.counts| == |h.bucketMeans|
  }

  /** `size`: the number of buckets (line 40). */
  function Size(h: Histogram): nat
  {
    |h.bucketMeans|
  }

  /** Earth Engine's `divide`: the quotient, and 0 for a zero divisor. */
  function Div(x: real, y: real): real
  {
    if y == 0.0 then 0.0 else x / y
  }

  /** `Div` is an inverse of multiplication by a non-zero divisor, and gives 0
      for a zero divisor. */
  lemma DivInverse(x: real, y: real)
    ensures y != 0.0 ==> Div(x, y) * y == x
    ensures y == 0.0 ==> Div(x, y) == 0.0
  {
  }

  function Sq(x: real): real
  {
    x * x
  }

  /** `means.multiply(counts)`: the element-wise products. */
  function Products(counts: seq<real>, means: seq<real>): (p: seq<real>)
    requires |counts| == |means|
    ensures |p| == |means|
  {
    seq(|means|, j requires 0 <= j < |means| => means[j] * counts[j])
  }

  /** The count-weighted mean of a group of buckets, under `Div`. */
  function WeightedMean(counts: seq<real>, means: seq<real>): real
    requires |counts| == |means|
  {
    Div(Sum(Products(counts, means)), Sum(counts))
  }

  /** `total` (line 41). */
  function Total(h: Histogram): real
  {
    Sum(h.counts)
  }

  /** `sum` (line 42). */
  function WeightedSum(h: Histogram): real
    requires WellShaped(h)
  {
    Sum(Products(h.counts, h.bucketMeans))
  }

  /** `mean` (line 43). */
  function GlobalMean(h: Histogram): real
    requires WellShaped(h)
  {
    Div(WeightedSum(h), Total(h))
  }

  /** `aCount` for split index `i` (lines 48-49). */
  function ClassACount(h: Histogram, i: nat): real
    requires WellShaped(h) && i <= Size(h)
  {
    Sum(h.counts[..i])
  }

  /** `aMean` for split index `i` (lines 50-53). */
  function ClassAMean(h: Histogram, i: nat): real
    requires WellShaped(h) && i <= Size(h)
  {
    Div(Sum(Products(h.counts[..i], h.bucketMeans[..i])), ClassACount(h, i))
  }

  /** `bCount` for split index `i` (line 54). */
  function ClassBCount(h: Histogram, i: nat): real
    requires WellShaped(h) && i <= Size(h)
  {
    Total(h) - ClassACount(h, i)
  }

  /** `bMean` for split index `i` (line 55). */
  function ClassBMean(h: Histogram, i: nat): real
    requires WellShaped(h) && i <= Size(h)
  {
    Div(WeightedSum(h) - ClassACount(h, i) * ClassAMean(h, i), ClassBCount(h, i))
  }

  /** The expression the callback returns (lines 56-57). */
  function BetweenClassVariance(aCount: real, aMean: real, bCount: real, bMean: real, mean: real): real
  {
    aCount * Sq(aMean - mean) + bCount * Sq(bMean - mean)
  }

  /** The score of split index `i`: the `indices.map` callback (lines 47-58). */
  function Score(h: Histogram, i: nat): real
    requires WellShaped(h) && i <= Size(h)
  {
    BetweenClassVariance(ClassACount(h, i), ClassAMean(h, i), ClassBCount(h, i), ClassBMean(h, i), GlobalMean(h))
  }

  /** `bss` (line 47): entry `k` is the score of split index `k + 1`. */
  function Scores(h: Histogram): (bss: seq<real>)
    requires WellShaped(h)
    ensures |bss| == Size(h)
  {
    seq(Size(h), k requires 0 <= k < Size(h) => Score(h, k + 1))
  }

  /** `k` is the index of a maximum of `s`, and no later element reaches it. */
  predicate IsLastMax(s: seq<real>, k: nat)
  {
    && k < |s|
    && (forall j :: 0 <= j < |s| ==> s[j] <= s[k])
    && (forall j :: k < j < |s| ==> s[j] < s[k])
  }

  /** The position that `means.sort(bss).get([-1])` reads (line 60): the index
      of a largest key, the last one among equal keys. */
  function ArgMaxLast(s: seq<real>): (k: nat)
    requires |s| > 0
    ensures IsLastMax(s, k)
  {
    if |s| == 1 then 0
    else
      var k := ArgMaxLast(s[..|s| - 1]);
      if s[k] <= s[|s| - 1] then |s| - 1 else k
  }

  /** Split `i` has the largest between-class variance of all splits
      `1..size`, and every later split scores strictly less. */
  predicate IsBestSplit(h: Histogram, i: nat)
    requires WellShaped(h)
  {
    && 1 <= i <= Size(h)
    && (forall j :: 1 <= j <= Size(h) ==> Score(h, j) <= Score(h, i))
    && (forall j :: i < j <= Size(h) ==> Score(h, j) < Score(h, i))
  }

  /** The split index the selector chooses. */
  function BestSplit(h: Histogram): (i: nat)
    requires WellShaped(h) && Size(h) > 0
    ensures IsBestSplit(h, i)
  {
    var bss := Scores(h);
    var k := ArgMaxLast(bss);
    assert forall j :: 1 <= j <= Size(h) ==> Score(h, j) == bss[j - 1];
    k + 1
  }

  /** `otsu` (lines 37-61): the bucket mean of the best split. */
  function Threshold(h: Histogram): (r: Result<real, OtsuError>)
    ensures r.Success? <==> WellShaped(h) && Size(h) > 0
    ensures r.Failure? ==> (r.error == ShapeMismatch <==> !WellShaped(h))
    ensures r.Success? ==> r.value in h.bucketMeans
    ensures r.Success? ==>
      exists i :: IsBestSplit(h, i) && r.value == h.bucketMeans[i - 1]
  {
    if !WellShaped(h) then Failure(ShapeMismatch)
    else if Size(h) == 0 then Failure(EmptyHistogram)
    else
      var i := BestSplit(h);
      Success(h.bucketMeans[i - 1])
  }

  // ---------------------------------------------------------------------------
  // Properties of the quantities

  /** At most one split is best, so the selector's choice is determined. */
  lemma BestSplitUnique(h: Histogram, i: nat, j: nat)
    requires WellShaped(h)
    requires IsBestSplit(h, i) && IsBestSplit(h, j)
    ensures i == j
  {
    // each is at least as good as the other, so the two score the same
    assert Score(h, j) <= Score(h, i);
    assert Score(h, i) <= Score(h, j);
  }

  /** The selector returns the bucket mean of the best split, whichever split
      that is. */
  lemma ThresholdOfBestSplit(h: Histogram, i: nat)
    requires WellShaped(h) && IsBestSplit(h, i)
    ensures Threshold(h) == Success(h.bucketMeans[i - 1])
  {
    BestSplitUnique(h, BestSplit(h), i);
  }

  lemma ProductsSlices(counts: seq<real>, means: seq<real>, i: nat)
    requires |counts| == |means| && i <= |means|
    ensures Products(counts, means)[..i] == Products(counts[..i], means[..i])
    ensures Products(counts, means)[i..] == Products(counts[i..], means[i..])
  {
    var p := Products(counts, means);
    var pa := Products(counts[..i], means[..i]);
    var pb := Products(counts[i..], means[i..]);
    assert forall j :: 0 <= j < i ==> p[..i][j] == pa[j];
    assert forall j :: 0 <= j < |means| - i ==> p[i..][j] == pb[j];
  }

  /** `total` and `sum` split into class A's and class B's shares at every `i`. */
  lemma {:induction false} TotalsSplit(h: Histogram, i: nat)
    requires WellShaped(h) && i <= Size(h)
    ensures Total(h) == Sum(h.counts[..i]) + Sum(h.counts[i..])
    ensures WeightedSum(h) ==
      Sum(Products(h.counts[..i], h.bucketMeans[..i])) + Sum(Products(h.counts[i..], h.bucketMeans[i..]))
  {
    SumSplit(h.counts, i);
    SumSplit(Products(h.counts, h.bucketMeans), i);
    ProductsSlices(h.counts, h.bucketMeans, i);
  }

  /** Class B is buckets `[i, size)`: `bCount`, obtained by subtraction, is the
      count of those buckets (lines 48-49, 54). */
  lemma {:induction false} ClassBCountIsSuffixCount(h: Histogram, i: nat)
    requires WellShaped(h) && i <= Size(h)
    ensures ClassBCount(h, i) == Sum(h.counts[i..])
    ensures ClassACount(h, i) + ClassBCount(h, i) == Total(h)
  {
    TotalsSplit(h, i);
  }

  /** What `sum - aCount * aMean` is: the weighted sum of class B. It holds
      whenever class A is non-empty, and for every split when no count is
      negative; then `bMean` is the weighted mean of class B (lines 51-55). */
  lemma {:induction false} ClassBMeanIsWeighted(h: Histogram, i: nat)
    requires WellShaped(h) && i <= Size(h)
    requires ClassACount(h, i) != 0.0 || NonNegative(h.counts)
    ensures WeightedSum(h) - ClassACount(h, i) * ClassAMean(h, i) ==
      Sum(Products(h.counts[i..], h.bucketMeans[i..]))
    ensures ClassBMean(h, i) == WeightedMean(h.counts[i..], h.bucketMeans[i..])
  {
    var a := ClassACount(h, i);
    var aProducts := Products(h.counts[..i], h.bucketMeans[..i]);
    TotalsSplit(h, i);
    if a == 0.0 {
      assert NonNegative(h.counts[..i]);
      SumZeroOnlyIfAllZero(h.counts[..i]);
      SumOfZeros(aProducts);
    } else {
      DivInverse(Sum(aProducts), a);
    }
    assert a * ClassAMean(h, i) == Sum(aProducts);
    ClassBCountIsSuffixCount(h, i);
    assert ClassBMean(h, i) == Div(Sum(Products(h.counts[i..], h.bucketMeans[i..])), Sum(h.counts[i..]));
  }

  lemma NonNegativeProduct(x: real, y: real)
    requires x >= 0.0 && y >= 0.0
    ensures x * y >= 0.0
  {
  }

  lemma SquareNonNegative(x: real)
    ensures Sq(x) >= 0.0
  {
    if x < 0.0 {
      NonNegativeProduct(-x, -x);
      assert Sq(x) == (-x) * (-x);
    } else {
      NonNegativeProduct(x, x);
    }
  }

  /** With no negative count, the score of a split is at least 0 (56-57). */
  lemma {:induction false} ScoreNonNegative(h: Histogram, i: nat)
    requires WellShaped(h) && NonNegative(h.counts) && i <= Size(h)
    ensures Score(h, i) >= 0.0
  {
    var a, b := ClassACount(h, i), ClassBCount(h, i);
    ClassBCountIsSuffixCount(h, i);
    assert NonNegative(h.counts[..i]);
    assert NonNegative(h.counts[i..]);
    SumNonNegative(h.counts[..i]);
    SumNonNegative(h.counts[i..]);
    var da := ClassAMean(h, i) - GlobalMean(h);
    var db := ClassBMean(h, i) - GlobalMean(h);
    SquareNonNegative(da);
    SquareNonNegative(db);
    NonNegativeProduct(a, Sq(da));
    NonNegativeProduct(b, Sq(db));
  }

  /** With no negative count, no entry of `bss` is negative (56-57). */
  lemma ScoresNonNegative(h: Histogram)
    requires WellShaped(h) && NonNegative(h.counts)
    ensures forall k :: 0 <= k < Size(h) ==> Scores(h)[k] >= 0.0
  {
    forall k | 0 <= k < Size(h) ensures Scores(h)[k] >= 0.0 {
      ScoreNonNegative(h, k + 1);
    }
  }

  /** The last split (`i = size`) puts every bucket in class A: class B is
      empty, and under `Div` its score is 0 (lines 48-49, 54-57). */
  lemma FinalSplitScoresZero(h: Histogram)
    requires WellShaped(h) && Size(h) > 0
    ensures ClassACount(h, Size(h)) == Total(h)
    ensures ClassBCount(h, Size(h)) == 0.0
    ensures Score(h, Size(h)) == 0.0
    ensures Scores(h)[Size(h) - 1] == 0.0
  {
    var n := Size(h);
    assert h.counts[..n] == h.counts;
    assert h.bucketMeans[..n] == h.bucketMeans;
    assert ClassAMean(h, n) == GlobalMean(h);
    assert ClassBMean(h, n) == 0.0;
    assert Score(h, n) == Total(h) * Sq(0.0) + 0.0 * Sq(0.0 - GlobalMean(h));
  }

  /** With no negative count, a split that leaves either class empty scores 0. */
  lemma {:induction false} EmptyClassScoresZero(h: Histogram, i: nat)
    requires WellShaped(h) && NonNegative(h.counts) && 1 <= i <= Size(h)
    requires ClassACount(h, i) == 0.0 || ClassBCount(h, i) == 0.0
    ensures Score(h, i) == 0.0
  {
    var m := GlobalMean(h);
    TotalsSplit(h, i);
    if ClassBCount(h, i) == 0.0 {
      // class B holds no samples, so it adds nothing to `sum` either
      assert NonNegative(h.counts[i..]);
      SumZeroOnlyIfAllZero(h.counts[i..]);
      SumOfZeros(Products(h.counts[i..], h.bucketMeans[i..]));
      assert ClassACount(h, i) == Total(h);
      assert ClassAMean(h, i) == m;
      assert Score(h, i) == ClassACount(h, i) * Sq(0.0) + 0.0 * Sq(ClassBMean(h, i) - m);
    } else {
      assert ClassAMean(h, i) == 0.0;
      assert ClassBCount(h, i) == Total(h);
      assert ClassBMean(h, i) == m;
      assert Score(h, i) == 0.0 * Sq(0.0 - m) + ClassBCount(h, i) * Sq(0.0);
    }
  }

  /** Otsu's identity: for two groups of sizes `a` and `b` with means `ma` and
      `mb` and overall mean `m`, the between-class variance equals
      `a * b * (ma - mb)^2 / (a + b)`. */
  lemma BetweenClassIdentity(a: real, b: real, ma: real, mb: real, m: real)
    requires a + b != 0.0
    requires m * (a + b) == a * ma + b * mb
    ensures BetweenClassVariance(a, ma, b, mb, m) == a * b * Sq(ma - mb) / (a + b)
  {
    var t, d, p, q := a + b, ma - mb, ma - m, mb - m;
    assert p * t == b * d;
    assert q * t == -(a * d);
    var v := a * p * p + b * q * q;
    assert v * (t * t) == a * (p * t) * (p * t) + b * (q * t) * (q * t);
    assert a * (p * t) * (p * t) == a * (b * d) * (b * d);
    assert b * (q * t) * (q * t) == b * (a * d) * (a * d);
    assert a * (b * d) * (b * d) + b * (a * d) * (a * d) == a * b * d * d * t;
    assert (v * t - a * b * d * d) * t == 0.0;
    assert v * t == a * b * d * d;
  }

  /** The score is Otsu's between-class variance in its classic form,
      `nA * nB * (meanA - meanB)^2 / total`, whenever both classes hold
      samples. */
  lemma ScoreIsClassicOtsu(h: Histogram, i: nat)
    requires WellShaped(h) && 1 <= i <= Size(h)
    requires ClassACount(h, i) > 0.0 && ClassBCount(h, i) > 0.0
    ensures Total(h) > 0.0
    ensures Score(h, i) ==
      ClassACount(h, i) * ClassBCount(h, i) * Sq(ClassAMean(h, i) - ClassBMean(h, i)) / Total(h)
  {
    var a, b := ClassACount(h, i), ClassBCount(h, i);
    var ma, mb, m := ClassAMean(h, i), ClassBMean(h, i), GlobalMean(h);
    var ws, t := WeightedSum(h), Total(h);
    assert t == a + b;
    DivInverse(ws - a * ma, b);
    DivInverse(ws, t);
    assert mb * b == ws - a * ma;
    assert m * t == ws;
    BetweenClassIdentity(a, b, ma, mb, m);
  }
}
