module OtsuExamples {
  import opened RealSeqs
  import opened Otsu

  /** Bucket indices `j` and `k` both hold samples only if they are the same. */
  predicate AtMostOneNonEmptyBucket(counts: seq<real>)
  {
    forall j, k :: 0 <= j < |counts| && 0 <= k < |counts| && counts[j] != 0.0 && counts[k] != 0.0 ==> j == k
  }

  /** A histogram with at most one non-empty bucket has no two-class split:
      every split scores 0 and the selector returns the last bucket mean. */
  lemma {:induction false} DegenerateHistogramReturnsLastMean(h: Histogram)
    requires WellShaped(h) && Size(h) > 0
    requires NonNegative(h.counts) && AtMostOneNonEmptyBucket(h.counts)
    ensures forall k :: 0 <= k < Size(h) ==> Scores(h)[k] == 0.0
    ensures Threshold(h) == Success(h.bucketMeans[Size(h) - 1])
  {
    var n := Size(h);
    forall i | 1 <= i <= n ensures Score(h, i) == 0.0 {
      if forall j :: 0 <= j < i ==> h.counts[j] == 0.0 {
        assert forall j :: 0 <= j < i ==> h.counts[..i][j] == 0.0;
        SumOfZeros(h.counts[..i]);
      } else {
        var p :| 0 <= p < i && h.counts[p] != 0.0;
        assert forall j :: 0 <= j < n - i ==> h.counts[i..][j] == 0.0;
        SumOfZeros(h.counts[i..]);
        ClassBCountIsSuffixCount(h, i);
      }
      EmptyClassScoresZero(h, i);
    }
    assert IsBestSplit(h, n);
    BestSplitUnique(h, BestSplit(h), n);
  }

  /** Three buckets at -20, -14 and -8 dB holding 3, 1 and 3 samples. */
  function SymmetricHistogram(): Histogram
  {
    Histogram([3.0, 1.0, 3.0], [-20.0, -14.0, -8.0])
  }

  lemma SymmetricTotals()
    ensures Total(SymmetricHistogram()) == 7.0
    ensures WeightedSum(SymmetricHistogram()) == -98.0
    ensures GlobalMean(SymmetricHistogram()) == -14.0
  {
    var h := SymmetricHistogram();
    assert h.counts[1..] == [1.0, 3.0] && h.counts[2..] == [3.0];
    assert Products(h.counts, h.bucketMeans) == [-60.0, -14.0, -24.0];
  }

  lemma SymmetricFirstSplit()
    ensures Score(SymmetricHistogram(), 1) == 189.0
  {
    var h := SymmetricHistogram();
    SymmetricTotals();
    assert h.counts[..1] == [3.0] && h.bucketMeans[..1] == [-20.0];
    assert ClassACount(h, 1) == 3.0 && ClassAMean(h, 1) == -20.0;
    assert ClassBCount(h, 1) == 4.0 && ClassBMean(h, 1) == -9.5;
  }

  lemma SymmetricSecondSplit()
    ensures Score(SymmetricHistogram(), 2) == 189.0
  {
    var h := SymmetricHistogram();
    SymmetricTotals();
    assert h.counts[..2] == [3.0, 1.0] && h.bucketMeans[..2] == [-20.0, -14.0];
    assert Products(h.counts[..2], h.bucketMeans[..2]) == [-60.0, -14.0];
    assert ClassACount(h, 2) == 4.0 && ClassAMean(h, 2) == -18.5;
    assert ClassBCount(h, 2) == 3.0 && ClassBMean(h, 2) == -8.0;
  }

  lemma SecondOfThreeIsBest(h: Histogram)
    requires WellShaped(h) && Size(h) == 3
    requires Score(h, 1) <= Score(h, 2) && Score(h, 3) < Score(h, 2)
    ensures IsBestSplit(h, 2)
  {
    forall j | 1 <= j <= 3 ensures Score(h, j) <= Score(h, 2) {
      assert j == 1 || j == 2 || j == 3;
    }
  }

  /** In the symmetric histogram the first two splits tie at 189 and the last
      scores 0, so split 2, the later of the tied pair, is the best split. */
  lemma SymmetricBestSplit(h: Histogram)
    requires h == SymmetricHistogram()
    ensures IsBestSplit(h, 2)
  {
    SymmetricFirstSplit();
    SymmetricSecondSplit();
    FinalSplitScoresZero(h);
    SecondOfThreeIsBest(h);
  }

  /** A symmetric histogram whose first two splits score the same: the
      selector returns the higher of the two candidate bucket means. */
  lemma SymmetricTieTakesHigherMean(h: Histogram)
    requires h == SymmetricHistogram()
    ensures Threshold(h) == Success(-14.0)
  {
    SymmetricBestSplit(h);
    ThresholdOfBestSplit(h, 2);
  }

  // ---------------------------------------------------------------------------
  // Two clusters

  /** Only buckets `p` and `q` hold samples, and both do. */
  predicate TwoClusters(h: Histogram, p: nat, q: nat)
  {
    && WellShaped(h) && NonNegative(h.counts)
    && p < q < Size(h)
    && h.counts[p] > 0.0 && h.counts[q] > 0.0
    && forall j :: 0 <= j < |h.counts| && j != p && j != q ==> h.counts[j] == 0.0
  }

  /** Bucket means increase with the bucket index. */
  predicate Ascending(means: seq<real>)
  {
    forall j, k :: 0 <= j < k < |means| ==> means[j] < means[k]
  }

  /** The weighted sum of buckets `[lo, hi)` when only bucket `p` among them
      holds samples: the count and the weighted sum of that one bucket. */
  lemma OneClusterSlice(h: Histogram, lo: nat, hi: nat, p: nat)
    requires WellShaped(h) && lo <= p < hi <= Size(h)
    requires forall j :: lo <= j < hi && j != p ==> h.counts[j] == 0.0
    ensures Sum(h.counts[lo..hi]) == h.counts[p]
    ensures Sum(Products(h.counts[lo..hi], h.bucketMeans[lo..hi])) == h.bucketMeans[p] * h.counts[p]
  {
    var c, w := h.counts[lo..hi], Products(h.counts[lo..hi], h.bucketMeans[lo..hi]);
    assert forall j :: 0 <= j < |c| ==> c[j] == h.counts[lo + j];
    SumOneNonZero(c, p - lo);
    forall j | 0 <= j < |w| && j != p - lo ensures w[j] == 0.0 {
      assert w[j] == h.bucketMeans[lo + j] * h.counts[lo + j];
    }
    SumOneNonZero(w, p - lo);
  }

  /** `Div` undoes scaling by a non-zero factor. */
  lemma DivOfScaled(m: real, c: real)
    requires c != 0.0
    ensures Div(m * c, c) == m
  {
  }

  /** A split between the two clusters puts cluster `p` in class A, with
      that cluster's count and mean. */
  lemma TwoClusterClassA(h: Histogram, p: nat, q: nat, i: nat)
    requires TwoClusters(h, p, q) && p < i <= q
    ensures ClassACount(h, i) == h.counts[p] && ClassAMean(h, i) == h.bucketMeans[p]
  {
    var c, m := h.counts[p], h.bucketMeans[p];
    var counts, means := h.counts[..i], h.bucketMeans[..i];
    assert counts == h.counts[0..i] && means == h.bucketMeans[0..i];
    OneClusterSlice(h, 0, i, p);
    assert ClassACount(h, i) == Sum(counts) == c;
    assert ClassAMean(h, i) == Div(Sum(Products(counts, means)), c);
    assert Sum(Products(counts, means)) == m * c;
    DivOfScaled(m, c);
  }

  /** A split between the two clusters puts cluster `q` in class B, with
      that cluster's count and mean. */
  lemma TwoClusterClassB(h: Histogram, p: nat, q: nat, i: nat)
    requires TwoClusters(h, p, q) && p < i <= q
    ensures ClassBCount(h, i) == h.counts[q] && ClassBMean(h, i) == h.bucketMeans[q]
  {
    var n := Size(h);
    var c, m := h.counts[q], h.bucketMeans[q];
    var counts, means := h.counts[i..], h.bucketMeans[i..];
    assert counts == h.counts[i..n] && means == h.bucketMeans[i..n];
    OneClusterSlice(h, i, n, q);
    ClassBCountIsSuffixCount(h, i);
    assert ClassBCount(h, i) == Sum(counts) == c;
    ClassBMeanIsWeighted(h, i);
    assert ClassBMean(h, i) == WeightedMean(counts, means) == Div(Sum(Products(counts, means)), c);
    assert Sum(Products(counts, means)) == m * c;
    DivOfScaled(m, c);
  }

  /** Every split between the two clusters has the same two classes, so the
      same score as the split at `q`. */
  lemma TwoClusterInnerScore(h: Histogram, p: nat, q: nat, i: nat)
    requires TwoClusters(h, p, q) && p < i <= q
    ensures Score(h, i) == Score(h, q)
  {
    TwoClusterClassA(h, p, q, i);
    TwoClusterClassB(h, p, q, i);
    TwoClusterClassA(h, p, q, q);
    TwoClusterClassB(h, p, q, q);
  }

  /** A split before cluster `p` or after cluster `q` leaves a class empty. */
  lemma TwoClusterOuterScore(h: Histogram, p: nat, q: nat, i: nat)
    requires TwoClusters(h, p, q) && 1 <= i <= Size(h) && (i <= p || q < i)
    ensures Score(h, i) == 0.0
  {
    if i <= p {
      assert forall j :: 0 <= j < i ==> h.counts[..i][j] == 0.0;
      SumOfZeros(h.counts[..i]);
    } else {
      assert forall j :: 0 <= j < Size(h) - i ==> h.counts[i..][j] == 0.0;
      SumOfZeros(h.counts[i..]);
      ClassBCountIsSuffixCount(h, i);
    }
    EmptyClassScoresZero(h, i);
  }

  lemma PositiveProduct(x: real, y: real)
    requires x > 0.0 && y > 0.0
    ensures x * y > 0.0
  {
  }

  lemma PositiveQuotient(x: real, y: real)
    requires x > 0.0 && y > 0.0
    ensures x / y > 0.0
  {
  }

  lemma SquarePositive(x: real)
    requires x != 0.0
    ensures Sq(x) > 0.0
  {
    if x > 0.0 {
      assert Sq(x) / x == x;
    } else {
      assert Sq(-x) / (-x) == -x;
      assert Sq(x) == Sq(-x);
    }
  }

  /** Two clusters of distinct means are separated by a positive score. */
  lemma TwoClusterScorePositive(h: Histogram, p: nat, q: nat)
    requires TwoClusters(h, p, q) && h.bucketMeans[p] != h.bucketMeans[q]
    ensures Score(h, q) > 0.0
  {
    TwoClusterClassA(h, p, q, q);
    TwoClusterClassB(h, p, q, q);
    ScoreIsClassicOtsu(h, q);
    var a, b, d := ClassACount(h, q), ClassBCount(h, q), ClassAMean(h, q) - ClassBMean(h, q);
    SquarePositive(d);
    PositiveProduct(a, b);
    PositiveProduct(a * b, Sq(d));
    PositiveQuotient(a * b * Sq(d), Total(h));
  }

  /** Otsu on two clusters of distinct means: every split between them scores
      the same positive value and every other split 0, so the selector returns
      the mean of the bucket just below cluster `q`. With ascending means that
      threshold lies in `[mean p, mean q)`, strictly above cluster `p`'s mean
      when a bucket separates the clusters. */
  lemma TwoClusterThreshold(h: Histogram, p: nat, q: nat)
    requires TwoClusters(h, p, q) && h.bucketMeans[p] != h.bucketMeans[q]
    ensures Threshold(h) == Success(h.bucketMeans[q - 1])
    ensures Ascending(h.bucketMeans) ==> h.bucketMeans[p] <= Threshold(h).value < h.bucketMeans[q]
    ensures Ascending(h.bucketMeans) && p + 1 < q ==> h.bucketMeans[p] < Threshold(h).value
  {
    var best := Score(h, q);
    TwoClusterScorePositive(h, p, q);
    forall j | 1 <= j <= Size(h) ensures Score(h, j) <= best && (q < j ==> Score(h, j) < best) {
      if p < j <= q {
        TwoClusterInnerScore(h, p, q, j);
      } else {
        TwoClusterOuterScore(h, p, q, j);
      }
    }
    assert IsBestSplit(h, q);
    ThresholdOfBestSplit(h, q);
  }

  /** One sample at -20 dB and one at -8 dB, an empty bucket at -14 dB between
      them: the threshold is -14 dB, strictly between the two cluster means. */
  lemma TwoClusterExample(h: Histogram)
    requires h == Histogram([1.0, 0.0, 1.0], [-20.0, -14.0, -8.0])
    ensures Threshold(h) == Success(-14.0)
    ensures -20.0 < Threshold(h).value < -8.0
  {
    assert TwoClusters(h, 0, 2);
    TwoClusterThreshold(h, 0, 2);
  }
}
