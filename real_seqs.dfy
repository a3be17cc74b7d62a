/** Sums over finite sequences of reals: the `ee.Reducer.sum()` reduction that
    the script applies to histogram arrays and to raster cells, with the facts
    about it that the Otsu and zonal proofs rely on. */
module RealSeqs {

  /** The sum of all elements of `s`. */
  function Sum(s: seq<real>): real
  {
    if |s| == 0 then 0.0 else s[0] + Sum(s[1..])
  }

  /** Every element of `s` is non-negative. */
  predicate NonNegative(s: seq<real>)
  {
    forall k :: 0 <= k < |s| ==> 0.0 <= s[k]
  }

  /** The sum of a prefix plus the sum of the matching suffix is the whole sum. */
  lemma {:induction false} SumSplit(s: seq<real>, i: nat)
    requires i <= |s|
    ensures Sum(s[..i]) + Sum(s[i..]) == Sum(s)
  {
    if i == 0 {
      assert s[..0] == [];
      assert s[0..] == s;
    } else {
      SumSplit(s[1..], i - 1);
      assert s[..i][1..] == s[1..][..i - 1];
      assert s[1..][i - 1..] == s[i..];
    }
  }

  /** A sum of non-negative reals is non-negative. */
  lemma {:induction false} SumNonNegative(s: seq<real>)
    requires NonNegative(s)
    ensures Sum(s) >= 0.0
  {
    if |s| > 0 {
      SumNonNegative(s[1..]);
    }
  }

  /** A sum of non-negative reals is zero only if every element is zero. */
  lemma {:induction false} SumZeroOnlyIfAllZero(s: seq<real>)
    requires NonNegative(s) && Sum(s) == 0.0
    ensures forall k :: 0 <= k < |s| ==> s[k] == 0.0
  {
    if |s| > 0 {
      SumNonNegative(s[1..]);
      SumZeroOnlyIfAllZero(s[1..]);
      forall k | 0 <= k < |s| ensures s[k] == 0.0 {
        if k > 0 {
          assert s[k] == s[1..][k - 1];
        }
      }
    }
  }

  /** A sequence of zeros sums to zero. */
  lemma {:induction false} SumOfZeros(s: seq<real>)
    requires forall k :: 0 <= k < |s| ==> s[k] == 0.0
    ensures Sum(s) == 0.0
  {
    if |s| > 0 {
      SumOfZeros(s[1..]);
    }
  }

  /** Summing is monotone in every element. */
  lemma {:induction false} SumMonotone(a: seq<real>, b: seq<real>)
    requires |a| == |b|
    requires forall k :: 0 <= k < |a| ==> a[k] <= b[k]
    ensures Sum(a) <= Sum(b)
  {
    if |a| > 0 {
      SumMonotone(a[1..], b[1..]);
    }
  }

  /** Summing is additive: the sum of element-wise sums is the sum of the sums. */
  lemma {:induction false} SumAdditive(a: seq<real>, b: seq<real>, c: seq<real>)
    requires |a| == |b| == |c|
    requires forall k :: 0 <= k < |c| ==> c[k] == a[k] + b[k]
    ensures Sum(c) == Sum(a) + Sum(b)
  {
    if |c| > 0 {
      SumAdditive(a[1..], b[1..], c[1..]);
    }
  }

  /** A sequence that is zero except at index `p` sums to its element at `p`. */
  lemma {:induction false} SumOneNonZero(s: seq<real>, p: nat)
    requires p < |s|
    requires forall j :: 0 <= j < |s| && j != p ==> s[j] == 0.0
    ensures Sum(s) == s[p]
  {
    SumSplit(s, p);
    assert forall j :: 0 <= j < p ==> s[..p][j] == 0.0;
    SumOfZeros(s[..p]);
    var rest := s[p..];
    assert forall j :: 0 <= j < |rest| - 1 ==> rest[1..][j] == s[p + 1 + j];
    SumOfZeros(rest[1..]);
  }
}
