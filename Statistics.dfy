/**
  The column statistics `duplicate_analysis` asks pandas for, over exact
  reals: the sum and arithmetic mean of a group of `Area` values, the sum of
  squared deviations, the sample variance with divisor N - 1 (the square of
  `Series.std()`), and the minimum and maximum used to bound a mean.
 */
module Statistics {

  function Sum(xs: seq<real>): real {
    if xs == [] then 0.0 else xs[0] + Sum(xs[1..])
  }

  /** `Series.mean()`. */
  function Mean(xs: seq<real>): (m: real)
    requires |xs| > 0
    ensures m * |xs| as real == Sum(xs)
  {
    Sum(xs) / |xs| as real
  }

  /** Sum of the squared deviations of the values from `m`. */
  function SqDev(xs: seq<real>, m: real): (d: real)
    ensures d >= 0.0
  {
    if xs == [] then 0.0 else Square(xs[0] - m) + SqDev(xs[1..], m)
  }

  function Square(d: real): (s: real)
    ensures s >= 0.0
  {
    assert d * d >= 0.0 by {
      if d >= 0.0 { ProductSign(d, d); } else { ProductSign(-d, -d); }
    }
    d * d
  }

  /** `Series.var()` with the default `ddof=1`; undefined below two values. */
  function SampleVar(xs: seq<real>): (v: real)
    requires |xs| >= 2
    ensures v >= 0.0
    ensures v * (|xs| - 1) as real == SqDev(xs, Mean(xs))
  {
    SqDev(xs, Mean(xs)) / (|xs| - 1) as real
  }

  function Min(xs: seq<real>): (lo: real)
    requires |xs| > 0
    ensures lo in xs
    ensures forall i :: 0 <= i < |xs| ==> lo <= xs[i]
  {
    if |xs| == 1 then xs[0]
    else
      var rest := Min(xs[1..]);
      if xs[0] <= rest then xs[0] else rest
  }

  function Max(xs: seq<real>): (hi: real)
    requires |xs| > 0
    ensures hi in xs
    ensures forall i :: 0 <= i < |xs| ==> xs[i] <= hi
  {
    if |xs| == 1 then xs[0]
    else
      var rest := Max(xs[1..]);
      if xs[0] >= rest then xs[0] else rest
  }

  lemma ProductSign(a: real, b: real)
    requires a >= 0.0 && b >= 0.0
    ensures a * b >= 0.0
    ensures a > 0.0 && b > 0.0 ==> a * b > 0.0
  {
  }

  lemma {:induction false} SumConcat(a: seq<real>, b: seq<real>)
    ensures Sum(a + b) == Sum(a) + Sum(b)
  {
    if a != [] {
      assert (a + b)[1..] == a[1..] + b;
      SumConcat(a[1..], b);
    } else {
      assert a + b == b;
    }
  }

  lemma {:induction false} SqDevConcat(a: seq<real>, b: seq<real>, m: real)
    ensures SqDev(a + b, m) == SqDev(a, m) + SqDev(b, m)
  {
    if a != [] {
      assert (a + b)[1..] == a[1..] + b;
      SqDevConcat(a[1..], b, m);
    } else {
      assert a + b == b;
    }
  }

  /** Removing the element at `k` from `b`, when it equals the head of `a`,
      leaves the multiset of the tail of `a`. */
  lemma RemoveMatching(a: seq<real>, b: seq<real>, k: nat)
    requires |a| > 0 && k < |b| && b[k] == a[0] && multiset(a) == multiset(b)
    ensures multiset(a[1..]) == multiset(b[..k] + b[k + 1..])
  {
    assert b == b[..k] + [b[k]] + b[k + 1..];
    assert a == [a[0]] + a[1..];
    calc {
      multiset(a[1..]);
      multiset(a) - multiset{a[0]};
      multiset(b) - multiset{b[k]};
      multiset(b[..k] + b[k + 1..]);
    }
  }

  lemma {:induction false} SumRemove(b: seq<real>, k: nat)
    requires k < |b|
    ensures Sum(b) == b[k] + Sum(b[..k] + b[k + 1..])
  {
    assert b == b[..k] + [b[k]] + b[k + 1..];
    SumConcat(b[..k] + [b[k]], b[k + 1..]);
    SumConcat(b[..k], [b[k]]);
    SumConcat(b[..k], b[k + 1..]);
  }

  lemma {:induction false} SqDevRemove(b: seq<real>, k: nat, m: real)
    requires k < |b|
    ensures SqDev(b, m) == Square(b[k] - m) + SqDev(b[..k] + b[k + 1..], m)
  {
    assert b == b[..k] + [b[k]] + b[k + 1..];
    SqDevConcat(b[..k] + [b[k]], b[k + 1..], m);
    SqDevConcat(b[..k], [b[k]], m);
    SqDevConcat(b[..k], b[k + 1..], m);
    assert SqDev([b[k]], m) == Square(b[k] - m) + SqDev([], m);
  }

  /** Summation does not depend on the order of the values. */
  lemma {:induction false} SumPermutation(a: seq<real>, b: seq<real>)
    requires multiset(a) == multiset(b)
    ensures Sum(a) == Sum(b)
    decreases |a|
  {
    if a == [] {
      assert |multiset(b)| == 0;
    } else {
      assert a[0] in multiset(b);
      var k :| 0 <= k < |b| && b[k] == a[0];
      RemoveMatching(a, b, k);
      SumPermutation(a[1..], b[..k] + b[k + 1..]);
      SumRemove(b, k);
    }
  }

  lemma {:induction false} SqDevPermutation(a: seq<real>, b: seq<real>, m: real)
    requires multiset(a) == multiset(b)
    ensures SqDev(a, m) == SqDev(b, m)
    decreases |a|
  {
    if a == [] {
      assert |multiset(b)| == 0;
    } else {
      assert a[0] in multiset(b);
      var k :| 0 <= k < |b| && b[k] == a[0];
      RemoveMatching(a, b, k);
      SqDevPermutation(a[1..], b[..k] + b[k + 1..], m);
      SqDevRemove(b, k, m);
    }
  }

  /** Mean and sample variance are functions of the multiset of values. */
  lemma MeanVarPermutation(a: seq<real>, b: seq<real>)
    requires |a| > 0 && multiset(a) == multiset(b)
    ensures |a| == |b| && Mean(a) == Mean(b)
    ensures |a| >= 2 ==> SampleVar(a) == SampleVar(b)
  {
    assert |a| == |multiset(a)| == |multiset(b)| == |b|;
    SumPermutation(a, b);
    SqDevPermutation(a, b, Mean(a));
  }

  lemma {:induction false} SumBounds(xs: seq<real>, lo: real, hi: real)
    requires forall i :: 0 <= i < |xs| ==> lo <= xs[i] <= hi
    ensures |xs| as real * lo <= Sum(xs) <= |xs| as real * hi
  {
    if xs != [] {
      SumBounds(xs[1..], lo, hi);
    }
  }

  /** The mean lies between the smallest and the largest value. */
  lemma MeanBounds(xs: seq<real>)
    requires |xs| > 0
    ensures Min(xs) <= Mean(xs) <= Max(xs)
  {
    MeanWithin(xs, Min(xs), Max(xs));
  }

  lemma MeanWithin(xs: seq<real>, lo: real, hi: real)
    requires |xs| > 0
    requires forall i :: 0 <= i < |xs| ==> lo <= xs[i] <= hi
    ensures lo <= Mean(xs) <= hi
  {
    var n, m := |xs| as real, Mean(xs);
    SumBounds(xs, lo, hi);
    assert m * n == Sum(xs);
    if m < lo {
      ProductSign(lo - m, n);
    }
    if hi < m {
      ProductSign(m - hi, n);
    }
  }

  /** Values all equal to `c` have mean `c` and no deviation from it. */
  lemma {:induction false} ConstantStatistics(xs: seq<real>, c: real)
    requires forall i :: 0 <= i < |xs| ==> xs[i] == c
    ensures Sum(xs) == |xs| as real * c
    ensures SqDev(xs, c) == 0.0
    ensures |xs| > 0 ==> Mean(xs) == c
  {
    if xs != [] {
      ConstantStatistics(xs[1..], c);
    }
  }

  /** Values all equal have variance zero. */
  lemma ConstantVariance(xs: seq<real>, c: real)
    requires |xs| >= 2 && forall i :: 0 <= i < |xs| ==> xs[i] == c
    ensures SampleVar(xs) == 0.0
  {
    ConstantStatistics(xs, c);
    var v, k := SampleVar(xs), (|xs| - 1) as real;
    assert v * k == 0.0;
    if v != 0.0 {
      if v > 0.0 {
        ProductSign(v, k);
      } else {
        ProductSign(-v, k);
      }
    }
  }

  /** A lower bound on every squared deviation bounds their sum. */
  lemma {:induction false} SqDevLowerBound(xs: seq<real>, m: real, c: real)
    requires forall i :: 0 <= i < |xs| ==> c <= Square(xs[i] - m)
    ensures |xs| as real * c <= SqDev(xs, m)
  {
    if xs != [] {
      SqDevLowerBound(xs[1..], m, c);
    }
  }
}
