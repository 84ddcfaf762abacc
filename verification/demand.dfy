/** The demand rescaling of `TerritoryBalancingProblem.__post_init__`, which
    keeps the node weights handed to the partitioner in a workable range:
    small demands are amplified by 1000, and a sum of ten digits or more is
    divided down to nine digits. Demands are exact reals. */
module Demand {
  import opened Wrappers
  import opened Magnitude

  function Sum(d: seq<real>): real {
    if d == [] then 0.0 else d[0] + Sum(d[1..])
  }

  /** `d * c`, elementwise. */
  function Scale(d: seq<real>, c: real): (r: seq<real>)
    ensures |r| == |d| && forall i :: 0 <= i < |d| ==> r[i] == d[i] * c
  {
    seq(|d|, i requires 0 <= i < |d| => d[i] * c)
  }

  /** `d / p`, elementwise. */
  function Divide(d: seq<real>, p: real): (r: seq<real>)
    requires p != 0.0
    ensures |r| == |d| && forall i :: 0 <= i < |d| ==> r[i] == d[i] / p
  {
    seq(|d|, i requires 0 <= i < |d| => d[i] / p)
  }

  /** The sum is linear: scaling every term scales the sum. */
  lemma {:induction false} SumScale(d: seq<real>, c: real)
    ensures Sum(Scale(d, c)) == Sum(d) * c
  {
    if d != [] {
      var r := Scale(d, c);
      assert r[1..] == Scale(d[1..], c) by {
        forall i | 0 <= i < |d| - 1
          ensures r[1..][i] == Scale(d[1..], c)[i]
        {
        }
      }
      SumScale(d[1..], c);
      assert Sum(r) == d[0] * c + Sum(d[1..]) * c;
    }
  }

  lemma {:induction false} SumDivide(d: seq<real>, p: real)
    requires p != 0.0
    ensures Sum(Divide(d, p)) == Sum(d) / p
  {
    if d != [] {
      var r := Divide(d, p);
      assert r[1..] == Divide(d[1..], p);
      SumDivide(d[1..], p);
      assert Sum(r) == d[0] / p + Sum(d[1..]) / p;
    }
  }

  /** Dividing is scaling by the reciprocal: one common factor for all. */
  lemma DivideIsScale(d: seq<real>, p: real)
    requires p != 0.0
    ensures Divide(d, p) == Scale(d, 1.0 / p)
  {
    var l, r := Divide(d, p), Scale(d, 1.0 / p);
    forall i | 0 <= i < |d|
      ensures l[i] == r[i]
    {
      assert d[i] / p == d[i] * (1.0 / p);
    }
  }

  /** Scaling twice is scaling once by the product. */
  lemma ScaleScale(d: seq<real>, a: real, b: real)
    ensures Scale(Scale(d, a), b) == Scale(d, a * b)
  {
    var l, r := Scale(Scale(d, a), b), Scale(d, a * b);
    forall i | 0 <= i < |d|
      ensures l[i] == r[i]
    {
      assert d[i] * a * b == d[i] * (a * b);
    }
  }

  /** pandas' `mean`, for a non-empty column. */
  function Mean(d: seq<real>): real
    requires |d| > 0
  {
    Sum(d) / (|d| as real)
  }

  function SumSquares(d: seq<real>, m: real): real {
    if d == [] then 0.0 else (d[0] - m) * (d[0] - m) + SumSquares(d[1..], m)
  }

  /** pandas' `std` squared: the sample variance, with `n - 1` in the
      denominator, defined from two values on. */
  function SampleVariance(d: seq<real>): (v: real)
    requires |d| >= 2
    ensures v >= 0.0
  {
    SumSquaresNonNegative(d, Mean(d));
    SumSquares(d, Mean(d)) / ((|d| - 1) as real)
  }

  lemma {:induction false} SumSquaresNonNegative(d: seq<real>, m: real)
    ensures SumSquares(d, m) >= 0.0
  {
    if d != [] {
      SumSquaresNonNegative(d[1..], m);
      var x := d[0] - m;
      if x < 0.0 {
        assert x * x == (-x) * (-x);
      }
      assert x * x >= 0.0;
    }
  }

  /** `fexp(std) < 1 and fexp(mean) < 1`. As the standard deviation is the
      square root of the variance, `fexp(std) < 1` is `variance < 100`
      (see `AmplifyCondition`). */
  predicate SmallDemands(d: seq<real>)
    requires |d| >= 2
  {
    SampleVariance(d) < 100.0 && Fexp(Mean(d)) < 1
  }

  /** First stage: multiply by 1000 when both spread and mean are below ten.
      With fewer than two demands the standard deviation is NaN, and
      `int(nan)` inside `fexp` raises. */
  function Amplify(d: seq<real>): (r: Result<seq<real>>)
    ensures r.Failure? <==> |d| < 2
    ensures r.Failure? ==> r.error == UndefinedSpread
    ensures r.Success? ==> r.value == Scale(d, if SmallDemands(d) then 1000.0 else 1.0)
  {
    if |d| < 2 then Failure(UndefinedSpread)
    else if SmallDemands(d) then Success(Scale(d, 1000.0))
    else Success(d)
  }

  /** The amplification test is the source's test on `fexp(std)` and
      `fexp(mean)`, whatever the non-negative root of the variance is. */
  lemma AmplifyCondition(d: seq<real>, std: real)
    requires |d| >= 2 && std >= 0.0 && std * std == SampleVariance(d)
    ensures SmallDemands(d) <==> Fexp(std) < 1 && Fexp(Mean(d)) < 1
    ensures SmallDemands(d) <==> Fexp(std) < 1 && Abs(Mean(d)) < 10.0
  {
    FexpOfRoot(std, SampleVariance(d));
    FexpBelowOne(Mean(d));
  }

  /** The exponent by which the second stage divides: `fexp(sum) - 8` when
      the sum has ten digits or more, and no division otherwise. */
  function ReduceShift(d: seq<real>): (k: nat)
    ensures k > 0 <==> Fexp(Sum(d)) >= 9
  {
    if Fexp(Sum(d)) >= 9 then Fexp(Sum(d)) - 8 else 0
  }

  /** Second stage: divide by `10^(fexp(sum) - 8)`; afterwards the sum has
      at most nine digits, exactly nine when a division happened. */
  function Reduce(d: seq<real>): (r: seq<real>)
    ensures r == Divide(d, Pow10(ReduceShift(d)))
    ensures Fexp(Sum(r)) <= 8
    ensures Fexp(Sum(d)) >= 9 ==> Fexp(Sum(r)) == 8
    ensures Fexp(Sum(d)) < 9 ==> r == d
  {
    var k := ReduceShift(d);
    SumDivide(d, Pow10(k));
    if k > 0 then
      assert Sum(d) != 0.0;
      FexpDivPow10(Sum(d), k);
      Divide(d, Pow10(k))
    else
      assert Divide(d, Pow10(0)) == d by {
        assert Pow10(0) == 1.0;
        forall i | 0 <= i < |d|
          ensures Divide(d, 1.0)[i] == d[i]
        {
        }
      }
      d
  }

  /** Both stages. */
  function Normalise(d: seq<real>): (r: Result<seq<real>>)
    ensures r.Success? <==> |d| >= 2
    ensures r.Failure? ==> r.error == UndefinedSpread
    ensures r.Success? ==> |r.value| == |d| && Fexp(Sum(r.value)) <= 8
  {
    var a :- Amplify(d);
    Success(Reduce(a))
  }

  /** The normalised demands are the input times one positive factor, so
      every ratio between two demands is kept. */
  lemma NormaliseCommonFactor(d: seq<real>)
    requires |d| >= 2
    ensures exists c :: c > 0.0 && Normalise(d).value == Scale(d, c)
  {
    var c1 := if SmallDemands(d) then 1000.0 else 1.0;
    var a := Scale(d, c1);
    var p := Pow10(ReduceShift(a));
    DivideIsScale(a, p);
    ScaleScale(d, c1, 1.0 / p);
    assert Normalise(d).value == Scale(d, c1 * (1.0 / p));
  }

  /** `int(value)`: truncation toward zero. */
  function Trunc(x: real): (n: int)
    ensures Abs(n as real) <= Abs(x) < Abs(n as real) + 1.0
    ensures (n > 0 ==> x > 0.0) && (n < 0 ==> x < 0.0)
  {
    if x >= 0.0 then x.Floor else -((-x).Floor)
  }

  /** The node weights given to the graph: the truncated normalised demands. */
  function NodeWeights(d: seq<real>): (w: seq<int>)
    ensures |w| == |d| && forall i :: 0 <= i < |d| ==> w[i] == Trunc(d[i])
  {
    seq(|d|, i requires 0 <= i < |d| => Trunc(d[i]))
  }
}
