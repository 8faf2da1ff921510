/** `SpikedLatency` of Wire.cs: the latencies far above the average of their list. */
module LatencySpikes {
  import opened Sequences
  import opened RealFacts
  import opened Statistics

  /** The values above `bound`, in order. */
  function Above(xs: seq<real>, bound: real): seq<real> {
    if xs == [] then [] else Above(xs[..|xs| - 1], bound) + (if xs[|xs| - 1] > bound then [xs[|xs| - 1]] else [])
  }

  /** `SpikedLatency`: the values more than three sample deviations above the average, from ten
      values on. */
  function SpikedLatency(xs: seq<real>, sqrt: real -> real): seq<real> {
    if |xs| < 10 then [] else
      var average := Mean(xs);
      var deviation := sqrt(SquaredDistances(xs, average) / (|xs| - 1) as real);
      Above(xs, average + 3.0 * deviation)
  }

  // ---------------------------------------------------------------- which values are returned

  /** More than three sample deviations above the mean, without root and quotient. */
  predicate IsSpike(xs: seq<real>, x: real)
    requires xs != []
  {
    x > Mean(xs)
    && (|xs| - 1) as real * ((x - Mean(xs)) * (x - Mean(xs))) > 9.0 * SquaredDistances(xs, Mean(xs))
  }

  /** From ten values on the result lists exactly the spikes, each as often as the list holds it
      and in its order: `at` is where they stand. Shorter lists have none. */
  lemma SpikesAreLatencies(xs: seq<real>, sqrt: real -> real) returns (at: seq<nat>)
    requires IsSqrt(sqrt)
    ensures Rising(at, |xs|) && |SpikedLatency(xs, sqrt)| == |at|
    ensures forall j | 0 <= j < |at| :: SpikedLatency(xs, sqrt)[j] == xs[at[j]]
    ensures forall i | 0 <= i < |xs| :: i in at <==> |xs| >= 10 && IsSpike(xs, xs[i])
  {
    if |xs| < 10 {
      return [];
    }
    var n, mu := |xs|, Mean(xs);
    var s := SquaredDistances(xs, mu);
    DistancesNotNegative(xs, mu);
    QuotientSign(s, (n - 1) as real);
    var r := sqrt(s / (n - 1) as real);
    at := ValuesAbove(xs, mu + 3.0 * r);
    forall i | 0 <= i < n
      ensures xs[i] > mu + 3.0 * r <==> IsSpike(xs, xs[i])
    {
      SpikeByRoot(xs, xs[i], mu, s, r);
    }
  }

  lemma SpikeByRoot(xs: seq<real>, x: real, mu: real, s: real, r: real)
    requires |xs| >= 10 && mu == Mean(xs) && s == SquaredDistances(xs, mu)
    requires r >= 0.0 && r * r == s / (|xs| - 1) as real
    ensures x > mu + 3.0 * r <==> IsSpike(xs, x)
  {
    TimesQuotient(s, (|xs| - 1) as real);
    SpikeRule(x - mu, r, (|xs| - 1) as real, s);
  }

  /** `kept` are the values above a bound, by their places. */
  predicate Placed(at: seq<nat>, xs: seq<real>, kept: seq<real>, bound: real) {
    && Rising(at, |xs|) && |kept| == |at|
    && (forall j | 0 <= j < |at| :: kept[j] == xs[at[j]])
    && forall i | 0 <= i < |xs| :: i in at <==> xs[i] > bound
  }

  lemma {:induction false} ValuesAbove(xs: seq<real>, bound: real) returns (at: seq<nat>)
    ensures Placed(at, xs, Above(xs, bound), bound)
  {
    at := [];
    if xs != [] {
      var n := |xs| - 1;
      at := ValuesAbove(xs[..n], bound);
      FrontAndLast(xs);
      OneMoreValue(at, xs[..n], Above(xs[..n], bound), bound, xs[n]);
      if xs[n] > bound {
        at := at + [n];
      } else {
        assert Above(xs[..n], bound) + [] == Above(xs[..n], bound);
      }
    }
  }

  lemma OneMoreValue(at: seq<nat>, front: seq<real>, kept: seq<real>, bound: real, x: real)
    requires Placed(at, front, kept, bound)
    ensures if x > bound then Placed(at + [|front|], front + [x], kept + [x], bound)
            else Placed(at, front + [x], kept, bound)
  {
    var xs := front + [x];
    assert forall i | 0 <= i < |front| :: xs[i] == front[i];
    assert forall i: nat :: i in at + [|front|] <==> i in at || i == |front|;
  }

  lemma SpikeRule(d: real, r: real, n: real, s: real)
    requires n > 0.0 && r >= 0.0 && n * (r * r) == s
    ensures d > 3.0 * r <==> d > 0.0 && n * (d * d) > 9.0 * s
  {
    var t := 3.0 * r;
    SquareOfProduct(3.0, r);
    var threeSquares := t * t;
    Regroup(n, 9.0, r * r);
    assert n * threeSquares == 9.0 * s;
    if d > t {
      SquareExceeds(d, t);
      Scaled(n, d * d, threeSquares, n * (d * d));
    }
    if d > 0.0 && n * (d * d) > 9.0 * s {
      CancelBelow(threeSquares, d * d, n);
      SquareBelow(t, d, threeSquares);
    }
  }

  // ---------------------------------------------------------------- how many there are

  lemma {:induction false} AboveCounts(xs: seq<real>, bound: real)
    ensures |Above(xs, bound)| == CountAbove(xs, bound)
  {
    if xs != [] {
      AboveCounts(xs[..|xs| - 1], bound);
    }
  }

  /** The spikes of n values are fewer than (n - 1) / 9, and even fewer than
      n * (n - 1) / (10 * n - 1); ten values never hold one. */
  lemma SpikeBound(xs: seq<real>, sqrt: real -> real)
    requires IsSqrt(sqrt) && |xs| >= 10
    ensures var n, m := |xs|, |SpikedLatency(xs, sqrt)|;
            m * (10 * n - 1) < n * (n - 1) && 9 * m < n - 1 && (n == 10 ==> m == 0)
  {
    var n, mu := |xs|, Mean(xs);
    var s := SquaredDistances(xs, mu);
    DistancesNotNegative(xs, mu);
    var r := sqrt(s / (n - 1) as real);
    AboveCounts(xs, mu + 3.0 * r);
    if s == 0.0 {
      ZeroRoot(r);
      NothingAboveWithoutSpread(xs, mu);
    } else {
      SpikesOfSpread(xs, n, mu, s, r);
    }
    FewerThanANinth(n, CountAbove(xs, mu + 3.0 * r));
  }

  lemma SpikesOfSpread(xs: seq<real>, n: nat, mu: real, s: real, r: real)
    requires n == |xs| >= 10 && mu == Mean(xs) && s == SquaredDistances(xs, mu) > 0.0
    requires r >= 0.0 && r * r == s / (n - 1) as real
    ensures CountAbove(xs, mu + 3.0 * r) * (10 * n - 1) < n * (n - 1)
  {
    QuotientIsPositive(s, (n - 1) as real);
    PositiveRoot(r, s / (n - 1) as real);
    TimesQuotient(Sum(xs), n as real);
    OneSidedBound(xs, mu, 3.0 * r, n as real, s);
    SpikeArithmetic(n, CountAbove(xs, mu + 3.0 * r), r, s);
  }

  function Zeros(n: nat): (xs: seq<real>)
    ensures |xs| == n
  {
    if n == 0 then [] else Zeros(n - 1) + [0.0]
  }

  lemma {:induction false} SumOverZeros(f: real -> real, n: nat)
    ensures SumOf(f, Zeros(n)) == n as real * f(0.0)
  {
    if n > 0 {
      SumOverZeros(f, n - 1);
      AddOne((n - 1) as real, f(0.0));
    }
  }

  /** Ten is the largest size without spikes: among eleven values one can be a spike. */
  lemma ElevenValuesCanSpike(sqrt: real -> real)
    requires IsSqrt(sqrt)
    ensures |SpikedLatency(Zeros(10) + [1.0], sqrt)| == 1
  {
    var front, xs := Zeros(10), Zeros(10) + [1.0];
    assert xs[..10] == front;
    SumOverZeros(x => x, 10);
    assert Sum(xs) == 1.0;
    var mu := Mean(xs);
    SumOverZeros(SquareFrom(mu), 10);
    var s := SquaredDistances(xs, mu);
    assert s == 10.0 * (mu * mu) + (1.0 - mu) * (1.0 - mu);
    SpreadOfEleven(mu, s);
    DistancesNotNegative(xs, mu);
    var r := sqrt(s / 10.0);
    RootOfEleven(r);
    SpikeBound(xs, sqrt);
    assert xs[10] == 1.0 > mu + 3.0 * r;
  }

  lemma SpreadOfEleven(mu: real, s: real)
    requires 11.0 * mu == 1.0 && s == 10.0 * (mu * mu) + (1.0 - mu) * (1.0 - mu)
    ensures s / 10.0 == 1.0 / 11.0
  {
    assert mu * (11.0 * mu) == mu;
  }

  lemma RootOfEleven(r: real)
    requires r >= 0.0 && r * r == 1.0 / 11.0
    ensures 3.0 * r < 10.0 / 11.0
  {
    var y := 10.0 / 33.0;
    assert 1.0 / 11.0 < y * y;
    SquareBelow(r, y, 1.0 / 11.0);
  }
}
