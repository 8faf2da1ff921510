/** Mean, standard deviation, z-scores and thresholds, over the reals: Reco_GAN_Training.cpp,
    Reco_GAN_Prediction_Module.cpp and Reco_GAN_Module.cpp. */
module Statistics {
  import opened Sequences
  import opened RealFacts

  // ---------------------------------------------------------------- sums

  function SumOf(f: real -> real, xs: seq<real>): real {
    if xs == [] then 0.0 else SumOf(f, xs[..|xs| - 1]) + f(xs[|xs| - 1])
  }

  function CountOf(p: real -> bool, xs: seq<real>): nat {
    if xs == [] then 0 else CountOf(p, xs[..|xs| - 1]) + (if p(xs[|xs| - 1]) then 1 else 0)
  }

  function Sum(xs: seq<real>): real {
    SumOf(x => x, xs)
  }

  function Mean(xs: seq<real>): real
    requires xs != []
  {
    Sum(xs) / |xs| as real
  }

  function SquareFrom(mu: real): real -> real {
    x => (x - mu) * (x - mu)
  }

  function IsAbove(bound: real): real -> bool {
    x => x > bound
  }

  function IsOutside(mu: real, distance: real): real -> bool {
    x => Abs(x - mu) > distance
  }

  /** The squared distances from `mu`, summed. */
  function SquaredDistances(xs: seq<real>, mu: real): real {
    SumOf(SquareFrom(mu), xs)
  }

  /** How many values lie above `bound`. */
  function CountAbove(xs: seq<real>, bound: real): nat {
    CountOf(IsAbove(bound), xs)
  }

  /** How many values lie further than `distance` from `mu`. */
  function CountOutside(xs: seq<real>, mu: real, distance: real): nat {
    CountOf(IsOutside(mu, distance), xs)
  }

  /** The square root is the non-negative solution of its defining equation. */
  ghost predicate IsSqrt(sqrt: real -> real) {
    forall v :: v >= 0.0 ==> sqrt(v) >= 0.0 && sqrt(v) * sqrt(v) == v
  }

  // ---------------------------------------------------------------- generic sums

  lemma {:induction false} SumNotNegative(f: real -> real, xs: seq<real>)
    requires forall x :: f(x) >= 0.0
    ensures SumOf(f, xs) >= 0.0
  {
    if xs != [] {
      SumNotNegative(f, xs[..|xs| - 1]);
    }
  }

  lemma {:induction false} CountAtMost(p: real -> bool, xs: seq<real>)
    ensures CountOf(p, xs) <= |xs|
  {
    if xs != [] {
      CountAtMost(p, xs[..|xs| - 1]);
    }
  }

  /** Markov's inequality: terms that are not negative sum to at least `w` for each value whose
      term exceeds `w`. */
  lemma {:induction false} LargeTermsWeigh(f: real -> real, p: real -> bool, w: real, xs: seq<real>)
    requires forall x :: f(x) >= 0.0
    requires forall x :: p(x) ==> f(x) > w
    ensures SumOf(f, xs) >= CountOf(p, xs) as real * w
    ensures CountOf(p, xs) > 0 ==> SumOf(f, xs) > CountOf(p, xs) as real * w
  {
    if xs != [] {
      LargeTermsWeigh(f, p, w, xs[..|xs| - 1]);
      AddOne(CountOf(p, xs[..|xs| - 1]) as real, w);
    }
  }

  /** Terms that are the same linear combination of two others sum to that combination. */
  lemma {:induction false} SumIsLinear(
      f: real -> real, g: real -> real, h: real -> real, a: real, b: real, c: real, xs: seq<real>)
    requires forall x :: h(x) == a * f(x) + b * g(x) + c
    ensures SumOf(h, xs) == a * SumOf(f, xs) + b * SumOf(g, xs) + |xs| as real * c
  {
    if xs != [] {
      var front, x := xs[..|xs| - 1], xs[|xs| - 1];
      SumIsLinear(f, g, h, a, b, c, front);
      Distribute(a, SumOf(f, front), f(x));
      Distribute(b, SumOf(g, front), g(x));
      AddOne(|front| as real, c);
    }
  }

  lemma {:induction false} ZeroSumHasNoTerm(f: real -> real, p: real -> bool, xs: seq<real>)
    requires forall x :: f(x) >= 0.0
    requires forall x :: p(x) ==> f(x) > 0.0
    requires SumOf(f, xs) == 0.0
    ensures CountOf(p, xs) == 0
  {
    if xs != [] {
      SumNotNegative(f, xs[..|xs| - 1]);
      ZeroSumHasNoTerm(f, p, xs[..|xs| - 1]);
    }
  }

  /** The sum of one value's term is that term, and the sum over two lists is the sum of both. */
  lemma {:induction false} SumIsAdditive(f: real -> real, x: real, xs: seq<real>, ys: seq<real>)
    ensures SumOf(f, [x]) == f(x)
    ensures SumOf(f, xs + ys) == SumOf(f, xs) + SumOf(f, ys)
  {
    assert [x][..0] == [];
    if ys == [] {
      assert xs + ys == xs;
    } else {
      assert (xs + ys)[..|xs + ys| - 1] == xs + ys[..|ys| - 1];
      SumIsAdditive(f, x, xs, ys[..|ys| - 1]);
    }
  }

  /** A mean and the squared distances from it, in numbers. */
  lemma SampleMean()
    ensures Mean([1.0, 2.0, 6.0]) == 3.0 && SquaredDistances([1.0, 2.0, 6.0], 3.0) == 14.0
  {
    var xs := [1.0, 2.0, 6.0];
    assert xs[..2] == [1.0, 2.0] && [1.0, 2.0][..1] == [1.0] && [1.0][..0] == [];
    assert SumOf(SquareFrom(3.0), [1.0]) == 4.0;
    assert SumOf(SquareFrom(3.0), [1.0, 2.0]) == 5.0;
    assert Sum([1.0]) == 1.0 && Sum([1.0, 2.0]) == 3.0;
  }

  // ---------------------------------------------------------------- training

  /** Two passes over the data; an empty data set gives zeros. */
  method MeanStddev(xs: seq<real>, sqrt: real -> real) returns (mean: real, stddev: real)
    ensures xs == [] ==> mean == stddev == 0.0
    ensures xs != [] ==> mean == Mean(xs) && stddev == sqrt(SquaredDistances(xs, mean) / |xs| as real)
  {
    if xs == [] {
      return 0.0, 0.0;
    }
    var sum, variance := 0.0, 0.0;
    for i := 0 to |xs|
      invariant sum == Sum(xs[..i])
    {
      TakeNext(xs, i);
      sum := sum + xs[i];
    }
    TakeAll(xs);
    mean := sum / |xs| as real;
    for i := 0 to |xs|
      invariant variance == SquaredDistances(xs[..i], mean)
    {
      TakeNext(xs, i);
      variance := variance + (xs[i] - mean) * (xs[i] - mean);
    }
    stddev := sqrt(variance / |xs| as real);
  }

  // ---------------------------------------------------------------- scoring

  function ZScore(mean: real, stddev: real, x: real): real
    requires stddev != 0.0
  {
    (x - mean) / stddev
  }

  /** One score per value, or none at all when the training data did not vary. */
  method ZScores(mean: real, stddev: real, live: seq<real>) returns (scores: seq<real>)
    ensures stddev == 0.0 ==> scores == []
    ensures stddev != 0.0 ==> |scores| == |live|
                              && forall i | 0 <= i < |live| :: scores[i] == ZScore(mean, stddev, live[i])
  {
    scores := [];
    if stddev == 0.0 {
      return;
    }
    for k := 0 to |live|
      invariant |scores| == k
      invariant forall i | 0 <= i < k :: scores[i] == ZScore(mean, stddev, live[i])
    {
      scores := scores + [ZScore(mean, stddev, live[k])];
    }
  }

  function CountTrue(flags: seq<bool>): nat {
    if flags == [] then 0 else CountTrue(flags[..|flags| - 1]) + (if flags[|flags| - 1] then 1 else 0)
  }

  /** Whether the z-score rule flags `x`. */
  predicate FlaggedByScore(mean: real, stddev: real, k: real, x: real)
    requires stddev != 0.0
  {
    Abs(ZScore(mean, stddev, x)) > k
  }

  /** The two rules that `predict` applies to one column of live data: distance in standard
      deviations above `k`, and value above the stored threshold. */
  method Predict(mean: real, stddev: real, threshold: real, k: real, live: seq<real>)
      returns (byScore: seq<bool>, byThreshold: seq<bool>)
    ensures stddev == 0.0 ==> byScore == []
    ensures stddev != 0.0 ==> |byScore| == |live|
    ensures stddev != 0.0 ==> forall i | 0 <= i < |live| :: byScore[i] <==> FlaggedByScore(mean, stddev, k, live[i])
    ensures |byThreshold| == |live| && forall i | 0 <= i < |live| :: byThreshold[i] <==> live[i] > threshold
  {
    var scores := ZScores(mean, stddev, live);
    byScore, byThreshold := [], [];
    for j := 0 to |scores|
      invariant |byScore| == j && forall i | 0 <= i < j :: byScore[i] <==> Abs(scores[i]) > k
    {
      byScore := byScore + [Abs(scores[j]) > k];
    }
    for j := 0 to |live|
      invariant |byThreshold| == j && forall i | 0 <= i < j :: byThreshold[i] <==> live[i] > threshold
    {
      byThreshold := byThreshold + [live[j] > threshold];
    }
  }

  lemma ScoreIsDistance(mean: real, stddev: real, k: real, x: real)
    requires stddev > 0.0
    ensures FlaggedByScore(mean, stddev, k, x) <==> Abs(x - mean) > k * stddev
  {
    QuotientAbove(x - mean, k, stddev);
  }

  /** The flags of the z-score rule count the values outside k deviations. */
  lemma {:induction false} ScoreFlagsCount(mean: real, stddev: real, k: real, xs: seq<real>, flags: seq<bool>)
    requires stddev > 0.0 && |flags| == |xs|
    requires forall i | 0 <= i < |xs| :: flags[i] <==> FlaggedByScore(mean, stddev, k, xs[i])
    ensures CountTrue(flags) == CountOutside(xs, mean, k * stddev)
  {
    if xs != [] {
      var n := |xs| - 1;
      ScoreIsDistance(mean, stddev, k, xs[n]);
      ScoreFlagsCount(mean, stddev, k, xs[..n], flags[..n]);
    }
  }

  /** The flags of the threshold rule count the values above the threshold. */
  lemma {:induction false} ThresholdFlagsCount(threshold: real, xs: seq<real>, flags: seq<bool>)
    requires |flags| == |xs| && forall i | 0 <= i < |xs| :: flags[i] <==> xs[i] > threshold
    ensures CountTrue(flags) == CountAbove(xs, threshold)
  {
    if xs != [] {
      ThresholdFlagsCount(threshold, xs[..|xs| - 1], flags[..|xs| - 1]);
    }
  }

  /** Whatever the threshold mean + k * stddev flags, the z-score rule flags as well. */
  lemma ThresholdImpliesScore(mean: real, stddev: real, k: real, x: real)
    requires stddev > 0.0 && x > mean + k * stddev
    ensures FlaggedByScore(mean, stddev, k, x)
  {
    ScoreIsDistance(mean, stddev, k, x);
  }

  // ---------------------------------------------------------------- Chebyshev

  /** The squared distances sum to at least t * t for each value further than t away. */
  lemma OutsidersWeigh(xs: seq<real>, mu: real, t: real)
    requires t >= 0.0
    ensures SquaredDistances(xs, mu) >= CountOutside(xs, mu, t) as real * (t * t)
    ensures CountOutside(xs, mu, t) > 0 ==> SquaredDistances(xs, mu) > CountOutside(xs, mu, t) as real * (t * t)
  {
    forall x
      ensures IsOutside(mu, t)(x) ==> SquareFrom(mu)(x) > t * t
    {
      if Abs(x - mu) > t {
        SquareExceeds(x - mu, t);
      }
    }
    SquaresNotNegative(mu);
    LargeTermsWeigh(SquareFrom(mu), IsOutside(mu, t), t * t, xs);
  }

  lemma SquaresNotNegative(mu: real)
    ensures forall x :: SquareFrom(mu)(x) >= 0.0
  {
    forall x
      ensures SquareFrom(mu)(x) >= 0.0
    {
      SquareSign(x - mu, SquareFrom(mu)(x));
    }
  }

  lemma DistancesNotNegative(xs: seq<real>, mu: real)
    ensures SquaredDistances(xs, mu) >= 0.0
  {
    SquaresNotNegative(mu);
    SumNotNegative(SquareFrom(mu), xs);
  }

  /** Scoring a data set against its own mean and deviation, the z-score rule flags m of n values
      with m * k * k <= n, strictly below n when it flags any. */
  lemma ChebyshevBound(xs: seq<real>, stddev: real, k: real)
    requires xs != [] && k >= 0.0 && stddev > 0.0
    requires (stddev * stddev) == SquaredDistances(xs, Mean(xs)) / |xs| as real
    ensures CountOutside(xs, Mean(xs), k * stddev) as real * (k * k) <= |xs| as real
    ensures CountOutside(xs, Mean(xs), k * stddev) > 0 ==>
              CountOutside(xs, Mean(xs), k * stddev) as real * (k * k) < |xs| as real
  {
    NonNegative(k, stddev);
    OutsidersWeigh(xs, Mean(xs), k * stddev);
    VarianceTimesCount(|xs| as real, SquaredDistances(xs, Mean(xs)), stddev);
    ChebyshevArithmetic(|xs| as real, CountOutside(xs, Mean(xs), k * stddev) as real, k, stddev,
                        SquaredDistances(xs, Mean(xs)));
  }

  // ---------------------------------------------------------------- the one-sided bound

  function LinearSquare(mu: real, p: real, q: real): real -> real {
    x => (p * (x - mu) + q) * (p * (x - mu) + q)
  }

  function OffsetFrom(mu: real): real -> real {
    x => x - mu
  }

  lemma {:induction false} SumOfOffsets(xs: seq<real>, mu: real)
    ensures SumOf(OffsetFrom(mu), xs) == Sum(xs) - |xs| as real * mu
  {
    if xs != [] {
      SumOfOffsets(xs[..|xs| - 1], mu);
      AddOne((|xs| - 1) as real, mu);
    }
  }

  /** The terms of `h` are the combination a * f + b * g + c of those of `f` and `g`. */
  ghost predicate Combines(h: real -> real, f: real -> real, g: real -> real, a: real, b: real, c: real) {
    forall x :: h(x) == a * f(x) + b * g(x) + c
  }

  /** The terms of `h` are not negative, and more than `w` above the bound. */
  ghost predicate Weighs(h: real -> real, bound: real, w: real) {
    (forall x :: h(x) >= 0.0) && forall x :: IsAbove(bound)(x) ==> h(x) > w
  }

  /** The square of p * d + q as a combination of d * d and d. */
  lemma LinearSquareExpands(mu: real, p: real, q: real, a: real, b: real, c: real)
    requires a == p * p && b == 2.0 * p * q && c == q * q
    ensures Combines(LinearSquare(mu, p, q), SquareFrom(mu), OffsetFrom(mu), a, b, c)
  {
    forall x
      ensures LinearSquare(mu, p, q)(x) == a * SquareFrom(mu)(x) + b * OffsetFrom(mu)(x) + c
    {
      LinearSquareTerm(mu, p, q, a, b, c, x);
    }
  }

  lemma LinearSquareTerm(mu: real, p: real, q: real, a: real, b: real, c: real, x: real)
    requires a == p * p && b == 2.0 * p * q && c == q * q
    ensures LinearSquare(mu, p, q)(x) == a * SquareFrom(mu)(x) + b * OffsetFrom(mu)(x) + c
  {
    LinearSquareAt(mu, p, q, x, LinearSquare(mu, p, q)(x), SquareFrom(mu)(x), a, b, c);
  }

  lemma LinearSquareAt(mu: real, p: real, q: real, x: real, y: real, z: real, a: real, b: real, c: real)
    requires y == (p * (x - mu) + q) * (p * (x - mu) + q) && z == (x - mu) * (x - mu)
    requires a == p * p && b == 2.0 * p * q && c == q * q
    ensures y == a * z + b * (x - mu) + c
  {
    SquareOfSum(p, x - mu, q);
  }

  lemma LinearSquareAbove(mu: real, t: real, p: real, q: real, x: real, y: real)
    requires t >= 0.0 && p > 0.0 && q >= 0.0 && x > mu + t && y == (p * (x - mu) + q) * (p * (x - mu) + q)
    ensures y > (p * t + q) * (p * t + q)
  {
    LinearSquareGrows(p, q, t, x - mu);
  }

  lemma LinearSquareWeighs(mu: real, t: real, p: real, q: real, w: real)
    requires t >= 0.0 && p > 0.0 && q >= 0.0 && w == (p * t + q) * (p * t + q)
    ensures Weighs(LinearSquare(mu, p, q), mu + t, w)
  {
    forall x
      ensures LinearSquare(mu, p, q)(x) >= 0.0
    {
      LinearSquareSign(mu, p, q, x);
    }
    forall x
      ensures IsAbove(mu + t)(x) ==> LinearSquare(mu, p, q)(x) > w
    {
      LinearSquareExceeds(mu, t, p, q, w, x);
    }
  }

  lemma LinearSquareExceeds(mu: real, t: real, p: real, q: real, w: real, x: real)
    requires t >= 0.0 && p > 0.0 && q >= 0.0 && w == (p * t + q) * (p * t + q)
    ensures IsAbove(mu + t)(x) ==> LinearSquare(mu, p, q)(x) > w
  {
    if x > mu + t {
      LinearSquareAbove(mu, t, p, q, x, LinearSquare(mu, p, q)(x));
    }
  }

  lemma LinearSquareSign(mu: real, p: real, q: real, x: real)
    ensures LinearSquare(mu, p, q)(x) >= 0.0
  {
    SquareSign(p * (x - mu) + q, LinearSquare(mu, p, q)(x));
  }

  lemma OffsetsCancel(xs: seq<real>, mu: real)
    requires Sum(xs) == |xs| as real * mu
    ensures SumOf(OffsetFrom(mu), xs) == 0.0
  {
    SumOfOffsets(xs, mu);
  }

  lemma SumWithoutLinearPart(
      h: real -> real, f: real -> real, g: real -> real, a: real, b: real, c: real, xs: seq<real>, n: real, s: real)
    requires Combines(h, f, g, a, b, c) && n == |xs| as real && s == SumOf(f, xs) && SumOf(g, xs) == 0.0
    ensures SumOf(h, xs) == a * s + n * c
  {
    SumIsLinear(f, g, h, a, b, c, xs);
    TimesZero(b);
  }

  lemma TermsAboveWeigh(h: real -> real, bound: real, w: real, xs: seq<real>, m: nat)
    requires Weighs(h, bound, w) && m == CountAbove(xs, bound)
    ensures SumOf(h, xs) >= m as real * w
    ensures m > 0 ==> SumOf(h, xs) > m as real * w
  {
    LargeTermsWeigh(h, IsAbove(bound), w, xs);
  }

  /** The squares of p * d + s over the offsets d from the mean, summed: the linear part of the
      expansion vanishes. */
  lemma SquaresSummed(xs: seq<real>, mu: real, p: real, n: real, s: real, a: real, c: real)
    requires Sum(xs) == |xs| as real * mu && n == |xs| as real && s == SquaredDistances(xs, mu)
    requires a == p * p && c == s * s
    ensures SumOf(LinearSquare(mu, p, s), xs) == a * s + n * c
  {
    var b := 2.0 * p * s;
    LinearSquareExpands(mu, p, s, a, b, c);
    OffsetsCancel(xs, mu);
    SumWithoutLinearPart(LinearSquare(mu, p, s), SquareFrom(mu), OffsetFrom(mu), a, b, c, xs, n, s);
  }

  /** Each value more than t above the mean adds more than (p * t + s) squared to that sum. */
  lemma SquaresWeigh(xs: seq<real>, mu: real, t: real, p: real, s: real, w: real, m: nat)
    requires t >= 0.0 && p > 0.0 && s >= 0.0 && w == (p * t + s) * (p * t + s) && m == CountAbove(xs, mu + t)
    ensures SumOf(LinearSquare(mu, p, s), xs) >= m as real * w
    ensures m > 0 ==> SumOf(LinearSquare(mu, p, s), xs) > m as real * w
  {
    LinearSquareWeighs(mu, t, p, s, w);
    TermsAboveWeigh(LinearSquare(mu, p, s), mu + t, w, xs, m);
  }

  /** Cantelli's inequality without division: of n values with mean mu and squared distances
      S > 0 from it, m lie more than t above it only if m * (n * t * t + S) <= n * S. */
  lemma OneSidedBound(xs: seq<real>, mu: real, t: real, n: real, s: real)
    requires n == |xs| as real > 0.0 && Sum(xs) == |xs| as real * mu && t > 0.0
    requires s == SquaredDistances(xs, mu) > 0.0
    ensures CountAbove(xs, mu + t) as real * (n * (t * t) + s) <= n * s
    ensures CountAbove(xs, mu + t) > 0 ==> CountAbove(xs, mu + t) as real * (n * (t * t) + s) < n * s
  {
    Positive(n, t);
    var p, m := n * t, CountAbove(xs, mu + t);
    var a, c, w := p * p, s * s, (p * t + s) * (p * t + s);
    SquaresSummed(xs, mu, p, n, s, a, c);
    SquaresWeigh(xs, mu, t, p, s, w, m);
    OneSidedArithmetic(n, s, t, m, p, a, c, w, SumOf(LinearSquare(mu, p, s), xs));
  }

  /** The threshold mean + k * stddev flags m of its own n training values only if
      m * (1 + k * k) <= n. */
  lemma ThresholdBound(xs: seq<real>, stddev: real, k: real)
    requires xs != [] && k >= 0.0 && stddev > 0.0
    requires (stddev * stddev) == SquaredDistances(xs, Mean(xs)) / |xs| as real
    ensures CountAbove(xs, Mean(xs) + k * stddev) as real * (1.0 + (k * k)) <= |xs| as real
  {
    var n, s := |xs| as real, SquaredDistances(xs, Mean(xs));
    if k == 0.0 {
      CountAtMost(IsAbove(Mean(xs) + k * stddev), xs);
    } else {
      Positive(k, stddev);
      VarianceTimesCount(n, s, stddev);
      VarianceIsPositive(n, s, stddev);
      TimesQuotient(Sum(xs), n);
      OneSidedBound(xs, Mean(xs), k * stddev, n, s);
      ThresholdArithmetic(n, CountAbove(xs, Mean(xs) + k * stddev) as real, k, stddev, s);
    }
  }

  /** `LatencyCalc` and `StatusCodeCalc`: the threshold stored by training. */
  function Threshold(mean: real, stddev: real, k: real): real {
    mean + k * stddev
  }

  lemma VarianceOfOwnData(xs: seq<real>, sqrt: real -> real, stddev: real)
    requires IsSqrt(sqrt) && xs != []
    requires stddev == sqrt(SquaredDistances(xs, Mean(xs)) / |xs| as real)
    ensures stddev >= 0.0 && stddev * stddev == SquaredDistances(xs, Mean(xs)) / |xs| as real
  {
    DistancesNotNegative(xs, Mean(xs));
    QuotientSign(SquaredDistances(xs, Mean(xs)), |xs| as real);
  }

  lemma SameWeight(m: nat, n: nat, w: real, total: real)
    requires m == n && n as real * w <= total
    ensures m as real * w <= total
  {}

  lemma OwnScoreFlags(xs: seq<real>, stddev: real, k: real, flags: seq<bool>)
    requires xs != [] && k >= 0.0 && stddev > 0.0
    requires (stddev * stddev) == SquaredDistances(xs, Mean(xs)) / |xs| as real
    requires CountTrue(flags) == CountOutside(xs, Mean(xs), k * stddev)
    ensures CountTrue(flags) as real * (k * k) <= |xs| as real
  {
    ChebyshevBound(xs, stddev, k);
    SameWeight(CountTrue(flags), CountOutside(xs, Mean(xs), k * stddev), (k * k), |xs| as real);
  }

  lemma OwnThresholdFlags(xs: seq<real>, stddev: real, k: real, flags: seq<bool>)
    requires xs != [] && k >= 0.0 && stddev > 0.0
    requires (stddev * stddev) == SquaredDistances(xs, Mean(xs)) / |xs| as real
    requires CountTrue(flags) == CountAbove(xs, Mean(xs) + k * stddev)
    ensures CountTrue(flags) as real * (1.0 + (k * k)) <= |xs| as real
  {
    ThresholdBound(xs, stddev, k);
    SameWeight(CountTrue(flags), CountAbove(xs, Mean(xs) + k * stddev), 1.0 + (k * k), |xs| as real);
  }

  lemma RulesNest(mean: real, stddev: real, k: real, xs: seq<real>, byScore: seq<bool>, byThreshold: seq<bool>)
    requires stddev > 0.0 && |byScore| == |byThreshold| == |xs|
    requires forall i | 0 <= i < |xs| :: byScore[i] <==> FlaggedByScore(mean, stddev, k, xs[i])
    requires forall i | 0 <= i < |xs| :: byThreshold[i] <==> xs[i] > mean + k * stddev
    ensures forall i | 0 <= i < |xs| :: byThreshold[i] ==> byScore[i]
  {
    forall i | 0 <= i < |xs| && byThreshold[i]
      ensures byScore[i]
    {
      ThresholdImpliesScore(mean, stddev, k, xs[i]);
    }
  }

  predicate IsFar(x: real, mean: real, distance: real) {
    (if x < mean then mean - x else x - mean) > distance
  }

  lemma FlagsAreDistances(mean: real, stddev: real, k: real, xs: seq<real>, byScore: seq<bool>)
    requires stddev > 0.0 && |byScore| == |xs|
    requires forall i | 0 <= i < |xs| :: byScore[i] <==> FlaggedByScore(mean, stddev, k, xs[i])
    ensures forall i | 0 <= i < |xs| :: byScore[i] <==> IsFar(xs[i], mean, k * stddev)
  {
    forall i | 0 <= i < |xs|
      ensures byScore[i] <==> IsFar(xs[i], mean, k * stddev)
    {
      ScoreIsDistance(mean, stddev, k, xs[i]);
    }
  }

  lemma OwnFlags(xs: seq<real>, sqrt: real -> real, stddev: real, k: real, byScore: seq<bool>, byThreshold: seq<bool>)
    requires IsSqrt(sqrt) && k >= 0.0 && xs != [] && stddev != 0.0 && |byScore| == |byThreshold| == |xs|
    requires stddev == sqrt(SquaredDistances(xs, Mean(xs)) / |xs| as real)
    requires forall i | 0 <= i < |xs| :: byScore[i] <==> FlaggedByScore(Mean(xs), stddev, k, xs[i])
    requires forall i | 0 <= i < |xs| :: byThreshold[i] <==> xs[i] > Mean(xs) + k * stddev
    ensures CountTrue(byScore) as real * (k * k) <= |xs| as real
    ensures CountTrue(byThreshold) as real * (1.0 + (k * k)) <= |xs| as real
    ensures forall i | 0 <= i < |xs| :: byThreshold[i] ==> byScore[i]
    ensures forall i | 0 <= i < |xs| :: byScore[i] <==> IsFar(xs[i], Mean(xs), k * stddev)
  {
    VarianceOfOwnData(xs, sqrt, stddev);
    ScoreFlagsCount(Mean(xs), stddev, k, xs, byScore);
    ThresholdFlagsCount(Mean(xs) + k * stddev, xs, byThreshold);
    OwnScoreFlags(xs, stddev, k, byScore);
    OwnThresholdFlags(xs, stddev, k, byThreshold);
    RulesNest(Mean(xs), stddev, k, xs, byScore, byThreshold);
    FlagsAreDistances(Mean(xs), stddev, k, xs, byScore);
  }

  lemma NothingAboveWithoutSpread(xs: seq<real>, mu: real)
    requires SquaredDistances(xs, mu) == 0.0
    ensures CountAbove(xs, mu) == 0
  {
    SquaresNotNegative(mu);
    forall x
      ensures IsAbove(mu)(x) ==> SquareFrom(mu)(x) > 0.0
    {
      SquareSign(x - mu, SquareFrom(mu)(x));
    }
    ZeroSumHasNoTerm(SquareFrom(mu), IsAbove(mu), xs);
  }

  /** A column that does not vary has no value above its threshold. */
  lemma OwnThresholdWithoutSpread(xs: seq<real>, sqrt: real -> real, k: real)
    requires IsSqrt(sqrt) && xs != [] && sqrt(SquaredDistances(xs, Mean(xs)) / |xs| as real) == 0.0
    ensures CountAbove(xs, Threshold(Mean(xs), 0.0, k)) == 0
  {
    VarianceOfOwnData(xs, sqrt, 0.0);
    TimesQuotient(SquaredDistances(xs, Mean(xs)), |xs| as real);
    NothingAboveWithoutSpread(xs, Mean(xs));
  }

  /** What each rule flags. */
  predicate FlagsAgainst(xs: seq<real>, mean: real, stddev: real, k: real, byScore: seq<bool>, byThreshold: seq<bool>) {
    && |byThreshold| == |xs| && (forall i | 0 <= i < |xs| :: byThreshold[i] <==> xs[i] > mean + k * stddev)
    && if stddev == 0.0 then byScore == [] else
         |byScore| == |xs| && forall i | 0 <= i < |xs| :: byScore[i] <==> IsFar(xs[i], mean, k * stddev)
  }

  /** Training on a column and predicting the same column: how many values each rule may flag,
      and that the z-score rule flags whatever the threshold rule flags. */
  method FlagOwnData(xs: seq<real>, sqrt: real -> real, k: real) returns (byScore: seq<bool>, byThreshold: seq<bool>)
    requires IsSqrt(sqrt) && k >= 0.0
    ensures |byThreshold| == |xs| && (|byScore| == |xs| || byScore == [])
    ensures byScore != [] ==> CountTrue(byScore) as real * (k * k) <= |xs| as real
    ensures CountTrue(byThreshold) as real * (1.0 + (k * k)) <= |xs| as real
    ensures byScore == [] ==> CountTrue(byThreshold) == 0
    ensures byScore != [] ==> forall i | 0 <= i < |xs| :: byThreshold[i] ==> byScore[i]
    ensures xs != [] ==>
              FlagsAgainst(xs, Mean(xs), sqrt(SquaredDistances(xs, Mean(xs)) / |xs| as real), k, byScore, byThreshold)
  {
    var mean, stddev := MeanStddev(xs, sqrt);
    byScore, byThreshold := Predict(mean, stddev, Threshold(mean, stddev, k), k, xs);
    if byScore != [] {
      OwnFlags(xs, sqrt, stddev, k, byScore, byThreshold);
    } else {
      if xs != [] {
        OwnThresholdWithoutSpread(xs, sqrt, k);
      }
      ThresholdFlagsCount(Threshold(mean, stddev, k), xs, byThreshold);
      assert CountTrue(byThreshold) == 0;
      TimesZero(1.0 + (k * k));
    }
  }
}
