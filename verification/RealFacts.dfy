/** Facts about products of reals, each small enough for the verifier, that the statistics use. */
module RealFacts {
  function Abs(x: real): real {
    if x < 0.0 then -x else x
  }

  lemma NonNegative(x: real, y: real)
    requires x >= 0.0 && y >= 0.0
    ensures x * y >= 0.0
  {}

  lemma Positive(x: real, y: real)
    requires x > 0.0 && y > 0.0
    ensures x * y > 0.0
  {}

  lemma Distribute(c: real, a: real, b: real)
    ensures c * (a + b) == c * a + c * b
  {}

  lemma AddOne(m: real, b: real)
    ensures (m + 1.0) * b == m * b + b
  {}

  lemma TimesZero(a: real)
    ensures a * 0.0 == 0.0
  {}

  lemma Regroup(a: real, b: real, c: real)
    ensures a * (b * c) == (a * b) * c
  {}

  lemma TimesQuotient(s: real, n: real)
    requires n != 0.0
    ensures n * (s / n) == s
  {}

  lemma SquareOfNegative(x: real)
    ensures (-x) * (-x) == x * x
  {}

  /** The sign of a square, which is passed under a name of its own. */
  lemma SquareSign(x: real, square: real)
    requires square == x * x
    ensures square >= 0.0
    ensures x != 0.0 ==> square > 0.0
  {
    if x > 0.0 {
      Scaled(x, x, 0.0, square);
    } else if x < 0.0 {
      SquareOfNegative(x);
      Scaled(-x, -x, 0.0, square);
    }
  }

  lemma Scaled(x: real, y: real, z: real, product: real)
    requires x > 0.0 && y > z && product == x * y
    ensures product > x * z
  {
    Positive(x, y - z);
    Distribute(x, y - z, z);
  }

  lemma DifferenceOfSquares(b: real, y: real)
    ensures (y - b) * (y + b) == y * y - b * b
  {}

  lemma SquareGrows(b: real, y: real)
    requires 0.0 <= b < y
    ensures y * y > b * b
  {
    Positive(y - b, y + b);
    DifferenceOfSquares(b, y);
  }

  lemma SquareBelow(b: real, y: real, z: real)
    requires b >= 0.0 && y > 0.0 && z == b * b && z < y * y
    ensures b < y
  {
    DifferenceOfSquares(y, b);
    if b >= y {
      NonNegative(b - y, b + y);
    }
  }

  lemma RootBelow(b: real, y: real, z: real)
    requires 0.0 <= b < y && z == b * b
    ensures z < y * y
  {
    SquareGrows(b, y);
  }

  lemma SquareExceeds(d: real, t: real)
    requires t >= 0.0 && Abs(d) > t
    ensures d * d > t * t
  {
    if d >= 0.0 {
      SquareGrows(t, d);
    } else {
      SquareGrows(t, -d);
      SquareOfNegative(d);
    }
  }

  lemma DistributeDifference(a: real, b: real, c: real)
    ensures (a - b) * c == a * c - b * c
  {}

  lemma CancelAtMost(a: real, b: real, c: real)
    requires c > 0.0 && a * c <= b * c
    ensures a <= b
  {
    DistributeDifference(a, b, c);
    if a > b {
      Positive(a - b, c);
    }
  }

  lemma CancelBelow(a: real, b: real, c: real)
    requires c > 0.0 && a * c < b * c
    ensures a < b
  {
    DistributeDifference(a, b, c);
    if a >= b {
      NonNegative(a - b, c);
    }
  }

  lemma Times(a: real, b: real, c: real)
    requires a == b
    ensures a * c == b * c && c * a == c * b
  {}

  lemma SquareOfProduct(k: real, d: real)
    ensures (k * d) * (k * d) == (k * k) * (d * d)
  {}

  // ---------------------------------------------------------------- the inequalities

  /** A quotient is far from zero when its numerator is far from zero. */
  lemma QuotientAbove(x: real, k: real, d: real)
    requires d > 0.0
    ensures Abs(x / d) > k <==> Abs(x) > k * d
  {
    var a := Abs(x / d);
    TimesQuotient(x, d);
    if x >= 0.0 {
      QuotientSign(x, d);
    } else {
      QuotientSign(-x, d);
      assert (-x) / d == -(x / d);
    }
    assert a * d == Abs(x);
    if a > k {
      Positive(a - k, d);
      DistributeDifference(a, k, d);
    }
    if a * d > k * d {
      CancelBelow(k, a, d);
    }
  }

  lemma QuotientSign(x: real, d: real)
    requires d > 0.0 && x >= 0.0
    ensures x / d >= 0.0
  {}

  /** The defining equation of a deviation without division. */
  lemma VarianceTimesCount(n: real, s: real, d: real)
    requires n > 0.0 && d * d == s / n
    ensures s == n * (d * d)
  {
    TimesQuotient(s, n);
  }

  /** From S >= m * (k * d)^2 and S == n * d^2 follows m * k^2 <= n. */
  lemma ChebyshevArithmetic(n: real, m: real, k: real, d: real, s: real)
    requires d > 0.0 && s == n * (d * d)
    ensures s >= m * ((k * d) * (k * d)) ==> m * (k * k) <= n
    ensures s > m * ((k * d) * (k * d)) ==> m * (k * k) < n
  {
    var v := d * d;
    SquareSign(d, v);
    SquareOfProduct(k, d);
    Times((k * d) * (k * d), (k * k) * (d * d), m);
    Regroup(m, k * k, v);
    if s >= m * ((k * d) * (k * d)) {
      CancelAtMost(m * (k * k), n, v);
    }
    if s > m * ((k * d) * (k * d)) {
      CancelBelow(m * (k * k), n, v);
    }
  }

  lemma SquareOfSum(p: real, d: real, q: real)
    ensures (p * d + q) * (p * d + q) == (p * p) * (d * d) + (2.0 * p * q) * d + q * q
  {
    SquareOfProduct(p, d);
    BinomialSquare(p * d, q);
    assert 2.0 * (p * d) * q == (2.0 * p * q) * d;
  }

  lemma BinomialSquare(a: real, q: real)
    ensures (a + q) * (a + q) == a * a + 2.0 * a * q + q * q
  {}

  lemma LinearSquareGrows(p: real, q: real, t: real, d: real)
    requires p > 0.0 && q >= 0.0 && d > t >= 0.0
    ensures (p * d + q) * (p * d + q) > (p * t + q) * (p * t + q)
  {
    NonNegative(p, t);
    Positive(d - t, p);
    DistributeDifference(d, t, p);
    SquareGrows(p * t + q, p * d + q);
  }

  /** With p = n * t and q = S the summed squares are (n * S) * (n * t^2 + S). */
  lemma OneSidedTotal(n: real, s: real, t: real)
    ensures (n * t) * t + s == n * (t * t) + s
    ensures ((n * t) * (n * t)) * s + n * (s * s) == (n * s) * (n * (t * t) + s)
  {
    SquareOfProduct(n, t);
    Distribute(n * s, n * (t * t), s);
    assert ((n * n) * (t * t)) * s == (n * s) * (n * (t * t));
    assert n * (s * s) == (n * s) * s;
  }

  lemma OneSidedArithmetic(n: real, s: real, t: real, m: nat, p: real, a: real, c: real, w: real, total: real)
    requires n > 0.0 && s > 0.0 && p == n * t && a == p * p && c == s * s && w == (p * t + s) * (p * t + s)
    requires total == a * s + n * c
    requires total >= m as real * w
    requires m > 0 ==> total > m as real * w
    ensures m as real * (n * (t * t) + s) <= n * s
    ensures m > 0 ==> m as real * (n * (t * t) + s) < n * s
  {
    OneSidedTotal(n, s, t);
    var u := t * t;
    SquareSign(t, u);
    NonNegative(n, u);
    var b := n * u + s;
    assert w == b * b;
    CancelSquare(b, m as real, n * s);
  }

  lemma CancelSquare(b: real, m: real, c: real)
    requires b > 0.0
    ensures c * b >= m * (b * b) ==> m * b <= c
    ensures c * b > m * (b * b) ==> m * b < c
  {
    Regroup(m, b, b);
    if c * b >= m * (b * b) {
      CancelAtMost(m * b, c, b);
    }
    if c * b > m * (b * b) {
      CancelBelow(m * b, c, b);
    }
  }

  lemma VarianceIsPositive(n: real, s: real, d: real)
    requires n > 0.0 && d > 0.0 && s == n * (d * d)
    ensures s > 0.0
  {
    var v := d * d;
    SquareSign(d, v);
    Positive(n, v);
  }

  /** The bound for t = k * d with S == n * d^2, in terms of k alone. */
  lemma ThresholdArithmetic(n: real, m: real, k: real, d: real, s: real)
    requires n > 0.0 && s > 0.0 && s == n * (d * d)
    requires m * (n * ((k * d) * (k * d)) + s) <= n * s
    ensures m * (1.0 + k * k) <= n
  {
    SquareOfProduct(k, d);
    assert n * ((k * k) * (d * d)) == (k * k) * (n * (d * d));
    assert n * ((k * d) * (k * d)) + s == (1.0 + k * k) * s;
    Regroup(m, 1.0 + k * k, s);
    CancelAtMost(m * (1.0 + k * k), n, s);
  }

  lemma ZeroRoot(r: real)
    requires r >= 0.0 && r * r == 0.0
    ensures r == 0.0
  {
    SquareSign(r, 0.0);
  }

  lemma QuotientIsPositive(s: real, n: real)
    requires s > 0.0 && n > 0.0
    ensures s / n > 0.0
  {}

  lemma PositiveRoot(r: real, square: real)
    requires r >= 0.0 && square == r * r && square > 0.0
    ensures r > 0.0
  {
    if r == 0.0 {
      TimesZero(r);
    }
  }

  lemma {:induction false} RealOfProduct(m: nat, n: nat)
    ensures (m * n) as real == m as real * n as real
    decreases m
  {
    if m > 0 {
      RealOfProduct(m - 1, n);
      assert m * n == (m - 1) * n + n;
      AddOne((m - 1) as real, n as real);
    }
  }

  /** The average of n normalised distances, whose sum is `total`. */
  lemma AverageOfScores(n: real, sum: real, mean: real, d: real, total: real)
    requires n > 0.0 && d != 0.0 && d * total == sum - n * mean
    ensures total / n == (sum / n - mean) / d
  {
    var average := total / n;
    TimesQuotient(total, n);
    TimesQuotient(sum, n);
    Regroup(d, n, average);
    Regroup(n, d, average);
    Distribute(n, d * average, mean);
    EqualFactors(d * average + mean, sum / n, n);
  }

  lemma EqualFactors(a: real, b: real, c: real)
    requires c > 0.0 && c * a == c * b
    ensures a == b
  {
    CancelAtMost(a, b, c);
    CancelAtMost(b, a, c);
  }

  /** The bound for t = 3 * r with r^2 == S / (n - 1), in whole numbers. */
  lemma SpikeArithmetic(n: nat, m: nat, r: real, s: real)
    requires n >= 2 && s > 0.0 && r * r == s / (n - 1) as real
    requires m > 0 ==> m as real * (n as real * ((3.0 * r) * (3.0 * r)) + s) < n as real * s
    ensures m * (10 * n - 1) < n * (n - 1)
  {
    var a, b := n as real, m as real;
    if m > 0 {
      SpikeBracket(a, r, s);
      Regroup(b, 10.0 * a - 1.0, r * r);
      Regroup(a, a - 1.0, r * r);
      var v := r * r;
      QuotientIsPositive(s, a - 1.0);
      CancelBelow(b * (10.0 * a - 1.0), a * (a - 1.0), v);
      RealOfProduct(m, 10 * n - 1);
      RealOfProduct(n, n - 1);
    } else {
      assert n * (n - 1) > 0;
    }
  }

  lemma SpikeBracket(a: real, r: real, s: real)
    requires a > 1.0 && r * r == s / (a - 1.0)
    ensures s == (a - 1.0) * (r * r)
    ensures a * ((3.0 * r) * (3.0 * r)) + s == (10.0 * a - 1.0) * (r * r)
  {
    TimesQuotient(s, a - 1.0);
    SquareOfProduct(3.0, r);
    assert a * (9.0 * (r * r)) == (9.0 * a) * (r * r);
  }

  lemma NatTimes(i: nat, j: nat, n: nat)
    requires i <= j
    ensures i * n <= j * n
  {}

  lemma SplitTenths(n: nat, m: nat)
    requires n >= 1
    ensures m * (10 * n - 1) == (9 * m) * n + m * (n - 1)
  {}

  lemma FewerThanANinth(n: nat, m: nat)
    requires n >= 10 && m * (10 * n - 1) < n * (n - 1)
    ensures 9 * m < n - 1
  {
    if 9 * m >= n - 1 {
      SplitTenths(n, m);
      NatTimes(n - 1, 9 * m, n);
      NatTimes(0, m, n - 1);
      assert false;
    }
  }

  lemma CancelZero(a: real, b: real)
    requires b != 0.0 && a * b == 0.0
    ensures a == 0.0
  {
    TimesZero(b);
    if b > 0.0 {
      CancelAtMost(a, 0.0, b);
      CancelAtMost(0.0, a, b);
    } else {
      assert a * -b == 0.0;
      CancelAtMost(a, 0.0, -b);
      CancelAtMost(0.0, a, -b);
    }
  }
}
