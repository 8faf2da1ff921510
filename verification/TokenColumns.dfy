/** Token columns: their statistics in Reco_GAN_Training.cpp, their averaged z-scores in
    Reco_GAN_Prediction_Module.cpp and the threshold rule of Reco_GAN_Module.cpp. */
module TokenColumns {
  import opened Sequences
  import opened RealFacts
  import opened Statistics

  // ---------------------------------------------------------------- token columns

  /** The values of one column, over the rows that are long enough to have it. */
  function Column(rows: seq<seq<real>>, col: nat): seq<real> {
    if rows == [] then []
    else Column(rows[..|rows| - 1], col) + (if col < |rows[|rows| - 1]| then [rows[|rows| - 1][col]] else [])
  }

  /** `column` lists entry `col` of the rows that have it; `at` is where these rows stand. */
  predicate IsColumn(at: seq<nat>, rows: seq<seq<real>>, col: nat, column: seq<real>) {
    && Rising(at, |rows|) && |column| == |at|
    && (forall i | 0 <= i < |rows| :: i in at <==> col < |rows[i]|)
    && forall j | 0 <= j < |at| :: col < |rows[at[j]]| && column[j] == rows[at[j]][col]
  }

  lemma {:induction false} ColumnEntries(rows: seq<seq<real>>, col: nat) returns (at: seq<nat>)
    ensures IsColumn(at, rows, col, Column(rows, col))
  {
    at := [];
    if rows != [] {
      var n := |rows| - 1;
      at := ColumnEntries(rows[..n], col);
      FrontAndLast(rows);
      OneMoreRow(at, rows[..n], col, Column(rows[..n], col), rows[n]);
      if col < |rows[n]| {
        at := at + [n];
      } else {
        assert Column(rows[..n], col) + [] == Column(rows[..n], col);
      }
    }
  }

  lemma OneMoreRow(at: seq<nat>, front: seq<seq<real>>, col: nat, column: seq<real>, row: seq<real>)
    requires IsColumn(at, front, col, column)
    ensures if col < |row| then IsColumn(at + [|front|], front + [row], col, column + [row[col]])
            else IsColumn(at, front + [row], col, column)
  {
    var rows := front + [row];
    assert forall i | 0 <= i < |front| :: rows[i] == front[i];
    assert forall i: nat :: i in at + [|front|] <==> i in at || i == |front|;
  }

  /** The average z-score of a column, 0 for a column that did not vary or has no values. */
  function ColumnScore(mean: real, stddev: real, column: seq<real>): real {
    if stddev == 0.0 || column == [] then 0.0
    else SumOfScores(mean, stddev, column) / |column| as real
  }

  function SumOfScores(mean: real, stddev: real, column: seq<real>): real
    requires stddev != 0.0
  {
    if column == [] then 0.0
    else SumOfScores(mean, stddev, column[..|column| - 1]) + ZScore(mean, stddev, column[|column| - 1])
  }

  function Least(a: nat, b: nat): nat {
    if a < b then a else b
  }

  /** One average score per column that the model and the first row have. */
  method CharTokensZScore(means: seq<real>, stddevs: seq<real>, rows: seq<seq<real>>) returns (scores: seq<real>)
    ensures rows == [] ==> scores == []
    ensures rows != [] ==> |scores| == Least(|rows[0]|, Least(|means|, |stddevs|))
    ensures rows != [] ==> |scores| <= |rows[0]| && |scores| <= |means| && |scores| <= |stddevs|
                           && (|scores| == |rows[0]| || |scores| == |means| || |scores| == |stddevs|)
    ensures rows != [] ==>
              forall c | 0 <= c < |scores| :: scores[c] == ColumnScore(means[c], stddevs[c], Column(rows, c))
  {
    if rows == [] {
      return [];
    }
    var safe := Least(|rows[0]|, Least(|means|, |stddevs|));
    scores := [];
    for col := 0 to safe
      invariant |scores| == col
      invariant forall c | 0 <= c < col :: scores[c] == ColumnScore(means[c], stddevs[c], Column(rows, c))
    {
      var score := 0.0;
      if stddevs[col] != 0.0 {
        score := AverageScore(means[col], stddevs[col], rows, col);
      }
      scores := scores + [score];
    }
  }

  /** The average over the rows that have the column. */
  method AverageScore(mean: real, stddev: real, rows: seq<seq<real>>, col: nat) returns (score: real)
    requires stddev != 0.0
    ensures score == ColumnScore(mean, stddev, Column(rows, col))
  {
    var sum, valid := 0.0, 0;
    for row := 0 to |rows|
      invariant valid == |Column(rows[..row], col)|
      invariant sum == SumOfScores(mean, stddev, Column(rows[..row], col))
    {
      TakeNext(rows, row);
      if col < |rows[row]| {
        SumOfScoresStep(mean, stddev, Column(rows[..row], col), rows[row][col]);
        sum := sum + (rows[row][col] - mean) / stddev;
        valid := valid + 1;
      } else {
        assert Column(rows[..row], col) + [] == Column(rows[..row], col);
      }
    }
    TakeAll(rows);
    score := if valid > 0 then sum / valid as real else 0.0;
  }

  lemma SumOfScoresStep(mean: real, stddev: real, column: seq<real>, x: real)
    requires stddev != 0.0
    ensures SumOfScores(mean, stddev, column + [x]) == SumOfScores(mean, stddev, column) + (x - mean) / stddev
  {
    assert (column + [x])[..|column|] == column;
  }

  const EPSILON := 0.000000000001

  /** The deviation of a column, with rounding noise below EPSILON taken for none. */
  function TokenDeviation(column: seq<real>, sqrt: real -> real): real {
    if column == [] then 0.0 else
      var raw := sqrt(SquaredDistances(column, Mean(column)) / |column| as real);
      if raw < EPSILON then 0.0 else raw
  }

  lemma {:induction false} FullColumn(rows: seq<seq<real>>, col: nat)
    requires forall row | row in rows :: |row| > col
    ensures |Column(rows, col)| == |rows|
  {
    if rows != [] {
      FullColumn(rows[..|rows| - 1], col);
    }
  }

  /** Two passes over one column. */
  method ColumnStatistics(rows: seq<seq<real>>, col: nat, sqrt: real -> real) returns (mean: real, stddev: real)
    requires rows != [] && forall row | row in rows :: |row| > col
    ensures ColumnModel(rows, col, sqrt, mean, stddev)
  {
    FullColumn(rows, col);
    var raw;
    mean, raw := MeanStddev(Column(rows, col), sqrt);
    stddev := if raw < EPSILON then 0.0 else raw;
  }

  /** The statistics of column `c`. */
  ghost predicate ColumnModel(rows: seq<seq<real>>, c: nat, sqrt: real -> real, mean: real, stddev: real) {
    var column := Column(rows, c);
    column != [] && mean == Mean(column) && stddev == TokenDeviation(column, sqrt)
  }

  ghost predicate Models(rows: seq<seq<real>>, sqrt: real -> real, means: seq<real>, stddevs: seq<real>) {
    |means| == |stddevs| && forall c | 0 <= c < |means| :: ColumnModel(rows, c, sqrt, means[c], stddevs[c])
  }

  lemma ModelsOneMore(
      rows: seq<seq<real>>, sqrt: real -> real, means: seq<real>, stddevs: seq<real>, mean: real, stddev: real)
    requires Models(rows, sqrt, means, stddevs) && ColumnModel(rows, |means|, sqrt, mean, stddev)
    ensures Models(rows, sqrt, means + [mean], stddevs + [stddev])
  {}

  /** Mean and deviation per column of the first row, which every row must have. */
  method MeanStddevTokens(rows: seq<seq<real>>, sqrt: real -> real) returns (means: seq<real>, stddevs: seq<real>)
    requires forall row | row in rows :: |row| >= |rows[0]|
    ensures |means| == |stddevs| == if rows == [] then 0 else |rows[0]|
    ensures Models(rows, sqrt, means, stddevs)
  {
    means, stddevs := [], [];
    if rows == [] {
      return;
    }
    for col := 0 to |rows[0]|
      invariant |means| == |stddevs| == col && Models(rows, sqrt, means, stddevs)
    {
      var mean, stddev := ColumnStatistics(rows, col, sqrt);
      ModelsOneMore(rows, sqrt, means, stddevs, mean, stddev);
      means, stddevs := means + [mean], stddevs + [stddev];
    }
  }

  lemma {:induction false} ScoresAreCentred(mean: real, stddev: real, column: seq<real>)
    requires stddev != 0.0
    ensures stddev * SumOfScores(mean, stddev, column) == Sum(column) - |column| as real * mean
  {
    if column != [] {
      var front, x := column[..|column| - 1], column[|column| - 1];
      ScoresAreCentred(mean, stddev, front);
      TimesQuotient(x - mean, stddev);
      Distribute(stddev, SumOfScores(mean, stddev, front), (x - mean) / stddev);
      AddOne(|front| as real, mean);
    }
  }

  /** On any data the averaged score is the z-score of the column's own mean. */
  lemma ScoreOfColumn(mean: real, stddev: real, column: seq<real>)
    ensures column != [] && stddev != 0.0 ==> ColumnScore(mean, stddev, column) == (Mean(column) - mean) / stddev
    ensures column == [] || stddev == 0.0 ==> ColumnScore(mean, stddev, column) == 0.0
  {
    if column != [] && stddev != 0.0 {
      ScoresAreCentred(mean, stddev, column);
      AverageOfScores(|column| as real, Sum(column), mean, stddev, SumOfScores(mean, stddev, column));
    }
  }

  /** On any data the deviation is the root of the mean squared distance from the mean, and 0
      exactly when that root is below 10 to the power -12. */
  lemma DeviationOfColumn(column: seq<real>, sqrt: real -> real)
    requires IsSqrt(sqrt) && column != []
    ensures var d, n, s := TokenDeviation(column, sqrt), |column| as real, SquaredDistances(column, Mean(column));
            && (d == 0.0 <==> s / n < 0.000000000001 * 0.000000000001)
            && (d != 0.0 ==> d >= 0.000000000001 && d * d == s / n)
  {
    var v := SquaredDistances(column, Mean(column)) / |column| as real;
    DistancesNotNegative(column, Mean(column));
    QuotientSign(SquaredDistances(column, Mean(column)), |column| as real);
    var raw := sqrt(v);
    if raw < 0.000000000001 {
      RootBelow(raw, 0.000000000001, v);
    } else if v < 0.000000000001 * 0.000000000001 {
      SquareBelow(raw, 0.000000000001, v);
    }
  }

  /** Against its own mean every column of the training data scores exactly 0, so the averaged
      z-score rule never flags the data it was trained on. */
  lemma OwnColumnScoresZero(column: seq<real>, stddev: real, k: real)
    requires column != [] && k >= 0.0
    ensures ColumnScore(Mean(column), stddev, column) == 0.0
    ensures !(Abs(ColumnScore(Mean(column), stddev, column)) > k)
  {
    if stddev != 0.0 {
      ScoresAreCentred(Mean(column), stddev, column);
      TimesQuotient(Sum(column), |column| as real);
      CancelZero(SumOfScores(Mean(column), stddev, column), stddev);
    }
  }

  /** Training on token rows and scoring the same rows: all scores are 0. */
  method ScoreOwnTokens(rows: seq<seq<real>>, sqrt: real -> real) returns (scores: seq<real>)
    requires forall row | row in rows :: |row| >= |rows[0]|
    ensures |scores| == if rows == [] then 0 else |rows[0]|
    ensures forall c | 0 <= c < |scores| :: scores[c] == 0.0
  {
    var means, stddevs := MeanStddevTokens(rows, sqrt);
    scores := CharTokensZScore(means, stddevs, rows);
    forall c | 0 <= c < |scores|
      ensures scores[c] == 0.0
    {
      assert ColumnModel(rows, c, sqrt, means[c], stddevs[c]);
      OwnColumnScoresZero(Column(rows, c), stddevs[c], 0.0);
    }
  }

  // ---------------------------------------------------------------- token thresholds

  /** `TokensCalc`: one threshold per column. */
  method TokenThresholds(means: seq<real>, stddevs: seq<real>, k: real) returns (thresholds: seq<real>)
    requires |means| <= |stddevs|
    ensures |thresholds| == |means|
    ensures forall c | 0 <= c < |means| :: thresholds[c] == means[c] + k * stddevs[c]
  {
    thresholds := [];
    for col := 0 to |means|
      invariant |thresholds| == col
      invariant forall c | 0 <= c < col :: thresholds[c] == means[c] + k * stddevs[c]
    {
      thresholds := thresholds + [means[col] + k * stddevs[col]];
    }
  }

  /** Some column that both have lies above its threshold. */
  predicate RowExceeds(row: seq<real>, thresholds: seq<real>) {
    exists c :: 0 <= c < |row| && c < |thresholds| && row[c] > thresholds[c]
  }

  method RowFlag(row: seq<real>, thresholds: seq<real>) returns (flag: bool)
    ensures flag <==> RowExceeds(row, thresholds)
  {
    flag := false;
    var col := 0;
    while col < |row| && col < |thresholds| && !flag
      invariant 0 <= col <= |row| && (flag ==> RowExceeds(row, thresholds))
      invariant !flag ==> col <= |thresholds| && forall c | 0 <= c < col :: row[c] <= thresholds[c]
      decreases |row| - col, !flag
    {
      if row[col] > thresholds[col] {
        flag := true;
      } else {
        col := col + 1;
      }
    }
  }

  /** The threshold rule for token rows: a row is flagged as soon as one column exceeds. */
  method PredictTokens(thresholds: seq<real>, rows: seq<seq<real>>) returns (flags: seq<bool>)
    ensures |flags| == |rows|
    ensures forall i | 0 <= i < |rows| ::
              flags[i] <==> exists c :: 0 <= c < |rows[i]| && c < |thresholds| && rows[i][c] > thresholds[c]
  {
    flags := [];
    for j := 0 to |rows|
      invariant |flags| == j
      invariant forall i | 0 <= i < j :: flags[i] <==> RowExceeds(rows[i], thresholds)
    {
      var flag := RowFlag(rows[j], thresholds);
      flags := flags + [flag];
    }
  }
}
