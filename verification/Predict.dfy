/** `Reco_GAN_V2_Predict` of Predict.cpp: loading a forest file and scoring latencies, and the
    way from a trained data set through the file to the scores. */
module Predict {
  import opened Wrappers
  import opened Sequences
  import opened Decimal
  import opened IsolationTree
  import opened ForestFile
  import opened Training

  /** The one file that training writes and prediction opens. */
  class DataFile {
    var present: bool
    var text: string

    constructor ()
      ensures !present
    {
      present, text := false, "";
    }
  }

  lemma PrintAppends(forest: seq<seq<Node>>, nodes: seq<Node>)
    ensures PrintForest(forest + [nodes]) == PrintForest(forest) + PrintTree(nodes)
  {
    if forest == [] {
      assert forest + [nodes] == [nodes];
      assert PrintForest([nodes]) == PrintTree(nodes) + PrintForest([]);
    } else {
      assert (forest + [nodes])[1..] == forest[1..] + [nodes];
      PrintAppends(forest[1..], nodes);
      Associate(PrintTree(forest[0]), PrintForest(forest[1..]), PrintTree(nodes));
    }
  }

  /** Appends one tree: its header line, a line per node, its closing line. */
  method WriteTree(nodes: seq<Node>, file: DataFile)
    modifies file
    ensures file.present == old(file.present) && file.text == old(file.text) + PrintTree(nodes)
  {
    ghost var before := file.text;
    file.text := file.text + (TREE_START + (" " + Field(|nodes|, '\n', "")));
    for i := 0 to |nodes|
      invariant file.present == old(file.present)
      invariant file.text == before + (TREE_START + (" " + Field(|nodes|, '\n', PrintNodes(nodes[..i]))))
    {
      TakeNext(nodes, i);
      HeadThen(nodes, before, PrintNodes(nodes[..i]), PrintNode(nodes[i]));
      file.text := file.text + PrintNode(nodes[i]);
    }
    TakeAll(nodes);
    HeadThen(nodes, before, PrintNodes(nodes), TREE_END + "\n");
    file.text := file.text + (TREE_END + "\n");
  }

  /** Replaces the file by the printed forest; an empty forest leaves the file as it is. */
  method WriteTreeTrainingData(forest: seq<seq<Node>>, file: DataFile)
    modifies file
    ensures forest == [] ==> file.present == old(file.present) && file.text == old(file.text)
    ensures forest != [] ==> file.present && file.text == PrintForest(forest)
  {
    if forest == [] {
      return;
    }
    file.present, file.text := true, "";
    for t := 0 to |forest|
      invariant file.present && file.text == PrintForest(forest[..t])
    {
      WriteTree(forest[t], file);
      TakeNext(forest, t);
      PrintAppends(forest[..t], forest[t]);
    }
    TakeAll(forest);
  }

  lemma HeadThen(nodes: seq<Node>, before: string, body: string, more: string)
    ensures before + (TREE_START + (" " + Field(|nodes|, '\n', body))) + more ==
            before + (TREE_START + (" " + Field(|nodes|, '\n', body + more)))
  {
    var f := Field(|nodes|, '\n', body);
    Associate(before, TREE_START + (" " + f), more);
    Associate(TREE_START, " " + f, more);
    Associate(" ", f, more);
    FieldThen(|nodes|, '\n', body, more);
  }

  // ---------------------------------------------------------------- scores

  /** The path lengths of `x` in all trees, summed; `None` when some walk never ends. */
  function ForestPath(c: int -> real, forest: seq<seq<Node>>, x: real): Option<real> {
    if forest == [] then Some(0.0)
    else
      var front, last := forest[..|forest| - 1], forest[|forest| - 1];
      match (ForestPath(c, front, x), PathLength(c, last, 0, x, 0.0, |last| + 1))
      case (Some(a), Some(p)) => Some(a + p)
      case _ => None
  }

  /** The anomaly score of `x`: 0 for an empty forest, else two to the power of minus the
      mean path over the factor. `None` stands for a walk that never ends or a division by zero. */
  function ScoreOf(c: int -> real, pow2: real -> real, factor: real, forest: seq<seq<Node>>, x: real): Option<real> {
    if forest == [] then Some(0.0)
    else match ForestPath(c, forest, x)
      case Some(total) =>
        if factor == 0.0 then None else Some(pow2(-((total / |forest| as real) / factor)))
      case None => None
  }

  /** A latency whose path is nowhere longer never scores lower: the ranking that the score is
      for, whatever increasing function `pow2` is. */
  lemma ShorterPathsScoreHigher(
      c: int -> real, pow2: real -> real, factor: real, forest: seq<seq<Node>>, x: real, y: real)
    requires factor > 0.0 && forall a, b :: a <= b ==> pow2(a) <= pow2(b)
    requires forall nodes | nodes in forest ::
               var p, q := PathLength(c, nodes, 0, x, 0.0, |nodes| + 1), PathLength(c, nodes, 0, y, 0.0, |nodes| + 1);
               p.Some? && q.Some? && p.value <= q.value
    ensures var p, q := ScoreOf(c, pow2, factor, forest, x), ScoreOf(c, pow2, factor, forest, y);
            p.Some? && q.Some? && q.value <= p.value
  {
    ForestPathMonotone(c, forest, x, y);
    if forest != [] {
      var a, b := ForestPath(c, forest, x).value, ForestPath(c, forest, y).value;
      var n := |forest| as real;
      assert a / n <= b / n;
      DivideMonotone(a / n, b / n, factor);
      assert -((b / n) / factor) <= -((a / n) / factor);
    }
  }

  lemma DivideMonotone(a: real, b: real, d: real)
    requires a <= b && d > 0.0
    ensures a / d <= b / d
  {}

  lemma {:induction false} ForestPathMonotone(c: int -> real, forest: seq<seq<Node>>, x: real, y: real)
    requires forall nodes | nodes in forest ::
               var p, q := PathLength(c, nodes, 0, x, 0.0, |nodes| + 1), PathLength(c, nodes, 0, y, 0.0, |nodes| + 1);
               p.Some? && q.Some? && p.value <= q.value
    ensures var p, q := ForestPath(c, forest, x), ForestPath(c, forest, y);
            p.Some? && q.Some? && p.value <= q.value
    decreases forest
  {
    if forest != [] {
      var last := forest[|forest| - 1];
      assert last in forest;
      ForestPathMonotone(c, forest[..|forest| - 1], x, y);
    }
  }

  /** What one tree contributes: the edges walked, and at a leaf the correction for its size. */
  function WalkLength(c: int -> real, nodes: seq<Node>, w: WalkEnd): real {
    match w
    case AtLeaf(k, e) => if k < |nodes| then e as real + c(nodes[k].size) else 0.0
    case OutOfRange(e) => e as real
    case OutOfFuel => 0.0
  }

  function WalkSum(c: int -> real, forest: seq<seq<Node>>, x: real): real {
    if forest == [] then 0.0
    else
      var last := forest[|forest| - 1];
      WalkSum(c, forest[..|forest| - 1], x) + WalkLength(c, last, Walk(last, 0, x, |last| + 1))
  }

  lemma {:induction false} ForestPathIsWalkSum(c: int -> real, forest: seq<seq<Node>>, x: real)
    requires ForestPath(c, forest, x).Some?
    ensures ForestPath(c, forest, x) == Some(WalkSum(c, forest, x))
    decreases forest
  {
    if forest != [] {
      var last := forest[|forest| - 1];
      ForestPathIsWalkSum(c, forest[..|forest| - 1], x);
      PathLengthOfWalk(c, last, 0, x, 0.0, |last| + 1);
    }
  }

  ghost predicate IsExponent(e: real, c: int -> real, factor: real, forest: seq<seq<Node>>, x: real) {
    e * factor * |forest| as real == -WalkSum(c, forest, x)
  }

  /** The exponent of a score, times factor and number of trees, is minus the summed lengths of the
      walks. */
  lemma ScoreExponent(c: int -> real, pow2: real -> real, factor: real, forest: seq<seq<Node>>, x: real)
      returns (e: real)
    requires forest != [] && ScoreOf(c, pow2, factor, forest, x).Some?
    ensures ScoreOf(c, pow2, factor, forest, x) == Some(pow2(e))
    ensures IsExponent(e, c, factor, forest, x)
  {
    ForestPathIsWalkSum(c, forest, x);
    var total, n := WalkSum(c, forest, x), |forest| as real;
    e := -((total / n) / factor);
    QuotientOfQuotient(total, n, factor);
  }

  lemma QuotientOfQuotient(a: real, b: real, d: real)
    requires b != 0.0 && d != 0.0
    ensures -((a / b) / d) * d * b == -a
  {
    var q := a / b;
    assert q * b == a;
    var r := q / d;
    assert r * d == q;
    assert -r * d == -(r * d);
    assert -q * b == -(q * b);
  }

  lemma {:induction false} EqualPathsAdd(c: int -> real, forest: seq<seq<Node>>, x: real, p: real)
    requires forall nodes | nodes in forest :: PathLength(c, nodes, 0, x, 0.0, |nodes| + 1) == Some(p)
    ensures ForestPath(c, forest, x) == Some(|forest| as real * p)
    decreases forest
  {
    if forest != [] {
      var last := forest[|forest| - 1];
      assert last in forest;
      EqualPathsAdd(c, forest[..|forest| - 1], x, p);
      OneMoreTimes((|forest| - 1) as real, p);
    }
  }

  lemma OneMoreTimes(n: real, p: real)
    ensures n * p + p == (n + 1.0) * p
  {}

  lemma MeanOfEqual(total: real, n: real, p: real, mean: real)
    requires n != 0.0 && total == n * p && mean == total / n
    ensures mean == p
  {
    assert mean * n == total;
    assert (mean - p) * n == 0.0;
  }

  /** Where every tree gives the same path length, that is the mean, whatever the number of trees. */
  lemma EqualPathsScore(
      c: int -> real, pow2: real -> real, factor: real, forest: seq<seq<Node>>, x: real, p: real)
    requires forest != [] && factor != 0.0
    requires forall nodes | nodes in forest :: PathLength(c, nodes, 0, x, 0.0, |nodes| + 1) == Some(p)
    ensures ScoreOf(c, pow2, factor, forest, x) == Some(pow2(-(p / factor)))
  {
    EqualPathsAdd(c, forest, x, p);
    var total := ForestPath(c, forest, x).value;
    var mean := total / |forest| as real;
    MeanOfEqual(total, |forest| as real, p, mean);
  }

  /** Two trees with a path of one edge each: the mean is one edge, not two. */
  lemma TwoTreesScore(c: int -> real, pow2: real -> real, x: real)
    requires c(1) == 0.0 && pow2(-1.0) == 0.5
    ensures var tree := Layout(Split(5.0, Leaf(1), Leaf(1)), 0);
            ScoreOf(c, pow2, 1.0, [tree, tree], x) == Some(0.5)
  {
    var t := Split(5.0, Leaf(1), Leaf(1));
    var tree := Layout(t, 0);
    assert tree[0..Count(t)] == tree;
    WalkRefinesTree(tree, t, 0, x, 4);
    PathLengthOfWalk(c, tree, 0, x, 0.0, 4);
    EqualPathsScore(c, pow2, 1.0, [tree, tree], x, 1.0);
  }

  // ---------------------------------------------------------------- loading

  /** What is read in all when `forest` has been read and `r` is what follows. */
  function AfterTrees(forest: seq<seq<Node>>, r: Reading): Reading {
    r.(trees := forest + r.trees)
  }

  lemma AfterTreesAppends(forest: seq<seq<Node>>, t: seq<Node>, r: Reading)
    ensures AfterTrees(forest + [t], r) == AfterTrees(forest, Prepend(t, r))
  {
    assert forest + [t] + r.trees == forest + ([t] + r.trees);
  }

  lemma AfterNothing(r: Reading)
    ensures AfterTrees([], r) == r
  {
    assert [] + r.trees == r.trees;
  }

  /** What the forest of the predictor may be: the trees of a file that can be read whole.
      Otherwise, behind the trees before the failure, a tree of the announced number of nodes; it
      starts with those that were read, and behind the one that was not, no link or size was ever
      set. A count that is no number leaves an empty tree. */
  ghost predicate Loaded(r: Reading, forest: seq<seq<Node>>) {
    match r
    case Whole(trees) => forest == trees
    case CutInNode(trees, nodes, count) =>
      && |forest| == |trees| + 1 && forest[..|trees|] == trees
      && PaddedTree(forest[|trees|], nodes, count)
    case CutInCount(trees) => forest == trees + [[]]
    case Aborted(trees) => trees <= forest
  }

  predicate PaddedTree(tree: seq<Node>, nodes: seq<Node>, count: nat) {
    && |tree| == count && nodes <= tree
    && forall i | |nodes| < i < count :: tree[i].left == tree[i].right == tree[i].size == 0
  }

  lemma {:induction false} FailureStays(text: string, i: nat, count: nat)
    requires i <= count && ReadNodes(text, i).None?
    ensures ReadNodes(text, count).None?
    decreases count
  {
    if i < count {
      FailureStays(text, i, count - 1);
    }
  }

  lemma {:induction false} GoodUpTo(text: string, i: nat, count: nat, nodes: seq<Node>, rest: string)
    requires i < count && ReadNodes(text, i) == Some((nodes, rest)) && ReadNodes(text, i + 1).None?
    ensures GoodNodes(text, count) == nodes
    decreases count
  {
    FailureStays(text, i + 1, count);
    if i + 1 < count {
      GoodUpTo(text, i, count - 1, nodes, rest);
    }
  }

  lemma StopsAt(text: string, i: nat, count: nat, nodes: seq<Node>, rest: string)
    requires i < count && ReadNodes(text, i) == Some((nodes, rest)) && ReadNode(rest).None?
    ensures ReadNodes(text, count).None? && GoodNodes(text, count) == nodes
  {
    ReadNodesStops(text, i + 1, nodes, rest);
    FailureStays(text, i + 1, count);
    GoodUpTo(text, i, count, nodes, rest);
  }

  /** Reads `count` nodes one by one. From the first that cannot be read the stream stays failed:
      that node holds anything, and the links and sizes of those behind it are never set. */
  method LoadNodes(text: string, count: nat) returns (good: bool, nodes: seq<Node>, rest: string)
    ensures good == ReadNodes(text, count).Some?
    ensures good ==> ReadNodes(text, count) == Some((nodes, rest))
    ensures !good ==> PaddedTree(nodes, GoodNodes(text, count), count)
  {
    nodes, rest, good := [], text, true;
    for i := 0 to count
      invariant ReadNodes(text, i) == Some((nodes, rest)) && |nodes| == i
    {
      match ReadNode(rest)
      case Some((node, after)) =>
        ReadNodesStep(text, i + 1, nodes, rest, node, after);
        nodes, rest := nodes + [node], after;
      case None =>
        StopsAt(text, i, count, nodes, rest);
        nodes := PadNodes(nodes, count);
        return false, nodes, rest;
    }
  }

  method PadNodes(good: seq<Node>, count: nat) returns (nodes: seq<Node>)
    requires |good| < count
    ensures PaddedTree(nodes, good, count)
  {
    var cut: Node := *;
    nodes := good + [cut];
    while |nodes| < count
      invariant |good| < |nodes| <= count && good <= nodes
      invariant forall i | |good| < i < |nodes| :: nodes[i].left == nodes[i].right == nodes[i].size == 0
    {
      var isLeaf: bool := *;
      var split: int := *;
      nodes := nodes + [Node(0, 0, 0, isLeaf, split)];
    }
  }

  /** Reads one tree. An announced count that is no number leaves an empty tree. */
  method LoadTree(text: string) returns (good: bool, nodes: seq<Node>, rest: string)
    ensures good == ReadTree(text).Tree?
    ensures good ==> ReadTree(text) == Tree(nodes, rest)
    ensures ReadTree(text).Uncounted? ==> nodes == []
    ensures ReadTree(text).Broken? ==> PaddedTree(nodes, ReadTree(text).nodes, ReadTree(text).count)
  {
    match ReadInt(text, 0, SIZE_MAX)
    case None =>
      return false, [], text;
    case Some((count, body)) =>
      good, nodes, rest := LoadNodes(body, count);
      if good {
        match ReadWord(rest)
        case None => rest := "";
        case Some((_, after)) => rest := after;
      }
  }

  class Predictor {
    var forest: seq<seq<Node>>
    const correction: int -> real
    const pow2: real -> real
    const factor: real

    constructor (correction: int -> real, pow2: real -> real, subsampleSize: int)
      ensures forest == [] && this.correction == correction && this.pow2 == pow2
      ensures factor == correction(subsampleSize)
    {
      forest := [];
      this.correction := correction;
      this.pow2 := pow2;
      factor := correction(subsampleSize);
    }

    /** Reads all trees of the file, up to the first number that cannot be read. */
    method LoadModel(file: DataFile) returns (loaded: bool)
      modifies this
      ensures !file.present ==> forest == [] && !loaded
      ensures file.present ==> Loaded(ReadForest(file.text), forest) && loaded == (forest != [])
    {
      forest := [];
      if !file.present {
        return false;
      }
      var rest := file.text;
      AfterNothing(ReadForest(rest));
      while ReadWord(rest).Some?
        invariant AfterTrees(forest, ReadForest(rest)) == ReadForest(file.text)
        decreases |rest|
      {
        var (tag, behind) := ReadWord(rest).value;
        if tag == TREE_START {
          var good, tree, after := LoadTree(behind);
          if !good {
            assert forest + [] == forest && (forest + [tree])[..|forest|] == forest;
            forest := forest + [tree];
            return true;
          }
          AfterTreesAppends(forest, tree, ReadForest(after));
          forest := forest + [tree];
          rest := after;
        } else {
          rest := behind;
        }
      }
      assert forest + [] == forest;
      loaded := forest != [];
    }

    /** The score of one latency, as an average over the loaded trees. */
    method Score(x: real) returns (score: Option<real>)
      ensures score == ScoreOf(correction, pow2, factor, forest, x)
      ensures forest == [] ==> score == Some(0.0)
      ensures forest != [] && score.Some? ==>
                exists e :: score == Some(pow2(e)) && IsExponent(e, correction, factor, forest, x)
    {
      if forest == [] {
        return Some(0.0);
      }
      var total := Some(0.0);
      for i := 0 to |forest|
        invariant total == ForestPath(correction, forest[..i], x)
      {
        assert forest[..i + 1][..i] == forest[..i];
        var p := PathLength(correction, forest[i], 0, x, 0.0, |forest[i]| + 1);
        total := if total.Some? && p.Some? then Some(total.value + p.value) else None;
      }
      TakeAll(forest);
      if total.None? || factor == 0.0 {
        return None;
      }
      var mean := total.value / |forest| as real;
      score := Some(pow2(-(mean / factor)));
      ghost var e := ScoreExponent(correction, pow2, factor, forest, x);
    }

    /** One score per latency, in order. */
    method ScoreList(latencies: seq<real>) returns (scores: seq<Option<real>>)
      ensures |scores| == |latencies|
      ensures forall i | 0 <= i < |latencies| ::
                scores[i] == ScoreOf(correction, pow2, factor, forest, latencies[i])
    {
      scores := [];
      for k := 0 to |latencies|
        invariant |scores| == k
        invariant forall i | 0 <= i < k :: scores[i] == ScoreOf(correction, pow2, factor, forest, latencies[i])
      {
        var s := Score(latencies[k]);
        scores := scores + [s];
      }
    }
  }

  /** Training, writing, loading and scoring in one go: every tree in the predictor is a trained
      one, and each score is that of the trained forest, whenever all its numbers fit an `int`. They
      do when the samples fit and either the sub-samples or the data are not too large. */
  method TrainThenPredict(
      latency: array<real>, sSample: int, nTrees: int, file: DataFile, predictor: Predictor, live: seq<real>)
      returns (ghost forest: seq<seq<Node>>, scores: seq<Option<real>>)
    requires sSample <= INT_MAX
    modifies latency, file, predictor
    ensures multiset(latency[..]) == multiset(old(latency[..]))
    ensures |forest| == if latency.Length == 0 || nTrees < 0 then 0 else nTrees
    ensures SamplesFit(old(latency[..])) && IndicesFit(if sSample < 2 then 2 else sSample, latency.Length) ==>
              ForestFits(forest)
    ensures |scores| == |live|
    ensures forest != [] && ForestFits(forest) ==> predictor.forest == forest
    ensures forest != [] && ForestFits(forest) ==> forall i | 0 <= i < |live| ::
              scores[i] == ScoreOf(predictor.correction, predictor.pow2, predictor.factor, forest, live[i])
    ensures forest != [] && ForestFits(forest) && predictor.factor != 0.0 ==>
              forall i | 0 <= i < |live| :: scores[i].Some?
  {
    var trainer := new TrainingModule(sSample, nTrees);
    ghost var data := multiset(latency[..]);
    var length := if trainer.subsampleSize < latency.Length then trainer.subsampleSize else latency.Length;
    ghost var fit := SamplesFit(latency[..]) && IndicesFit(trainer.subsampleSize, latency.Length);
    assert forall x | x in data :: x in latency[..];
    var trained := trainer.Train(latency);
    forest := trained;
    if fit {
      TrainedForestFits(trained, data, length, trainer.subsampleSize);
    }
    WriteTreeTrainingData(trained, file);
    ghost var size := trainer.subsampleSize;
    var _ := predictor.LoadModel(file);
    scores := predictor.ScoreList(live);
    if forest != [] && ForestFits(forest) {
      ForestRoundTrip(forest);
      if predictor.factor != 0.0 {
        TrainedForestScores(predictor.correction, predictor.pow2, predictor.factor, forest, data, length, size);
      }
    }
  }

  lemma TrainedForestFits(forest: seq<seq<Node>>, data: multiset<real>, length: nat, s: nat)
    requires 2 <= s <= INT_MAX && IndicesFit(s, length) && length <= s
    requires forall x | x in data :: INT_MIN as real <= x <= INT_MAX as real
    requires forall nodes | nodes in forest :: TrainedTree(nodes, data, length, CeilLog2(s))
    ensures ForestFits(forest)
  {
    forall nodes | nodes in forest
      ensures |nodes| <= SIZE_MAX && forall n | n in nodes :: Fits(n)
    {
      TrainedTreeFits(nodes, data, length, s);
    }
  }

  lemma TrainedForestScores(
      c: int -> real, pow2: real -> real, factor: real, forest: seq<seq<Node>>, data: multiset<real>,
      length: nat, s: nat)
    requires s >= 2 && factor != 0.0
    requires forall nodes | nodes in forest :: TrainedTree(nodes, data, length, CeilLog2(s))
    ensures forall x :: ScoreOf(c, pow2, factor, forest, x).Some?
  {
    forall x
      ensures ScoreOf(c, pow2, factor, forest, x).Some?
    {
      TrainedForestHasPaths(c, forest, data, length, s, x);
    }
  }

  /** In a trained forest no walk runs forever: every latency has a path length. */
  lemma {:induction false} TrainedForestHasPaths(
      c: int -> real, forest: seq<seq<Node>>, data: multiset<real>, length: nat, s: nat, x: real)
    requires s >= 2 && forall nodes | nodes in forest :: TrainedTree(nodes, data, length, CeilLog2(s))
    ensures ForestPath(c, forest, x).Some?
    decreases forest
  {
    if forest != [] {
      var last := forest[|forest| - 1];
      assert last in forest;
      TrainedForestHasPaths(c, forest[..|forest| - 1], data, length, s, x);
      TrainedTreeIsWalkable(last, data, length, s, x);
      ForwardWalkEnds(last, 0, x, |last| + 1);
      PathLengthOfWalk(c, last, 0, x, 0.0, |last| + 1);
    }
  }
}
