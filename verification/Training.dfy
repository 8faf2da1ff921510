/** `TrainingModule` of Training.cpp: growing trees into a shared flat vector, and training a
    forest on shuffled sub-samples of the data set. */
module Training {
  import opened Decimal
  import opened IsolationTree
  import opened ForestFile

  /** The least k with 2^k >= n: the logarithm to base 2, rounded up. */
  function CeilLog2(n: nat): nat {
    if n <= 1 then 0 else 1 + CeilLog2((n + 1) / 2)
  }

  lemma {:induction false} CeilLog2IsLeast(n: nat)
    requires n >= 2
    ensures Pow2(CeilLog2(n)) >= n
    ensures CeilLog2(n) >= 1 && Pow2(CeilLog2(n) - 1) < n
  {
    if n > 2 {
      CeilLog2IsLeast((n + 1) / 2);
    }
  }

  /** A tree grown within the depth limit of `s` samples holds every sample of its bucket, and
      none of its leaves is deeper than the limit. */
  lemma GrownWithinLimit(t: CutTree, b: seq<real>, s: nat)
    requires Grown(t, b, 0, CeilLog2(s))
    ensures Weight(t) == |b| && Height(t) <= CeilLog2(s)
  {
    GrownWeight(t, b, 0, CeilLog2(s));
    GrownHeight(t, b, 0, CeilLog2(s));
  }

  lemma TwoMoreLevels(k: nat)
    ensures Pow2(k + 1) == 2 * Pow2(k) && Pow2(k + 2) == 4 * Pow2(k)
  {
    DoublePow2(k);
    DoublePow2(k + 1);
  }

  /** A tree within that limit has 2k - 1 nodes for its k leaves, fewer than 4s. */
  lemma TreeSize(t: CutTree, s: nat)
    requires s >= 2 && Height(t) <= CeilLog2(s)
    ensures Count(t) == 2 * Leaves(t) - 1
    ensures Count(t) <= Pow2(CeilLog2(s) + 1) - 1 < 4 * s
  {
    var k := CeilLog2(s);
    CeilLog2IsLeast(s);
    CountByLeaves(t);
    Pow2Monotone(Height(t), k);
    TwoMoreLevels(k - 1);
  }

  lemma {:induction false} CeilLog2AtMost(n: nat, k: nat)
    requires n <= Pow2(k)
    ensures CeilLog2(n) <= k
  {
    if n > 1 {
      CeilLog2AtMost((n + 1) / 2, k - 1);
    }
  }

  /** `n` taken `levels` times. */
  function LevelSum(levels: nat, n: nat): nat {
    if levels == 0 then 0 else n + LevelSum(levels - 1, n)
  }

  lemma {:induction false} LevelSumAdds(levels: nat, m: nat, n: nat)
    ensures LevelSum(levels, m + n) == LevelSum(levels, m) + LevelSum(levels, n)
  {
    if levels > 0 {
      LevelSumAdds(levels - 1, m, n);
    }
  }

  lemma {:induction false} LevelSumIsProduct(levels: nat, n: nat)
    ensures LevelSum(levels, n) == levels * n
  {
    if levels > 0 {
      LevelSumIsProduct(levels - 1, n);
      assert levels * n == (levels - 1) * n + n;
    }
  }

  /** What a split node and its bucket are made of. */
  lemma GrownSplit(t: CutTree, b: seq<real>, depth: int, maxDepth: int)
    requires Grown(t, b, depth, maxDepth) && t.Split?
    ensures depth < maxDepth && |b| >= 2 && |Below(b, t.cut)| + |AtLeast(b, t.cut)| == |b|
    ensures Grown(t.low, Below(b, t.cut), depth + 1, maxDepth)
    ensures Grown(t.high, AtLeast(b, t.cut), depth + 1, maxDepth)
  {
    PartitionSizes(b, t.cut);
  }

  lemma {:induction false} CountByLevels(t: CutTree, b: seq<real>, depth: int, maxDepth: int, levels: nat)
    requires Grown(t, b, depth, maxDepth) && levels == maxDepth - depth
    ensures Count(t) <= 1 + LevelSum(levels, |b|)
    decreases t
  {
    if t.Split? {
      GrownSplit(t, b, depth, maxDepth);
      var low, high := |Below(b, t.cut)|, |AtLeast(b, t.cut)|;
      CountByLevels(t.low, Below(b, t.cut), depth + 1, maxDepth, levels - 1);
      CountByLevels(t.high, AtLeast(b, t.cut), depth + 1, maxDepth, levels - 1);
      LevelSumAdds(levels - 1, low, high);
      assert LevelSum(levels, |b|) == |b| + LevelSum(levels - 1, low + high);
    }
  }

  /** Every internal node holds two samples at least, so no level has more than half as many of
      them as there are samples. */
  lemma CountByDepth(t: CutTree, b: seq<real>, depth: int, maxDepth: int)
    requires Grown(t, b, depth, maxDepth) && depth <= maxDepth
    ensures Count(t) <= 1 + (maxDepth - depth) * |b|
  {
    CountByLevels(t, b, depth, maxDepth, maxDepth - depth);
    LevelSumIsProduct(maxDepth - depth, |b|);
  }

  lemma DoublePow2(n: nat)
    ensures Pow2(n + 1) == 2 * Pow2(n)
  {}

  // ---------------------------------------------------------------- numbers that fit an int

  /** Every sample can be converted to `int`; the conversion of any other cut is undefined. */
  predicate SamplesFit(b: seq<real>) {
    forall x | x in b :: INT_MIN as real <= x <= INT_MAX as real
  }

  lemma {:induction false} GrownTreeFits(t: CutTree, base: nat, b: seq<real>, depth: int, maxDepth: int, n: Node)
    requires Grown(t, b, depth, maxDepth) && SamplesFit(b)
    requires base + Count(t) <= INT_MAX && |b| <= INT_MAX
    requires n in Layout(t, base)
    ensures Fits(n)
    decreases t
  {
    if t.Split? {
      var mid := base + 1 + Count(t.low);
      forall x
        ensures x in Below(b, t.cut) ==> x in b
        ensures x in AtLeast(b, t.cut) ==> x in b
      {
        PartitionSides(b, t.cut, x);
      }
      PartitionSizes(b, t.cut);
      if n in Layout(t.low, base + 1) {
        GrownTreeFits(t.low, base + 1, Below(b, t.cut), depth + 1, maxDepth, n);
      } else if n in Layout(t.high, mid) {
        GrownTreeFits(t.high, mid, AtLeast(b, t.cut), depth + 1, maxDepth, n);
      }
    }
  }

  // ---------------------------------------------------------------- growing one tree

  /** The vector that all recursive calls of `buildTreeRecursive` append to. */
  class NodeVector {
    var nodes: seq<Node>

    constructor ()
      ensures nodes == []
    {
      nodes := [];
    }
  }

  /** Any value in [lo, hi), as a uniform distribution over that range may draw. */
  method DrawCut(lo: real, hi: real) returns (cut: real)
    requires lo < hi
    ensures lo <= cut < hi
  {
    cut := *;
    if !(lo <= cut < hi) {
      cut := lo;
    }
  }

  /** Fills the two child buckets, each in the order of the parent bucket. */
  method Partition(bucket: seq<real>, cut: real) returns (low: seq<real>, high: seq<real>)
    ensures low == Below(bucket, cut) && high == AtLeast(bucket, cut)
    ensures multiset(low) + multiset(high) == multiset(bucket)
  {
    low, high := [], [];
    for i := 0 to |bucket|
      invariant low == Below(bucket[..i], cut) && high == AtLeast(bucket[..i], cut)
    {
      assert bucket[..i + 1] == bucket[..i] + [bucket[i]];
      BelowAppend(bucket[..i], bucket[i], cut);
      if bucket[i] < cut {
        low := low + [bucket[i]];
      } else {
        high := high + [bucket[i]];
      }
    }
    assert bucket[..|bucket|] == bucket;
    PartitionConserves(bucket, cut);
  }

  lemma LayoutOfSplit(cut: real, l: CutTree, h: CutTree, base: nat, left: nat, right: nat, linked: Node)
    requires left == base + 1 && right == base + 1 + Count(l)
    requires linked == Node(left, right, 0, false, Truncate(cut))
    ensures Layout(Split(cut, l, h), base) == [linked] + Layout(l, left) + Layout(h, right)
  {}

  lemma Relinked(before: seq<Node>, root: Node, low: seq<Node>, high: seq<Node>, linked: Node, nodes: seq<Node>)
    requires nodes == before + [root] + low + high
    ensures nodes[|before|] == root
    ensures nodes[|before| := linked] == before + ([linked] + low + high)
  {}

  class TrainingModule {
    var numTrees: int
    var maxDepth: int
    var subsampleSize: int

    ghost predicate Valid()
      reads this
    {
      subsampleSize >= 2 && maxDepth == CeilLog2(subsampleSize)
    }

    constructor (sSample: int, nTrees: int)
      ensures Valid() && numTrees == nTrees
      ensures subsampleSize == if sSample < 2 then 2 else sSample
    {
      numTrees := nTrees;
      var clamped := if sSample < 2 then 2 else sSample;
      subsampleSize := clamped;
      maxDepth := CeilLog2(clamped);
    }

    /** Appends the layout of some grown tree behind what the vector holds already, changes
        nothing below its own start index, and returns that index. */
    method BuildTreeRecursive(tree: NodeVector, bucket: seq<real>, depth: nat)
        returns (index: nat, ghost grown: CutTree)
      modifies tree
      ensures Grown(grown, bucket, depth, maxDepth)
      ensures index == |old(tree.nodes)|
      ensures tree.nodes == old(tree.nodes) + Layout(grown, index)
      decreases maxDepth - depth
    {
      ghost var before := tree.nodes;
      var current := |tree.nodes|;
      tree.nodes := tree.nodes + [Node(0, 0, 0, false, 0)];

      if depth >= maxDepth || |bucket| <= 1 {
        tree.nodes := tree.nodes[current := Node(-1, -1, |bucket|, true, 0)];
        return current, Leaf(|bucket|);
      }
      var lo, hi := Min(bucket), Max(bucket);
      if hi == lo {
        tree.nodes := tree.nodes[current := Node(-1, -1, |bucket|, true, 0)];
        return current, Leaf(|bucket|);
      }

      var cut := DrawCut(lo, hi);
      tree.nodes := tree.nodes[current := tree.nodes[current].(split := Truncate(cut))];
      ghost var root := tree.nodes[current];
      assert tree.nodes == before + [root];

      var low, high := Partition(bucket, cut);
      var left, l := BuildTreeRecursive(tree, low, depth + 1);
      ghost var lowNodes := Layout(l, left);
      var right, h := BuildTreeRecursive(tree, high, depth + 1);
      ghost var highNodes := Layout(h, right);

      grown := Split(cut, l, h);
      ghost var linked := Node(left, right, 0, false, Truncate(cut));
      Relinked(before, root, lowNodes, highNodes, linked, tree.nodes);
      tree.nodes := tree.nodes[current := tree.nodes[current].(left := left, right := right, isLeaf := false)];
      LayoutOfSplit(cut, l, h, current, left, right, linked);
      index := current;
    }

    // -------------------------------------------------------------- training a forest

    /** Some rearrangement of the array, each of them possible. */
    static method Shuffle(a: array<real>)
      modifies a
      ensures multiset(a[..]) == multiset(old(a[..]))
    {
      var i := a.Length;
      while i > 0
        invariant 0 <= i <= a.Length
        invariant multiset(a[..]) == multiset(old(a[..]))
      {
        i := i - 1;
        var j: int := *;
        if 0 <= j < i {
          a[i], a[j] := a[j], a[i];
        }
      }
    }

    /** Trains one tree per requested tree, each on its own sub-sample of the data set, and
        leaves the data set a rearrangement of itself. */
    method Train(latency: array<real>) returns (forest: seq<seq<Node>>)
      requires Valid()
      modifies latency
      ensures multiset(latency[..]) == multiset(old(latency[..]))
      ensures |forest| == if latency.Length == 0 || numTrees < 0 then 0 else numTrees
      ensures forall nodes | nodes in forest ::
                TrainedTree(nodes, multiset(old(latency[..])),
                            if subsampleSize < latency.Length then subsampleSize else latency.Length, maxDepth)
    {
      forest := [];
      if latency.Length == 0 {
        return;
      }
      var length := if subsampleSize < latency.Length then subsampleSize else latency.Length;
      var i := 0;
      while i < numTrees
        invariant |forest| == i && (i <= numTrees || numTrees < 0 == i)
        invariant multiset(latency[..]) == multiset(old(latency[..]))
        invariant forall nodes | nodes in forest ::
                    TrainedTree(nodes, multiset(old(latency[..])), length, maxDepth)
      {
        Shuffle(latency);
        var bucket := latency[..length];
        assert latency[..] == bucket + latency[length..];
        var tree := new NodeVector();
        var _, grown := BuildTreeRecursive(tree, bucket, 0);
        assert [] + Layout(grown, 0) == Layout(grown, 0);
        assert TrainedOn(tree.nodes, grown, bucket, multiset(old(latency[..])), length, maxDepth);
        forest := forest + [tree.nodes];
        i := i + 1;
      }
    }
  }

  /** `nodes` is the layout of a tree grown from the bucket `b`, a sub-multiset of `data`. */
  ghost predicate TrainedOn(
      nodes: seq<Node>, t: CutTree, b: seq<real>, data: multiset<real>, length: nat, maxDepth: int) {
    nodes == Layout(t, 0) && Grown(t, b, 0, maxDepth) && |b| == length && multiset(b) <= data
  }

  ghost predicate TrainedTree(nodes: seq<Node>, data: multiset<real>, length: nat, maxDepth: int) {
    exists t, b :: TrainedOn(nodes, t, b, data, length, maxDepth)
  }

  /** Training goes on until different samples are apart or the depth limit is reached. */
  ghost predicate Separates(t: CutTree, b: seq<real>, maxDepth: int) {
    forall x, y | x in b && y in b && x != y ::
      TrainingLanding(t, 0, x).index == TrainingLanding(t, 0, y).index ==> TrainingLanding(t, 0, x).edges >= maxDepth
  }

  ghost predicate FullyGrown(
      nodes: seq<Node>, t: CutTree, b: seq<real>, data: multiset<real>, length: nat, maxDepth: int) {
    nodes == Layout(t, 0) && |b| == length && multiset(b) <= data && Weight(t) == length && Separates(t, b, maxDepth)
  }

  /** A trained vector lays out a tree that holds a sub-sample of the given length and has taken it
      apart as far as the depth limit allows. */
  lemma TrainedTreeSeparates(nodes: seq<Node>, data: multiset<real>, length: nat, maxDepth: int)
    requires TrainedTree(nodes, data, length, maxDepth)
    ensures exists t, b :: FullyGrown(nodes, t, b, data, length, maxDepth)
  {
    var t, b :| TrainedOn(nodes, t, b, data, length, maxDepth);
    GrownWeight(t, b, 0, maxDepth);
    forall x, y | x in b && y in b && x != y && TrainingLanding(t, 0, x).index == TrainingLanding(t, 0, y).index
      ensures TrainingLanding(t, 0, x).edges >= maxDepth
    {
      LeavesSeparate(t, 0, b, 0, maxDepth, x, y);
    }
    assert FullyGrown(nodes, t, b, data, length, maxDepth);
  }

  /** What prediction can rely on for a trained vector: the bounds on its size, links that only
      go forward, and a walk that ends at a leaf for every latency. */
  lemma TrainedTreeIsWalkable(nodes: seq<Node>, data: multiset<real>, length: nat, s: nat, x: real)
    requires s >= 2 && TrainedTree(nodes, data, length, CeilLog2(s))
    ensures 1 <= |nodes| < 4 * s
    ensures forall i | 0 <= i < |nodes| :: WellLinked(nodes, i)
    ensures var w := Walk(nodes, 0, x, |nodes|);
            w.AtLeaf? && w.index < |nodes| && nodes[w.index].isLeaf && w.edges <= CeilLog2(s)
  {
    var t, b :| TrainedOn(nodes, t, b, data, length, CeilLog2(s));
    GrownWithinLimit(t, b, s);
    TreeSize(t, s);
    HeightBelowCount(t);
    assert nodes[0..Count(t)] == nodes;
    WalkRefinesTree(nodes, t, 0, x, |nodes|);
    LandingsInRange(t, 0, x);
    forall i | 0 <= i < |nodes|
      ensures WellLinked(nodes, i)
    {
      SegmentLinks(nodes, t, 0, i);
    }
  }

  /** Node indices of a tree fit an `int`: for sub-sample sizes up to 2^30 whatever the data, and
      for every sub-sample size when there are at most 69 million samples. */
  predicate IndicesFit(s: nat, length: nat) {
    s <= 0x4000_0000 || 31 * length < INT_MAX
  }

  lemma PowersOfTwo()
    ensures Pow2(30) == 0x4000_0000 && Pow2(31) == 0x8000_0000
  {
    assert Pow2(10) == 0x400;
    assert Pow2(20) == 0x10_0000;
    assert Pow2(30) == 0x4000_0000;
  }

  /** Up to sub-sample size 2^30 the depth limit alone bounds the count. */
  lemma ShallowTreeFits(t: CutTree, s: nat)
    requires 2 <= s <= 0x4000_0000 && Height(t) <= CeilLog2(s)
    ensures Count(t) <= INT_MAX
  {
    PowersOfTwo();
    CeilLog2AtMost(s, 30);
    TreeSize(t, s);
    Pow2Monotone(CeilLog2(s) + 1, 31);
  }

  lemma ProductAtMost(i: nat, j: nat, n: nat)
    requires i <= j
    ensures i * n <= j * n
  {}

  lemma SmallBucketFits(t: CutTree, b: seq<real>, levels: nat)
    requires Grown(t, b, 0, levels) && levels <= 31 && 31 * |b| < INT_MAX
    ensures Count(t) <= INT_MAX
  {
    CountByDepth(t, b, 0, levels);
    ProductAtMost(levels, 31, |b|);
  }

  lemma TreeSizeFits(t: CutTree, b: seq<real>, s: nat)
    requires 2 <= s <= INT_MAX && IndicesFit(s, |b|) && Grown(t, b, 0, CeilLog2(s))
    ensures Count(t) <= INT_MAX
  {
    if s <= 0x4000_0000 {
      GrownWithinLimit(t, b, s);
      ShallowTreeFits(t, s);
    } else {
      PowersOfTwo();
      CeilLog2AtMost(s, 31);
      SmallBucketFits(t, b, CeilLog2(s));
    }
  }

  lemma TrainedTreeFits(nodes: seq<Node>, data: multiset<real>, length: nat, s: nat)
    requires 2 <= s <= INT_MAX && IndicesFit(s, length) && length <= s
    requires TrainedTree(nodes, data, length, CeilLog2(s))
    requires forall x | x in data :: INT_MIN as real <= x <= INT_MAX as real
    ensures |nodes| <= SIZE_MAX && forall n | n in nodes :: Fits(n)
  {
    var t, b :| TrainedOn(nodes, t, b, data, length, CeilLog2(s));
    TreeSizeFits(t, b, s);
    assert forall x | x in b :: x in multiset(b);
    forall n | n in nodes
      ensures Fits(n)
    {
      GrownTreeFits(t, 0, b, 0, CeilLog2(s), n);
    }
  }
}
