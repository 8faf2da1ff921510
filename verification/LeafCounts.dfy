/** How many samples of a bucket each leaf receives: from the partitions of training, and from
    the index walk of prediction. */
module LeafCounts {
  import opened IsolationTree

  // ---------------------------------------------------------------- counting by index

  /** How many values of `b` the function `f` takes to `k`. */
  function Hits(f: real -> nat, b: seq<real>, k: nat): nat {
    if b == [] then 0 else (if f(b[0]) == k then 1 else 0) + Hits(f, b[1..], k)
  }

  /** The same for the indices from `lo` up to `hi`, summed. */
  function HitsIn(f: real -> nat, b: seq<real>, lo: nat, hi: nat): nat {
    if hi <= lo then 0 else HitsIn(f, b, lo, hi - 1) + Hits(f, b, hi - 1)
  }

  lemma {:induction false} HitsElsewhere(f: real -> nat, b: seq<real>, k: nat)
    requires forall x :: f(x) != k
    ensures Hits(f, b, k) == 0
    decreases b
  {
    if b != [] {
      HitsElsewhere(f, b[1..], k);
    }
  }

  lemma {:induction false} HitsInStep(f: real -> nat, b: seq<real>, lo: nat, hi: nat)
    requires b != []
    ensures HitsIn(f, b, lo, hi) == HitsIn(f, b[1..], lo, hi) + if lo <= f(b[0]) < hi then 1 else 0
    decreases hi
  {
    if lo < hi {
      HitsInStep(f, b, lo, hi - 1);
    }
  }

  lemma {:induction false} HitsInNothing(f: real -> nat, lo: nat, hi: nat)
    ensures HitsIn(f, [], lo, hi) == 0
    decreases hi
  {
    if lo < hi {
      HitsInNothing(f, lo, hi - 1);
    }
  }

  /** A range that holds all values is hit once by each sample. */
  lemma {:induction false} AllHits(f: real -> nat, b: seq<real>, lo: nat, hi: nat)
    requires forall x :: lo <= f(x) < hi
    ensures HitsIn(f, b, lo, hi) == |b|
    decreases b
  {
    if b == [] {
      HitsInNothing(f, lo, hi);
    } else {
      AllHits(f, b[1..], lo, hi);
      HitsInStep(f, b, lo, hi);
    }
  }

  lemma {:induction false} SameHits(f: real -> nat, b: seq<real>, g: real -> nat, c: seq<real>, lo: nat, hi: nat)
    requires forall k: nat | lo <= k < hi :: Hits(f, b, k) == Hits(g, c, k)
    ensures HitsIn(f, b, lo, hi) == HitsIn(g, c, lo, hi)
    decreases hi
  {
    if lo < hi {
      SameHits(f, b, g, c, lo, hi - 1);
    }
  }

  /** A function that follows `g` below a cut and `h` from it on hits what these hit in the two
      halves of the bucket. */
  lemma {:induction false} HitsSplit(
      f: real -> nat, g: real -> nat, h: real -> nat, cut: real, b: seq<real>, k: nat)
    requires forall x :: f(x) == if x < cut then g(x) else h(x)
    ensures Hits(f, b, k) == Hits(g, Below(b, cut), k) + Hits(h, AtLeast(b, cut), k)
    decreases b
  {
    if b != [] {
      HitsSplit(f, g, h, cut, b[1..], k);
      var lo, hi := Below(b, cut), AtLeast(b, cut);
      if b[0] < cut {
        assert lo[1..] == Below(b[1..], cut) && hi == AtLeast(b[1..], cut);
      } else {
        assert hi[1..] == AtLeast(b[1..], cut) && lo == Below(b[1..], cut);
      }
    }
  }

  // ---------------------------------------------------------------- the two descents

  /** The leaf index that training puts a value in, and the one that stored cuts lead to. */
  function TrainedIndex(t: CutTree, base: nat): real -> nat {
    x => TrainingLanding(t, base, x).index
  }

  function StoredIndex(t: CutTree, base: nat): real -> nat {
    x => StoredLanding(t, base, x).index
  }

  /** How many samples of `b` training puts into the leaf at index `k`. */
  function TrainedInto(t: CutTree, base: nat, b: seq<real>, k: nat): nat {
    Hits(TrainedIndex(t, base), b, k)
  }

  /** How many samples of `b` the stored cuts lead to the leaf at index `k`. */
  function StoredInto(t: CutTree, base: nat, b: seq<real>, k: nat): nat {
    Hits(StoredIndex(t, base), b, k)
  }

  /** How many samples of `b` the prediction walk from index 0 ends at the leaf `k` with. */
  function RoutedInto(nodes: seq<Node>, b: seq<real>, k: nat): nat {
    if b == [] then 0
    else (if Walk(nodes, 0, b[0], |nodes|).AtLeaf? && Walk(nodes, 0, b[0], |nodes|).index == k then 1 else 0)
         + RoutedInto(nodes, b[1..], k)
  }

  lemma TrainedIntoSplits(t: CutTree, base: nat, b: seq<real>, k: nat)
    requires t.Split?
    ensures TrainedInto(t, base, b, k) ==
            TrainedInto(t.low, base + 1, Below(b, t.cut), k)
            + TrainedInto(t.high, base + 1 + Count(t.low), AtLeast(b, t.cut), k)
  {
    HitsSplit(TrainedIndex(t, base), TrainedIndex(t.low, base + 1), TrainedIndex(t.high, base + 1 + Count(t.low)),
              t.cut, b, k);
  }

  lemma StoredIntoSplits(t: CutTree, base: nat, b: seq<real>, k: nat)
    requires t.Split?
    ensures StoredInto(t, base, b, k) ==
            StoredInto(t.low, base + 1, Below(b, Truncate(t.cut) as real), k)
            + StoredInto(t.high, base + 1 + Count(t.low), AtLeast(b, Truncate(t.cut) as real), k)
  {
    HitsSplit(StoredIndex(t, base), StoredIndex(t.low, base + 1), StoredIndex(t.high, base + 1 + Count(t.low)),
              Truncate(t.cut) as real, b, k);
  }

  /** Only indices of the tree's own segment are hit, and those take all samples. */
  lemma SegmentTakesAll(t: CutTree, base: nat, b: seq<real>)
    ensures HitsIn(TrainedIndex(t, base), b, base, base + Count(t)) == |b|
    ensures HitsIn(StoredIndex(t, base), b, base, base + Count(t)) == |b|
  {
    forall x
      ensures base <= TrainedIndex(t, base)(x) < base + Count(t)
      ensures base <= StoredIndex(t, base)(x) < base + Count(t)
    {
      LandingsInRange(t, base, x);
    }
    AllHits(TrainedIndex(t, base), b, base, base + Count(t));
    AllHits(StoredIndex(t, base), b, base, base + Count(t));
  }

  lemma NoneOutside(t: CutTree, base: nat, b: seq<real>, k: nat)
    requires k < base || k >= base + Count(t)
    ensures TrainedInto(t, base, b, k) == StoredInto(t, base, b, k) == 0
  {
    forall x
      ensures TrainedIndex(t, base)(x) != k && StoredIndex(t, base)(x) != k
    {
      LandingsInRange(t, base, x);
    }
    HitsElsewhere(TrainedIndex(t, base), b, k);
    HitsElsewhere(StoredIndex(t, base), b, k);
  }

  lemma NoneBehind(t: CutTree, b: seq<real>, k: nat)
    ensures k >= Count(t) ==> TrainedInto(t, 0, b, k) == StoredInto(t, 0, b, k) == 0
  {
    if k >= Count(t) {
      NoneOutside(t, 0, b, k);
    }
  }

  // ---------------------------------------------------------------- stored sizes

  /** The size stored at index `k` of the layout: its bucket size at a leaf, else 0. */
  function SizeAt(t: CutTree, base: nat, k: nat): nat
    decreases t
  {
    match t
    case Leaf(n) => if k == base then n else 0
    case Split(_, low, high) =>
      SizeAt(low, base + 1, k) + SizeAt(high, base + 1 + Count(low), k)
  }

  lemma {:induction false} SizeOutside(t: CutTree, base: nat, k: nat)
    requires k < base || k >= base + Count(t)
    ensures SizeAt(t, base, k) == 0
    decreases t
  {
    if t.Split? {
      SizeOutside(t.low, base + 1, k);
      SizeOutside(t.high, base + 1 + Count(t.low), k);
    }
  }

  lemma {:induction false} LayoutStoresSizes(nodes: seq<Node>, t: CutTree, base: nat, k: nat)
    requires Placed(nodes, t, base) && base <= k < base + Count(t)
    ensures nodes[k].size == SizeAt(t, base, k)
    decreases t
  {
    if t.Leaf? {
      assert nodes[base] == nodes[base..base + 1][0];
    } else {
      PlacedChildren(nodes, t, base);
      var mid := base + 1 + Count(t.low);
      if k < mid {
        SizeOutside(t.high, mid, k);
      } else {
        SizeOutside(t.low, base + 1, k);
      }
      if base < k < mid {
        LayoutStoresSizes(nodes, t.low, base + 1, k);
      } else if mid <= k {
        LayoutStoresSizes(nodes, t.high, mid, k);
      } else {
        SizeOutside(t.low, base + 1, k);
      }
    }
  }

  lemma LeafTakesAll(t: CutTree, base: nat, b: seq<real>, k: nat)
    requires t.Leaf? && t.size == |b|
    ensures TrainedInto(t, base, b, k) == SizeAt(t, base, k)
  {
    if k == base {
      SegmentTakesAll(t, base, b);
      assert HitsIn(TrainedIndex(t, base), b, base, base) == 0;
    } else {
      NoneOutside(t, base, b, k);
    }
  }

  /** The size recorded for a leaf is the number of bucket samples that training put there. */
  lemma {:induction false} SizesCountSamples(t: CutTree, base: nat, b: seq<real>, depth: int, maxDepth: int, k: nat)
    requires Grown(t, b, depth, maxDepth)
    ensures TrainedInto(t, base, b, k) == SizeAt(t, base, k)
    decreases t
  {
    if t.Leaf? {
      LeafTakesAll(t, base, b, k);
    } else {
      SizesCountSamples(t.low, base + 1, Below(b, t.cut), depth + 1, maxDepth, k);
      SizesCountSamples(t.high, base + 1 + Count(t.low), AtLeast(b, t.cut), depth + 1, maxDepth, k);
      TrainedIntoSplits(t, base, b, k);
    }
  }

  /** The index walk over the flat vector counts as the stored cuts do. */
  lemma {:induction false} RoutedAsStored(t: CutTree, b: seq<real>, k: nat)
    ensures RoutedInto(Layout(t, 0), b, k) == StoredInto(t, 0, b, k)
    decreases b
  {
    if b != [] {
      var nodes := Layout(t, 0);
      assert nodes[0..Count(t)] == nodes;
      HeightBelowCount(t);
      WalkRefinesTree(nodes, t, 0, b[0], Count(t));
      RoutedAsStored(t, b[1..], k);
    }
  }

  // ---------------------------------------------------------------- exactly when they agree

  /** Truncation moves the cut of a node in one direction, so a half of the bucket that keeps
      its size keeps its samples. */
  lemma {:induction false} SameSizeSameHalves(b: seq<real>, y: real, z: real)
    requires y <= z
    ensures |Below(b, y)| <= |Below(b, z)|
    ensures |Below(b, y)| == |Below(b, z)| ==>
              Below(b, y) == Below(b, z) && AtLeast(b, y) == AtLeast(b, z) && forall x | x in b :: x < y <==> x < z
    decreases b
  {
    if b != [] {
      SameSizeSameHalves(b[1..], y, z);
      assert forall x | x in b :: x == b[0] || x in b[1..];
    }
  }

  ghost predicate EqualCounts(t: CutTree, base: nat, b: seq<real>) {
    forall k: nat :: StoredInto(t, base, b, k) == TrainedInto(t, base, b, k)
  }

  /** When both descents hit every index of the left child's segment equally often, both cuts
      split the bucket alike. */
  lemma EqualCountsEqualHalves(t: CutTree, base: nat, b: seq<real>)
    requires t.Split?
    requires EqualCounts(t, base, b)
    ensures var z := Truncate(t.cut) as real;
            && Below(b, z) == Below(b, t.cut) && AtLeast(b, z) == AtLeast(b, t.cut)
            && forall x | x in b :: !InGap(t.cut, x)
  {
    var z, mid := Truncate(t.cut) as real, base + 1 + Count(t.low);
    var stored, trained := StoredIndex(t.low, base + 1), TrainedIndex(t.low, base + 1);
    forall k: nat | base + 1 <= k < mid
      ensures Hits(stored, Below(b, z), k) == Hits(trained, Below(b, t.cut), k)
    {
      assert StoredInto(t, base, b, k) == TrainedInto(t, base, b, k);
      StoredIntoSplits(t, base, b, k);
      TrainedIntoSplits(t, base, b, k);
      NoneOutside(t.high, mid, AtLeast(b, z), k);
      NoneOutside(t.high, mid, AtLeast(b, t.cut), k);
    }
    SameHits(stored, Below(b, z), trained, Below(b, t.cut), base + 1, mid);
    SegmentTakesAll(t.low, base + 1, Below(b, z));
    SegmentTakesAll(t.low, base + 1, Below(b, t.cut));
    if t.cut >= 0.0 {
      SameSizeSameHalves(b, z, t.cut);
    } else {
      SameSizeSameHalves(b, t.cut, z);
    }
    forall x | x in b
      ensures !InGap(t.cut, x)
    {
      GapIsDivergence(t.cut, x);
    }
  }

  /** The counts of the children are those of the node, where the halves are the same. */
  lemma ChildCounts(t: CutTree, base: nat, b: seq<real>, k: nat)
    requires t.Split?
    requires EqualCounts(t, base, b)
    requires var z := Truncate(t.cut) as real; Below(b, z) == Below(b, t.cut) && AtLeast(b, z) == AtLeast(b, t.cut)
    ensures StoredInto(t.low, base + 1, Below(b, t.cut), k) == TrainedInto(t.low, base + 1, Below(b, t.cut), k)
    ensures var mid := base + 1 + Count(t.low);
            StoredInto(t.high, mid, AtLeast(b, t.cut), k) == TrainedInto(t.high, mid, AtLeast(b, t.cut), k)
  {
    assert StoredInto(t, base, b, k) == TrainedInto(t, base, b, k);
    StoredIntoSplits(t, base, b, k);
    TrainedIntoSplits(t, base, b, k);
    if base + 1 <= k < base + 1 + Count(t.low) {
      NoneOutside(t.high, base + 1 + Count(t.low), AtLeast(b, t.cut), k);
    } else {
      NoneOutside(t.low, base + 1, Below(b, t.cut), k);
    }
  }

  /** Equal counts at every leaf leave no sample in a gap of its training path. */
  lemma {:induction false} EqualCountsAreClear(t: CutTree, base: nat, b: seq<real>)
    requires EqualCounts(t, base, b)
    ensures forall x | x in b :: ClearPath(t, x)
    decreases t
  {
    if t.Split? {
      EqualCountsEqualHalves(t, base, b);
      var left, right := base + 1, base + 1 + Count(t.low);
      forall k: nat
        ensures StoredInto(t.low, left, Below(b, t.cut), k) == TrainedInto(t.low, left, Below(b, t.cut), k)
      {
        ChildCounts(t, base, b, k);
      }
      forall k: nat
        ensures StoredInto(t.high, right, AtLeast(b, t.cut), k) == TrainedInto(t.high, right, AtLeast(b, t.cut), k)
      {
        ChildCounts(t, base, b, k);
      }
      EqualCountsAreClear(t.low, left, Below(b, t.cut));
      EqualCountsAreClear(t.high, right, AtLeast(b, t.cut));
      forall x | x in b
        ensures ClearPath(t, x)
      {
        PartitionSides(b, t.cut, x);
      }
    }
  }

  lemma {:induction false} ClearCountsAreEqual(t: CutTree, base: nat, b: seq<real>, k: nat)
    requires forall x | x in b :: ClearPath(t, x)
    ensures StoredInto(t, base, b, k) == TrainedInto(t, base, b, k)
    decreases b
  {
    if b != [] {
      ReachesTrainingLeafIffClear(t, base, b[0]);
      ClearCountsAreEqual(t, base, b[1..], k);
    }
  }

  /** What a walk counts and what the vector stores, told by the descents. */
  lemma RoutedAndStored(t: CutTree, b: seq<real>, maxDepth: int, k: nat)
    requires Grown(t, b, 0, maxDepth)
    ensures RoutedInto(Layout(t, 0), b, k) == StoredInto(t, 0, b, k)
    ensures k < Count(t) ==> Layout(t, 0)[k].size == TrainedInto(t, 0, b, k)
  {
    var nodes := Layout(t, 0);
    assert nodes[0..Count(t)] == nodes;
    RoutedAsStored(t, b, k);
    SizesCountSamples(t, 0, b, 0, maxDepth, k);
    if k < Count(t) {
      LayoutStoresSizes(nodes, t, 0, k);
    }
  }

  /** Every node is the end of as many walks from the bucket as its stored size says. (An
      internal node stores size 0 and no walk ends there.) */
  ghost predicate SizesMatch(nodes: seq<Node>, b: seq<real>) {
    forall k | 0 <= k < |nodes| :: RoutedInto(nodes, b, k) == nodes[k].size
  }

  /** The samples that `pathLength` routes to each leaf are as many as its stored size says, if
      and only if no bucket sample lies in a gap on its training path. */
  lemma TrainingAndPredictionAgree(t: CutTree, b: seq<real>, maxDepth: int)
    requires Grown(t, b, 0, maxDepth)
    ensures SizesMatch(Layout(t, 0), b) <==> forall x | x in b :: ClearPath(t, x)
  {
    var nodes := Layout(t, 0);
    if forall x | x in b :: ClearPath(t, x) {
      forall k | 0 <= k < |nodes|
        ensures RoutedInto(nodes, b, k) == nodes[k].size
      {
        ClearCountsAreEqual(t, 0, b, k);
        RoutedAndStored(t, b, maxDepth, k);
      }
    }
    if SizesMatch(nodes, b) {
      forall k: nat
        ensures StoredInto(t, 0, b, k) == TrainedInto(t, 0, b, k)
      {
        RoutedAndStored(t, b, maxDepth, k);
        NoneBehind(t, b, k);
      }
      EqualCountsAreClear(t, 0, b);
    }
  }
}
