/** The random-cut tree of Training.cpp as an inductive tree, its layout in a flat vector of
    nodes, and the walk that Predict.cpp makes over that vector.

    Samples are reals. A node stores its cut in an `int` field while the bucket is partitioned
    with the `double` cut, so both values are kept apart: `Split.cut` is the cut used to
    partition, `Truncate(cut)` the one that is stored. */
module IsolationTree {
  import opened Wrappers
  import opened Sequences

  /** One `iTreeNodes` element of the flat vector. */
  datatype Node = Node(left: int, right: int, size: int, isLeaf: bool, split: int)

  /** The tree that one training run grows. */
  datatype CutTree = Leaf(size: nat) | Split(cut: real, low: CutTree, high: CutTree)

  // ---------------------------------------------------------------- buckets

  function Min(b: seq<real>): (m: real)
    requires b != []
    ensures m in b && forall x | x in b :: m <= x
  {
    if |b| == 1 then b[0] else
      var m := Min(b[1..]);
      assert forall x | x in b :: x == b[0] || x in b[1..];
      if b[0] < m then b[0] else m
  }

  function Max(b: seq<real>): (m: real)
    requires b != []
    ensures m in b && forall x | x in b :: x <= m
  {
    if |b| == 1 then b[0] else
      var m := Max(b[1..]);
      assert forall x | x in b :: x == b[0] || x in b[1..];
      if b[0] > m then b[0] else m
  }

  /** The samples of `b` that go to the left child. */
  function Below(b: seq<real>, cut: real): seq<real> {
    if b == [] then [] else (if b[0] < cut then [b[0]] else []) + Below(b[1..], cut)
  }

  /** The samples of `b` that go to the right child. */
  function AtLeast(b: seq<real>, cut: real): seq<real> {
    if b == [] then [] else (if b[0] < cut then [] else [b[0]]) + AtLeast(b[1..], cut)
  }

  lemma {:induction false} PartitionSizes(b: seq<real>, cut: real)
    ensures |Below(b, cut)| + |AtLeast(b, cut)| == |b|
  {
    if b != [] {
      PartitionSizes(b[1..], cut);
    }
  }

  /** Partitioning loses and invents no sample. */
  lemma {:induction false} PartitionConserves(b: seq<real>, cut: real)
    ensures multiset(Below(b, cut)) + multiset(AtLeast(b, cut)) == multiset(b)
  {
    if b != [] {
      PartitionConserves(b[1..], cut);
      assert b == [b[0]] + b[1..];
    }
  }

  lemma {:induction false} PartitionSides(b: seq<real>, cut: real, x: real)
    ensures x in Below(b, cut) <==> x in b && x < cut
    ensures x in AtLeast(b, cut) <==> x in b && x >= cut
  {
    if b != [] {
      PartitionSides(b[1..], cut, x);
      assert x in b <==> x == b[0] || x in b[1..];
    }
  }

  lemma {:induction false} BelowAppend(b: seq<real>, x: real, cut: real)
    ensures Below(b + [x], cut) == Below(b, cut) + (if x < cut then [x] else [])
    ensures AtLeast(b + [x], cut) == AtLeast(b, cut) + (if x < cut then [] else [x])
  {
    if b == [] {
      assert b + [x] == [x];
    } else {
      assert (b + [x])[1..] == b[1..] + [x];
      BelowAppend(b[1..], x, cut);
    }
  }

  // ---------------------------------------------------------------- growing

  /** A node becomes a leaf at the depth limit, with at most one sample, or when its samples
      are all equal. */
  predicate MustStop(b: seq<real>, depth: int, maxDepth: int) {
    depth >= maxDepth || |b| <= 1 || Max(b) == Min(b)
  }

  /** `t` is a tree that training may grow from bucket `b`: any cut in [min, max) is allowed
      wherever the code draws one. */
  predicate Grown(t: CutTree, b: seq<real>, depth: int, maxDepth: int)
    decreases t
  {
    match t
    case Leaf(n) => MustStop(b, depth, maxDepth) && n == |b|
    case Split(cut, low, high) =>
      && !MustStop(b, depth, maxDepth)
      && Min(b) <= cut < Max(b)
      && Grown(low, Below(b, cut), depth + 1, maxDepth)
      && Grown(high, AtLeast(b, cut), depth + 1, maxDepth)
  }

  function Count(t: CutTree): (n: nat)
    ensures n >= 1
  {
    if t.Leaf? then 1 else 1 + Count(t.low) + Count(t.high)
  }

  function Leaves(t: CutTree): nat {
    if t.Leaf? then 1 else Leaves(t.low) + Leaves(t.high)
  }

  function Height(t: CutTree): nat {
    if t.Leaf? then 0
    else if Height(t.low) < Height(t.high) then 1 + Height(t.high)
    else 1 + Height(t.low)
  }

  /** The number of samples held by the leaves of `t`. */
  function Weight(t: CutTree): nat {
    if t.Leaf? then t.size else Weight(t.low) + Weight(t.high)
  }

  function Pow2(n: nat): (p: nat)
    ensures p >= 1
  {
    if n == 0 then 1 else 2 * Pow2(n - 1)
  }

  lemma {:induction false} Pow2Monotone(m: nat, n: nat)
    requires m <= n
    ensures Pow2(m) <= Pow2(n)
    decreases n
  {
    if m < n {
      Pow2Monotone(m, n - 1);
    }
  }

  /** Every sample of the bucket ends in exactly one leaf. */
  lemma {:induction false} GrownWeight(t: CutTree, b: seq<real>, depth: int, maxDepth: int)
    requires Grown(t, b, depth, maxDepth)
    ensures Weight(t) == |b|
    decreases t
  {
    if t.Split? {
      PartitionSizes(b, t.cut);
      GrownWeight(t.low, Below(b, t.cut), depth + 1, maxDepth);
      GrownWeight(t.high, AtLeast(b, t.cut), depth + 1, maxDepth);
    }
  }

  /** No leaf is deeper than the limit. */
  lemma {:induction false} GrownHeight(t: CutTree, b: seq<real>, depth: int, maxDepth: int)
    requires Grown(t, b, depth, maxDepth) && depth <= maxDepth
    ensures depth + Height(t) <= maxDepth
    decreases t
  {
    if t.Split? {
      GrownHeight(t.low, Below(b, t.cut), depth + 1, maxDepth);
      GrownHeight(t.high, AtLeast(b, t.cut), depth + 1, maxDepth);
    }
  }

  /** A tree with k leaves has 2k - 1 nodes, and k is at most 2 to the height. */
  lemma {:induction false} CountByLeaves(t: CutTree)
    ensures Count(t) == 2 * Leaves(t) - 1
    ensures Leaves(t) <= Pow2(Height(t))
  {
    if t.Split? {
      CountByLeaves(t.low);
      CountByLeaves(t.high);
      Pow2Monotone(Height(t.low), Height(t) - 1);
      Pow2Monotone(Height(t.high), Height(t) - 1);
    }
  }

  // ---------------------------------------------------------------- the flat layout

  /** Conversion of a `double` cut to the `int` field: the fraction is dropped, toward zero. */
  function Truncate(r: real): int {
    if r >= 0.0 then r.Floor else -((-r).Floor)
  }

  /** The vector segment that holds `t` when its root has index `base`: preorder, root first. */
  function Layout(t: CutTree, base: nat): (nodes: seq<Node>)
    ensures |nodes| == Count(t)
  {
    match t
    case Leaf(n) => [Node(-1, -1, n, true, 0)]
    case Split(cut, low, high) =>
      [Node(base + 1, base + 1 + Count(low), 0, false, Truncate(cut))]
      + Layout(low, base + 1) + Layout(high, base + 1 + Count(low))
  }

  /** `t` sits in `nodes` with its root at index `base`. */
  ghost predicate Placed(nodes: seq<Node>, t: CutTree, base: nat) {
    base + Count(t) <= |nodes| && nodes[base..base + Count(t)] == Layout(t, base)
  }

  lemma SegmentParts(nodes: seq<Node>, base: nat, root: Node, low: seq<Node>, high: seq<Node>)
    requires base + 1 + |low| + |high| <= |nodes|
    requires nodes[base..base + 1 + |low| + |high|] == [root] + low + high
    ensures nodes[base] == root
    ensures nodes[base + 1..base + 1 + |low|] == low
    ensures nodes[base + 1 + |low|..base + 1 + |low| + |high|] == high
  {
    var n := 1 + |low| + |high|;
    ThreeParts([root], low, high);
    SliceOfSlice(nodes, base, base + n, 1, 1 + |low|);
    SliceOfSlice(nodes, base, base + n, 1 + |low|, n);
    assert nodes[base] == nodes[base..base + n][0];
  }

  lemma PlacedChildren(nodes: seq<Node>, t: CutTree, base: nat)
    requires Placed(nodes, t, base) && t.Split?
    ensures nodes[base] == Node(base + 1, base + 1 + Count(t.low), 0, false, Truncate(t.cut))
    ensures Placed(nodes, t.low, base + 1)
    ensures Placed(nodes, t.high, base + 1 + Count(t.low))
  {
    var mid := base + 1 + Count(t.low);
    SegmentParts(nodes, base, Node(base + 1, mid, 0, false, Truncate(t.cut)),
                 Layout(t.low, base + 1), Layout(t.high, mid));
  }

  /** Node `i` is a leaf without children, or its left child follows it directly and its right
      child lies further on, inside the vector. */
  predicate WellLinked(nodes: seq<Node>, i: nat)
    requires i < |nodes|
  {
    if nodes[i].isLeaf then nodes[i].left == nodes[i].right == -1 && nodes[i].size >= 0
    else nodes[i].left == i + 1 && i + 1 < nodes[i].right < |nodes|
  }

  predicate IsParent(nodes: seq<Node>, i: nat, j: nat)
    requires i < |nodes|
  {
    !nodes[i].isLeaf && (nodes[i].left == j || nodes[i].right == j)
  }

  lemma {:induction false} SegmentLinks(nodes: seq<Node>, t: CutTree, base: nat, i: nat)
    requires Placed(nodes, t, base) && base <= i < base + Count(t)
    ensures WellLinked(nodes, i) && nodes[i].right < base + Count(t)
    decreases t
  {
    if t.Leaf? {
      assert nodes[base] == nodes[base..base + 1][0];
    } else {
      PlacedChildren(nodes, t, base);
      var mid := base + 1 + Count(t.low);
      if base < i < mid {
        SegmentLinks(nodes, t.low, base + 1, i);
      } else if mid <= i {
        SegmentLinks(nodes, t.high, mid, i);
      }
    }
  }

  /** The index of the node above index `j` in the layout of `t` from `base`. */
  function Parent(t: CutTree, base: nat, j: nat): (i: nat)
    requires base < j < base + Count(t)
    ensures base <= i < j
    decreases t
  {
    var mid := base + 1 + Count(t.low);
    if j == base + 1 || j == mid then base
    else if j < mid then Parent(t.low, base + 1, j)
    else Parent(t.high, mid, j)
  }

  lemma ParentCases(t: CutTree, base: nat, j: nat)
    requires t.Split?
    ensures var mid, end := base + 1 + Count(t.low), base + Count(t);
            && mid + Count(t.high) == end
            && (base < j < end ==>
                  Parent(t, base, j) ==
                  if j == base + 1 || j == mid then base
                  else if j < mid then Parent(t.low, base + 1, j) else Parent(t.high, mid, j))
  {}

  /** Exactly one node of the segment links to an index inside it, and none to its root. */
  lemma {:induction false} ParentIsUnique(nodes: seq<Node>, t: CutTree, base: nat, i: nat, j: nat)
    requires Placed(nodes, t, base)
    requires base <= i < base + Count(t)
    ensures IsParent(nodes, i, j) <==> base < j < base + Count(t) && i == Parent(t, base, j)
    decreases t
  {
    if t.Leaf? {
      assert nodes[base] == nodes[base..base + 1][0];
    } else {
      PlacedChildren(nodes, t, base);
      var mid := base + 1 + Count(t.low);
      ParentCases(t, base, j);
      if base < i < mid {
        ParentIsUnique(nodes, t.low, base + 1, i, j);
      } else if mid <= i {
        ParentIsUnique(nodes, t.high, mid, i, j);
      }
    }
  }

  /** The subtree whose root has index `i` in the layout of `t` from `base`. */
  function SubtreeAt(t: CutTree, base: nat, i: nat): (s: CutTree)
    requires base <= i < base + Count(t)
    ensures i + Count(s) <= base + Count(t)
    decreases t
  {
    if i == base then t
    else if i < base + 1 + Count(t.low) then SubtreeAt(t.low, base + 1, i)
    else SubtreeAt(t.high, base + 1 + Count(t.low), i)
  }

  /** The node that stands for the root of `s` at index `i`: the left child follows directly, the
      right child behind the whole left subtree. */
  predicate RootNode(n: Node, s: CutTree, i: nat) {
    match s
    case Leaf(size) => n == Node(-1, -1, size, true, 0)
    case Split(cut, low, _) => n == Node(i + 1, i + 1 + Count(low), 0, false, Truncate(cut))
  }

  lemma PlacedRoot(nodes: seq<Node>, t: CutTree, base: nat)
    requires Placed(nodes, t, base)
    ensures RootNode(nodes[base], t, base)
  {
    if t.Leaf? {
      assert nodes[base] == nodes[base..base + 1][0];
    } else {
      PlacedChildren(nodes, t, base);
    }
  }

  lemma {:induction false} SubtreeIsPlaced(nodes: seq<Node>, t: CutTree, base: nat, i: nat)
    requires Placed(nodes, t, base) && base <= i < base + Count(t)
    ensures Placed(nodes, SubtreeAt(t, base, i), i)
    decreases t
  {
    if i > base {
      PlacedChildren(nodes, t, base);
      if i < base + 1 + Count(t.low) {
        SubtreeIsPlaced(nodes, t.low, base + 1, i);
      } else {
        SubtreeIsPlaced(nodes, t.high, base + 1 + Count(t.low), i);
      }
    }
  }

  /** The whole vector of a tree: node `i` links to `i + 1` and to `i + 1` plus the size of the
      left subtree, every link goes forward inside the vector, and index `j` has exactly one
      parent unless it is the root, which has none. */
  lemma FlatShape(t: CutTree)
    ensures var nodes := Layout(t, 0);
            && (forall i | 0 <= i < |nodes| :: RootNode(nodes[i], SubtreeAt(t, 0, i), i) && WellLinked(nodes, i))
            && (forall i, j: nat | 0 <= i < |nodes| ::
                  IsParent(nodes, i, j) <==> 0 < j < |nodes| && i == Parent(t, 0, j))
  {
    var nodes := Layout(t, 0);
    assert nodes[0..|nodes|] == nodes;
    forall i | 0 <= i < |nodes|
      ensures RootNode(nodes[i], SubtreeAt(t, 0, i), i) && WellLinked(nodes, i)
    {
      SubtreeIsPlaced(nodes, t, 0, i);
      PlacedRoot(nodes, SubtreeAt(t, 0, i), i);
      SegmentLinks(nodes, t, 0, i);
    }
    forall i, j: nat | 0 <= i < |nodes|
      ensures IsParent(nodes, i, j) <==> 0 < j < |nodes| && i == Parent(t, 0, j)
    {
      ParentIsUnique(nodes, t, 0, i, j);
    }
  }

  // ---------------------------------------------------------------- the walk

  datatype WalkEnd = AtLeaf(index: nat, edges: nat) | OutOfRange(edges: nat) | OutOfFuel

  /** The index that the walk of `pathLength` ends at and the edges it takes. A loaded vector
      may link back to an earlier node, in which case the source never returns; `fuel` bounds
      the number of visited nodes. */
  function Walk(nodes: seq<Node>, idx: int, x: real, fuel: nat): WalkEnd
    decreases fuel
  {
    if fuel == 0 then OutOfFuel
    else if idx < 0 || idx >= |nodes| then OutOfRange(0)
    else if nodes[idx].isLeaf then AtLeaf(idx, 0)
    else
      var child := if x < nodes[idx].split as real then nodes[idx].left else nodes[idx].right;
      OneEdgeMore(Walk(nodes, child, x, fuel - 1))
  }

  function OneEdgeMore(w: WalkEnd): WalkEnd {
    match w
    case AtLeaf(k, e) => AtLeaf(k, e + 1)
    case OutOfRange(e) => OutOfRange(e + 1)
    case OutOfFuel => OutOfFuel
  }

  lemma WalkStep(nodes: seq<Node>, idx: nat, x: real, fuel: nat)
    requires fuel > 0 && idx < |nodes| && !nodes[idx].isLeaf
    ensures var child := if x < nodes[idx].split as real then nodes[idx].left else nodes[idx].right;
            Walk(nodes, idx, x, fuel) == OneEdgeMore(Walk(nodes, child, x, fuel - 1))
  {}

  /** `pathLength`: edges taken plus the correction `c` for the leaf's size. */
  function PathLength(c: int -> real, nodes: seq<Node>, idx: int, x: real, depth: real, fuel: nat): Option<real>
    decreases fuel
  {
    if fuel == 0 then None
    else if idx < 0 || idx >= |nodes| then Some(depth)
    else if nodes[idx].isLeaf then Some(depth + c(nodes[idx].size))
    else if x < nodes[idx].split as real then PathLength(c, nodes, nodes[idx].left, x, depth + 1.0, fuel - 1)
    else PathLength(c, nodes, nodes[idx].right, x, depth + 1.0, fuel - 1)
  }

  /** The path length is what the end of the walk says: its edges, and at a leaf the
      correction for the size stored there. */
  lemma {:induction false} PathLengthOfWalk(c: int -> real, nodes: seq<Node>, idx: int, x: real, depth: real, fuel: nat)
    ensures PathLength(c, nodes, idx, x, depth, fuel) ==
            match Walk(nodes, idx, x, fuel)
            case AtLeaf(k, e) => if k < |nodes| then Some(depth + e as real + c(nodes[k].size)) else None
            case OutOfRange(e) => Some(depth + e as real)
            case OutOfFuel => None
    decreases fuel
  {
    if fuel > 0 && 0 <= idx < |nodes| && !nodes[idx].isLeaf {
      var child := if x < nodes[idx].split as real then nodes[idx].left else nodes[idx].right;
      PathLengthOfWalk(c, nodes, child, x, depth + 1.0, fuel - 1);
    }
  }

  /** Forward links are enough for every walk to end: the remaining indices are a measure. */
  lemma {:induction false} ForwardWalkEnds(nodes: seq<Node>, idx: nat, x: real, fuel: nat)
    requires forall i | 0 <= i < |nodes| :: WellLinked(nodes, i)
    requires idx < |nodes| && fuel >= |nodes| - idx
    ensures var w := Walk(nodes, idx, x, fuel);
            w.AtLeaf? && idx <= w.index < |nodes| && nodes[w.index].isLeaf && w.edges < |nodes| - idx
    decreases fuel
  {
    if !nodes[idx].isLeaf {
      assert WellLinked(nodes, idx);
      var child := if x < nodes[idx].split as real then nodes[idx].left else nodes[idx].right;
      ForwardWalkEnds(nodes, child, x, fuel - 1);
    }
  }

  // ---------------------------------------------------------------- partition and walk agree

  /** Where a descent of `t` for `x` ends: the leaf's vector index, its size, and the edges. */
  datatype Landing = Landing(index: nat, size: nat, edges: nat)

  /** The descent that training makes: by the cut that partitions the bucket. */
  function TrainingLanding(t: CutTree, base: nat, x: real): Landing {
    match t
    case Leaf(n) => Landing(base, n, 0)
    case Split(cut, low, high) =>
      var below := if x < cut then TrainingLanding(low, base + 1, x)
                   else TrainingLanding(high, base + 1 + Count(low), x);
      below.(edges := below.edges + 1)
  }

  /** The descent that prediction makes: by the stored, truncated cut. */
  function StoredLanding(t: CutTree, base: nat, x: real): Landing {
    match t
    case Leaf(n) => Landing(base, n, 0)
    case Split(cut, low, high) =>
      var below := if x < Truncate(cut) as real then StoredLanding(low, base + 1, x)
                   else StoredLanding(high, base + 1 + Count(low), x);
      below.(edges := below.edges + 1)
  }

  lemma {:induction false} LandingsInRange(t: CutTree, base: nat, x: real)
    ensures base <= TrainingLanding(t, base, x).index < base + Count(t)
    ensures base <= StoredLanding(t, base, x).index < base + Count(t)
    ensures StoredLanding(t, base, x).edges <= Height(t)
    decreases t
  {
    if t.Split? {
      LandingsInRange(t.low, base + 1, x);
      LandingsInRange(t.high, base + 1 + Count(t.low), x);
    }
  }

  /** One edge of the walk is one edge of the descent. */
  lemma WalkFollowsEdge(nodes: seq<Node>, t: CutTree, base: nat, x: real, fuel: nat, child: nat, below: Landing)
    requires t.Split? && fuel > 0 && base < |nodes|
    requires nodes[base] == Node(base + 1, base + 1 + Count(t.low), 0, false, Truncate(t.cut))
    requires child == if x < Truncate(t.cut) as real then base + 1 else base + 1 + Count(t.low)
    requires below == StoredLanding(if x < Truncate(t.cut) as real then t.low else t.high, child, x)
    requires Walk(nodes, child, x, fuel - 1) == AtLeaf(below.index, below.edges)
    ensures StoredLanding(t, base, x) == below.(edges := below.edges + 1)
    ensures Walk(nodes, base, x, fuel) == AtLeaf(below.index, below.edges + 1)
  {
    WalkStep(nodes, base, x, fuel);
  }

  /** The index walk over the flat vector refines the descent of the inductive tree: it ends at
      a leaf, never at the range guard. */
  lemma {:induction false} WalkRefinesTree(nodes: seq<Node>, t: CutTree, base: nat, x: real, fuel: nat)
    requires Placed(nodes, t, base) && fuel > Height(t)
    ensures var s := StoredLanding(t, base, x);
            && Walk(nodes, base, x, fuel) == AtLeaf(s.index, s.edges)
            && s.index < |nodes| && nodes[s.index] == Node(-1, -1, s.size, true, 0)
    decreases t
  {
    if t.Leaf? {
      assert nodes[base] == nodes[base..base + 1][0];
    } else {
      PlacedChildren(nodes, t, base);
      var child, next := base + 1, t.low;
      if x >= Truncate(t.cut) as real {
        child, next := base + 1 + Count(t.low), t.high;
      }
      WalkRefinesTree(nodes, next, child, x, fuel - 1);
      WalkFollowsEdge(nodes, t, base, x, fuel, child, StoredLanding(next, child, x));
    }
  }

  /** The samples that a stored cut sends to the other child than the cut itself. */
  predicate InGap(cut: real, x: real) {
    if cut >= 0.0 then cut.Floor as real <= x < cut else cut <= x < -((-cut).Floor) as real
  }

  lemma GapIsDivergence(cut: real, x: real)
    ensures InGap(cut, x) <==> ((x < cut) != (x < Truncate(cut) as real))
  {
    assert (-cut).Floor as real <= -cut;
  }

  /** No node on the training path of `x` has `x` in its gap. */
  predicate ClearPath(t: CutTree, x: real) {
    t.Split? ==> !InGap(t.cut, x) && ClearPath(if x < t.cut then t.low else t.high, x)
  }

  /** A sample reaches its training leaf exactly when its training path is clear of gaps. */
  lemma {:induction false} ReachesTrainingLeafIffClear(t: CutTree, base: nat, x: real)
    ensures ClearPath(t, x) <==> StoredLanding(t, base, x).index == TrainingLanding(t, base, x).index
    ensures ClearPath(t, x) ==> StoredLanding(t, base, x) == TrainingLanding(t, base, x)
    decreases t
  {
    if t.Split? {
      GapIsDivergence(t.cut, x);
      var mid := base + 1 + Count(t.low);
      ReachesTrainingLeafIffClear(t.low, base + 1, x);
      ReachesTrainingLeafIffClear(t.high, mid, x);
      LandingsInRange(t.low, base + 1, x);
      LandingsInRange(t.high, mid, x);
    }
  }

  /** The flat walk ends at the training leaf of `x` if and only if the path is clear. */
  lemma PredictionMatchesTraining(t: CutTree, x: real, fuel: nat)
    requires fuel > Height(t)
    ensures var w := Walk(Layout(t, 0), 0, x, fuel);
            && w.AtLeaf?
            && (ClearPath(t, x) <==> w.index == TrainingLanding(t, 0, x).index)
            && (ClearPath(t, x) ==> w.edges == TrainingLanding(t, 0, x).edges)
  {
    var nodes := Layout(t, 0);
    assert nodes[0..Count(t)] == nodes;
    WalkRefinesTree(nodes, t, 0, x, fuel);
    ReachesTrainingLeafIffClear(t, 0, x);
  }

  /** Every cut of the tree survives the conversion to `int`. */
  predicate CutsStoredExactly(t: CutTree) {
    t.Split? ==> Truncate(t.cut) as real == t.cut && CutsStoredExactly(t.low) && CutsStoredExactly(t.high)
  }

  lemma {:induction false} ExactCutsAreClear(t: CutTree, x: real)
    requires CutsStoredExactly(t)
    ensures ClearPath(t, x)
    decreases t
  {
    if t.Split? {
      GapIsDivergence(t.cut, x);
      ExactCutsAreClear(if x < t.cut then t.low else t.high, x);
    }
  }

  lemma HalvesGrow()
    ensures Grown(Split(1.5, Leaf(1), Leaf(1)), [1.0, 2.0], 0, 8)
  {
    var b := [1.0, 2.0];
    assert Min(b) in b && Max(b) in b && b[0] in b && b[1] in b;
    assert b[1..] == [2.0];
    assert Below(b[1..], 1.5) == [] && AtLeast(b[1..], 1.5) == [2.0];
    assert Below(b, 1.5) == [1.0] && AtLeast(b, 1.5) == [2.0];
  }

  /** Two whole-number latencies with the cut 1.5 between them: both are walked to the right
      leaf, whose stored size is one. */
  lemma TruncatedCutMisroutes()
    ensures var t := Split(1.5, Leaf(1), Leaf(1));
            && Grown(t, [1.0, 2.0], 0, 8)
            && TrainingLanding(t, 0, 1.0).index == 1
            && Walk(Layout(t, 0), 0, 1.0, 2) == AtLeaf(2, 1)
            && Walk(Layout(t, 0), 0, 2.0, 2) == AtLeaf(2, 1)
  {
    var t := Split(1.5, Leaf(1), Leaf(1));
    HalvesGrow();
    var nodes := Layout(t, 0);
    assert nodes[0..Count(t)] == nodes;
    WalkRefinesTree(nodes, t, 0, 1.0, 2);
    WalkRefinesTree(nodes, t, 0, 2.0, 2);
  }

  /** Three nodes in a vector: a value below the stored cut takes the left link, one at the cut or
      above it the right link, and the size of the leaf reached decides the correction. */
  lemma SampleWalk(c: int -> real, nodes: seq<Node>)
    requires nodes == [Node(1, 2, 0, false, 5), Node(-1, -1, 3, true, 0), Node(-1, -1, 4, true, 0)]
    ensures Layout(Split(5.5, Leaf(3), Leaf(4)), 0) == nodes
    ensures PathLength(c, nodes, 0, 4.5, 0.0, 2) == Some(1.0 + c(3))
    ensures PathLength(c, nodes, 0, 5.0, 0.0, 2) == Some(1.0 + c(4))
    ensures Walk(nodes, 0, 4.5, 2) == AtLeaf(1, 1) && Walk(nodes, 0, 5.0, 2) == AtLeaf(2, 1)
    ensures PathLength(c, [], 0, 5.0, 7.0, 1) == PathLength(c, nodes, -1, 5.0, 7.0, 1) == Some(7.0)
  {
    PathLengthOfWalk(c, nodes, 0, 4.5, 0.0, 2);
    PathLengthOfWalk(c, nodes, 0, 5.0, 0.0, 2);
    assert Walk(nodes, 1, 4.5, 1) == AtLeaf(1, 0);
    assert Walk(nodes, 2, 5.0, 1) == AtLeaf(2, 0);
    WalkStep(nodes, 0, 4.5, 2);
    WalkStep(nodes, 0, 5.0, 2);
  }

  lemma {:induction false} HeightBelowCount(t: CutTree)
    ensures Height(t) < Count(t)
  {
    if t.Split? {
      HeightBelowCount(t.low);
      HeightBelowCount(t.high);
    }
  }

  // ---------------------------------------------------------------- how far trees are grown

  lemma DifferentSamplesSplit(b: seq<real>, depth: int, maxDepth: int, x: real, y: real)
    requires MustStop(b, depth, maxDepth) && x in b && y in b && x != y
    ensures depth >= maxDepth
  {
    assert |b| >= 2;
    assert Min(b) <= x <= Max(b) && Min(b) <= y <= Max(b);
  }

  /** Values that share a leaf go the same way at the cut above it. */
  lemma SameSide(t: CutTree, base: nat, x: real, y: real) returns (child: CutTree, at: nat)
    requires t.Split? && TrainingLanding(t, base, x).index == TrainingLanding(t, base, y).index
    ensures x < t.cut <==> y < t.cut
    ensures child == (if x < t.cut then t.low else t.high)
    ensures TrainingLanding(child, at, x).index == TrainingLanding(child, at, y).index
    ensures TrainingLanding(t, base, x).edges == TrainingLanding(child, at, x).edges + 1
  {
    child, at := t.low, base + 1;
    if x >= t.cut {
      child, at := t.high, base + 1 + Count(t.low);
    }
    LandingsInRange(t.low, base + 1, x);
    LandingsInRange(t.low, base + 1, y);
    LandingsInRange(t.high, base + 1 + Count(t.low), x);
    LandingsInRange(t.high, base + 1 + Count(t.low), y);
  }

  /** Different samples share a leaf only at the depth limit. */
  lemma {:induction false} LeavesSeparate(
      t: CutTree, base: nat, b: seq<real>, depth: int, maxDepth: int, x: real, y: real)
    requires Grown(t, b, depth, maxDepth) && x in b && y in b && x != y
    requires TrainingLanding(t, base, x).index == TrainingLanding(t, base, y).index
    ensures depth + TrainingLanding(t, base, x).edges >= maxDepth
    decreases t
  {
    if t.Leaf? {
      DifferentSamplesSplit(b, depth, maxDepth, x, y);
    } else {
      var child, at := SameSide(t, base, x, y);
      var bucket := if x < t.cut then Below(b, t.cut) else AtLeast(b, t.cut);
      PartitionSides(b, t.cut, x);
      PartitionSides(b, t.cut, y);
      LeavesSeparate(child, at, bucket, depth + 1, maxDepth, x, y);
    }
  }

  lemma SplitAboveLimit(t: CutTree, b: seq<real>, depth: int, maxDepth: int, x: real, y: real)
    requires Grown(t, b, depth, maxDepth) && x in b && y in b && x != y && depth < maxDepth
    ensures t.Split?
  {
    if MustStop(b, depth, maxDepth) {
      DifferentSamplesSplit(b, depth, maxDepth, x, y);
    }
  }

  /** Two different samples under a limit of one level are split: three nodes. */
  lemma TwoSamplesSplit(t: CutTree)
    requires Grown(t, [1.0, 2.0], 0, 1)
    ensures Count(t) == 3
  {
    var b := [1.0, 2.0];
    assert b[0] == 1.0 && b[1] == 2.0;
    SplitAboveLimit(t, b, 0, 1, 1.0, 2.0);
    GrownHeight(t, b, 0, 1);
  }

  /** The stored integer lies between zero and the cut, less than one away from it. */
  lemma TruncateDropsFraction(r: real)
    ensures r >= 0.0 ==> 0.0 <= Truncate(r) as real <= r < Truncate(r) as real + 1.0
    ensures r <= 0.0 ==> Truncate(r) as real - 1.0 < r <= Truncate(r) as real <= 0.0
  {
    assert (-r).Floor as real <= -r;
  }

  // ---------------------------------------------------------------- summed path lengths

  /** The path lengths of all samples of `b` from the root, summed. */
  function TotalPath(c: int -> real, nodes: seq<Node>, b: seq<real>): Option<real> {
    if b == [] then Some(0.0)
    else match (PathLength(c, nodes, 0, b[0], 0.0, |nodes|), TotalPath(c, nodes, b[1..]))
      case (Some(p), Some(rest)) => Some(p + rest)
      case _ => None
  }

  /** The same sum read off the tree: each leaf contributes its size times its own length. */
  function LeafCost(c: int -> real, t: CutTree, depth: nat): real {
    match t
    case Leaf(n) => n as real * (depth as real + c(n))
    case Split(_, low, high) => LeafCost(c, low, depth + 1) + LeafCost(c, high, depth + 1)
  }

  /** The bucket sizes of the internal nodes, summed. */
  function InternalLoad(t: CutTree): nat {
    if t.Leaf? then 0 else Weight(t) + InternalLoad(t.low) + InternalLoad(t.high)
  }

  /** The lengths that training implies for the samples of `b` when the root is `depth` deep. */
  function TrainedPath(c: int -> real, t: CutTree, depth: nat, b: seq<real>): real {
    if b == [] then 0.0
    else
      var s := TrainingLanding(t, 0, b[0]);
      depth as real + s.edges as real + c(s.size) + TrainedPath(c, t, depth, b[1..])
  }

  lemma {:induction false} LandingIgnoresBase(t: CutTree, i: nat, j: nat, x: real)
    ensures TrainingLanding(t, i, x).size == TrainingLanding(t, j, x).size
    ensures TrainingLanding(t, i, x).edges == TrainingLanding(t, j, x).edges
    decreases t
  {
    if t.Split? {
      LandingIgnoresBase(t.low, i + 1, j + 1, x);
      LandingIgnoresBase(t.high, i + 1 + Count(t.low), j + 1 + Count(t.low), x);
    }
  }

  lemma {:induction false} TrainedPathSplits(c: int -> real, t: CutTree, depth: nat, b: seq<real>)
    requires t.Split?
    ensures TrainedPath(c, t, depth, b) ==
            TrainedPath(c, t.low, depth + 1, Below(b, t.cut)) + TrainedPath(c, t.high, depth + 1, AtLeast(b, t.cut))
    decreases b
  {
    if b != [] {
      TrainedPathSplits(c, t, depth, b[1..]);
      LandingIgnoresBase(t.low, 0, 1, b[0]);
      LandingIgnoresBase(t.high, 0, 1 + Count(t.low), b[0]);
      var lo, hi := Below(b, t.cut), AtLeast(b, t.cut);
      if b[0] < t.cut {
        assert lo[1..] == Below(b[1..], t.cut) && hi == AtLeast(b[1..], t.cut);
      } else {
        assert hi[1..] == AtLeast(b[1..], t.cut) && lo == Below(b[1..], t.cut);
      }
    }
  }

  lemma {:induction false} TrainedPathAtLeaf(c: int -> real, n: nat, depth: nat, b: seq<real>)
    ensures TrainedPath(c, Leaf(n), depth, b) == |b| as real * (depth as real + c(n))
    decreases b
  {
    if b != [] {
      TrainedPathAtLeaf(c, n, depth, b[1..]);
      var each := depth as real + c(n);
      assert |b| as real * each == (|b| - 1) as real * each + each;
    }
  }

  lemma {:induction false} TrainedPathIsLeafCost(
      c: int -> real, t: CutTree, depth: nat, b: seq<real>, level: int, maxDepth: int)
    requires Grown(t, b, level, maxDepth)
    ensures TrainedPath(c, t, depth, b) == LeafCost(c, t, depth)
    decreases t
  {
    if t.Leaf? {
      TrainedPathAtLeaf(c, t.size, depth, b);
    } else {
      TrainedPathSplits(c, t, depth, b);
      TrainedPathIsLeafCost(c, t.low, depth + 1, Below(b, t.cut), level + 1, maxDepth);
      TrainedPathIsLeafCost(c, t.high, depth + 1, AtLeast(b, t.cut), level + 1, maxDepth);
    }
  }

  lemma {:induction false} TotalPathAsTrained(c: int -> real, t: CutTree, b: seq<real>)
    requires forall x | x in b :: ClearPath(t, x)
    ensures TotalPath(c, Layout(t, 0), b) == Some(TrainedPath(c, t, 0, b))
    decreases b
  {
    if b != [] {
      var nodes := Layout(t, 0);
      assert nodes[0..Count(t)] == nodes;
      HeightBelowCount(t);
      WalkRefinesTree(nodes, t, 0, b[0], Count(t));
      ReachesTrainingLeafIffClear(t, 0, b[0]);
      PathLengthOfWalk(c, nodes, 0, b[0], 0.0, Count(t));
      TotalPathAsTrained(c, t, b[1..]);
    }
  }

  /** Summed over its own training bucket, `pathLength` is the size-weighted leaf cost. */
  lemma TotalPathOfTrainingBucket(c: int -> real, t: CutTree, b: seq<real>, maxDepth: int)
    requires Grown(t, b, 0, maxDepth)
    requires forall x | x in b :: ClearPath(t, x)
    ensures TotalPath(c, Layout(t, 0), b) == Some(LeafCost(c, t, 0))
  {
    TotalPathAsTrained(c, t, b);
    TrainedPathIsLeafCost(c, t, 0, b, 0, maxDepth);
  }

  /** Leaf sizes times leaf depths, summed. */
  function LeafDepths(t: CutTree, depth: nat): nat {
    if t.Leaf? then depth * t.size else LeafDepths(t.low, depth + 1) + LeafDepths(t.high, depth + 1)
  }

  lemma {:induction false} LeafDepthsAreInternalLoad(t: CutTree, depth: nat)
    ensures LeafDepths(t, depth) == depth * Weight(t) + InternalLoad(t)
    decreases t
  {
    if t.Split? {
      LeafDepthsAreInternalLoad(t.low, depth + 1);
      LeafDepthsAreInternalLoad(t.high, depth + 1);
      var l, h := Weight(t.low), Weight(t.high);
      assert (depth + 1) * l + (depth + 1) * h == depth * (l + h) + (l + h);
    }
  }

  lemma {:induction false} RealProduct(m: nat, n: nat)
    ensures (m * n) as real == n as real * m as real
    decreases m
  {
    if m > 0 {
      RealProduct(m - 1, n);
      assert m * n == (m - 1) * n + n;
      assert n as real * m as real == n as real * (m - 1) as real + n as real;
    }
  }

  lemma {:induction false} UncorrectedLeafCost(c: int -> real, t: CutTree, depth: nat)
    requires forall n :: c(n) == 0.0
    ensures LeafCost(c, t, depth) == LeafDepths(t, depth) as real
    decreases t
  {
    if t.Leaf? {
      RealProduct(depth, t.size);
    } else {
      UncorrectedLeafCost(c, t.low, depth + 1);
      UncorrectedLeafCost(c, t.high, depth + 1);
    }
  }

  /** The edges walked by the training samples, summed, are the bucket sizes summed over the
      internal nodes. */
  lemma EdgesSumToInternalBuckets(t: CutTree, b: seq<real>, maxDepth: int)
    requires Grown(t, b, 0, maxDepth)
    requires forall x | x in b :: ClearPath(t, x)
    ensures TotalPath(_ => 0.0, Layout(t, 0), b) == Some(InternalLoad(t) as real)
  {
    TotalPathOfTrainingBucket(_ => 0.0, t, b, maxDepth);
    UncorrectedLeafCost(_ => 0.0, t, 0);
    LeafDepthsAreInternalLoad(t, 0);
  }

  /** Misplaced samples may balance out in the sum: in the example above both samples take one
      edge, as trained, though one of them ends in the other's leaf. */
  lemma MisroutedSumsAgree()
    ensures var t := Split(1.5, Leaf(1), Leaf(1));
            !ClearPath(t, 1.0) && TotalPath(_ => 0.0, Layout(t, 0), [1.0, 2.0]) == Some(InternalLoad(t) as real)
  {
    var t, b, c := Split(1.5, Leaf(1), Leaf(1)), [1.0, 2.0], (_: int) => 0.0;
    var nodes := Layout(t, 0);
    assert nodes[0..Count(t)] == nodes;
    WalkRefinesTree(nodes, t, 0, 1.0, 3);
    WalkRefinesTree(nodes, t, 0, 2.0, 3);
    PathLengthOfWalk(c, nodes, 0, 1.0, 0.0, 3);
    PathLengthOfWalk(c, nodes, 0, 2.0, 0.0, 3);
    assert b[1..] == [2.0] && b[1..][1..] == [];
    assert TotalPath(c, nodes, b[1..]) == Some(1.0);
    assert TotalPath(c, nodes, b) == Some(2.0);
    assert TotalPath(_ => 0.0, nodes, b) == TotalPath(c, nodes, b);
  }
}
