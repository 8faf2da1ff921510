/** The text file a trained forest is kept in: what `writeTreeTrainingData` prints and what the
    stream extractions of `LoadModel` read back. */
module ForestFile {
  import opened Wrappers
  import opened Decimal
  import opened Sequences
  import opened IsolationTree

  const SIZE_MAX: int := 0xffff_ffff_ffff_ffff

  /** Every number of the node is a 32-bit `int`, as the fields of `iTreeNodes` are. */
  predicate Fits(n: Node) {
    && -0x8000_0000 <= n.left <= 0x7fff_ffff && -0x8000_0000 <= n.right <= 0x7fff_ffff
    && -0x8000_0000 <= n.size <= 0x7fff_ffff && -0x8000_0000 <= n.split <= 0x7fff_ffff
  }

  predicate ForestFits(forest: seq<seq<Node>>) {
    forall t | t in forest :: |t| <= 0xffff_ffff_ffff_ffff && forall n | n in t :: Fits(n)
  }

  // ---------------------------------------------------------------- printing

  /** A number and the separator that follows it, in front of `more`. */
  function Field(i: int, separator: char, more: string): string {
    Show(i) + ([separator] + more)
  }

  function LeafFlag(n: Node): int {
    if n.isLeaf then 1 else 0
  }

  function PrintNode(n: Node): string {
    Field(n.left, ' ', Field(n.right, ' ', Field(LeafFlag(n), ' ', Field(n.size, ' ', Field(n.split, '\n', "")))))
  }

  function PrintNodes(nodes: seq<Node>): string {
    if nodes == [] then "" else PrintNodes(nodes[..|nodes| - 1]) + PrintNode(nodes[|nodes| - 1])
  }

  function PrintTree(nodes: seq<Node>): string {
    TREE_START + (" " + Field(|nodes|, '\n', PrintNodes(nodes) + (TREE_END + "\n")))
  }

  function PrintForest(forest: seq<seq<Node>>): string {
    if forest == [] then "" else PrintTree(forest[0]) + PrintForest(forest[1..])
  }

  /** One line for a node: the child indices, the leaf flag, the size and the stored cut. */
  lemma NodeText(n: Node)
    ensures PrintNode(n) ==
            Show(n.left) + (" " + (Show(n.right) + (" " + (Show(if n.isLeaf then 1 else 0)
            + (" " + (Show(n.size) + (" " + (Show(n.split) + "\n"))))))))
  {
    assert ['\n'] + "" == "\n";
  }

  lemma NodesText(nodes: seq<Node>, n: Node)
    ensures PrintNodes([]) == "" && PrintNodes(nodes + [n]) == PrintNodes(nodes) + PrintNode(n)
  {
    assert (nodes + [n])[..|nodes|] == nodes;
  }

  /** The opening word, the number of nodes, their lines, and the closing word. */
  lemma TreeText(nodes: seq<Node>)
    ensures PrintTree(nodes) ==
            "TREE_START" + (" " + (Show(|nodes|) + ("\n" + (PrintNodes(nodes) + ("TREE_END" + "\n")))))
  {}

  lemma SmallNumbers()
    ensures Show(-1) == "-1" && Show(0) == "0" && Show(1) == "1" && Show(2) == "2"
  {
    DigitCharacter(0);
    DigitCharacter(1);
    DigitCharacter(2);
    assert Digits(0) == "0" && Digits(1) == "1" && Digits(2) == "2";
    ShowsSign(1);
  }

  lemma SampleLine(n: Node)
    requires n == Node(-1, -1, 2, true, 0)
    ensures PrintNode(n) == "-1 -1 1 2 0\n"
  {
    SmallNumbers();
    NodeText(n);
  }

  lemma SampleLines(line: string)
    requires line == "-1 -1 1 2 0\n"
    ensures "TREE_START" + (" " + ("1" + ("\n" + (line + ("TREE_END" + "\n"))))) ==
            "TREE_START 1\n-1 -1 1 2 0\nTREE_END\n"
  {}

  /** The file of one tree with one node. */
  lemma SampleForest(n: Node)
    requires n == Node(-1, -1, 2, true, 0)
    ensures PrintForest([[n]]) == "TREE_START 1\n-1 -1 1 2 0\nTREE_END\n"
  {
    SampleLine(n);
    SmallNumbers();
    NodesText([], n);
    assert [] + [n] == [n] && "" + PrintNode(n) == PrintNode(n);
    TreeText([n]);
    SampleLines(PrintNode(n));
    assert [[n]][1..] == [];
    assert PrintForest([]) == "" && PrintTree([n]) + "" == PrintTree([n]);
  }

  // ---------------------------------------------------------------- stream extraction

  function WordLength(s: string): (n: nat)
    ensures n <= |s|
  {
    if s == [] || IsSpace(s[0]) then 0 else 1 + WordLength(s[1..])
  }

  /** Extraction of a word: the next one and the text after it. */
  function ReadWord(s: string): (r: Option<(string, string)>)
    ensures r.Some? ==> |r.value.1| < |s|
  {
    var t := SkipSpace(s);
    var n := WordLength(t);
    if n == 0 then None else Some((t[..n], t[n..]))
  }

  /** The first `k` extractions of a node line; the third one is the 0/1 leaf flag. */
  function ReadFields(s: string, k: nat): (r: Option<(seq<int>, string)>)
    ensures r.Some? ==> |r.value.0| == k && |r.value.1| + k <= |s|
  {
    if k == 0 then Some(([], s)) else
      match ReadFields(s, k - 1)
      case None => None
      case Some((values, rest)) =>
        match if k == 3 then ReadInt(rest, 0, 1) else ReadInt(rest, INT_MIN, INT_MAX)
        case None => None
        case Some((value, end)) => Some((values + [value], end))
  }

  /** The five extractions of one node. `None` when one of them fails: the source then goes on
      with fields whose values are not determined. */
  function ReadNode(s: string): (r: Option<(Node, string)>)
    ensures r.Some? ==> |r.value.1| < |s|
  {
    match ReadFields(s, 5)
    case None => None
    case Some((v, rest)) => Some((Node(v[0], v[1], v[3], v[2] == 1, v[4]), rest))
  }

  function ReadNodes(s: string, count: nat): (r: Option<(seq<Node>, string)>)
    ensures r.Some? ==> |r.value.1| <= |s|
    decreases count
  {
    if count == 0 then Some(([], s)) else
      match ReadNodes(s, count - 1)
      case None => None
      case Some((nodes, rest)) =>
        match ReadNode(rest)
        case None => None
        case Some((node, end)) => Some((nodes + [node], end))
  }

  /** The nodes that are read before the first one that cannot be. */
  function GoodNodes(s: string, count: nat): seq<Node> {
    if count == 0 then [] else
      match ReadNodes(s, count)
      case Some((nodes, _)) => nodes
      case None => GoodNodes(s, count - 1)
  }

  /** No number stands at the head of the text, of whatever size. */
  predicate NoNumber(s: string) {
    var t := SkipSpace(s);
    DigitRun(if t != [] && (t[0] == '-' || t[0] == '+') then t[1..] else t) == 0
  }

  /** What follows the tag that opens a tree. `Broken`: some field of the node behind `nodes` is
      not a number in range. `Uncounted`: the node count is no number. `Oversized`: it is a number,
      but not one from 0 to SIZE_MAX, and the program ends. */
  datatype TreeReading =
    | Tree(nodes: seq<Node>, rest: string)
    | Broken(nodes: seq<Node>, count: nat)
    | Uncounted
    | Oversized

  /** The node count, the nodes, and one more word, which is consumed whatever it is. */
  function ReadTree(s: string): (r: TreeReading)
    ensures r.Tree? ==> |r.rest| < |s|
  {
    match ReadInt(s, 0, SIZE_MAX)
    case None => if NoNumber(s) then Uncounted else Oversized
    case Some((count, s1)) =>
      match ReadNodes(s1, count)
      case None => Broken(GoodNodes(s1, count), count)
      case Some((nodes, s2)) =>
        match ReadWord(s2)
        case None => Tree(nodes, "")
        case Some((_, s3)) => Tree(nodes, s3)
  }

  const TREE_START := "TREE_START"
  const TREE_END := "TREE_END"

  /** The trees of a file, all of them or those before the first number that cannot be read. */
  datatype Reading =
    | Whole(trees: seq<seq<Node>>)
    | CutInNode(trees: seq<seq<Node>>, nodes: seq<Node>, count: nat)
    | CutInCount(trees: seq<seq<Node>>)
    | Aborted(trees: seq<seq<Node>>)

  function Prepend(tree: seq<Node>, r: Reading): Reading {
    r.(trees := [tree] + r.trees)
  }

  /** Words other than the tag that opens a tree are passed over. */
  function ReadForest(s: string): Reading
    decreases |s|
  {
    match ReadWord(s)
    case None => Whole([])
    case Some((tag, s1)) =>
      if tag != TREE_START then ReadForest(s1) else
        match ReadTree(s1)
        case Uncounted => CutInCount([])
        case Oversized => Aborted([])
        case Broken(nodes, count) => CutInNode([], nodes, count)
        case Tree(nodes, s2) => Prepend(nodes, ReadForest(s2))
  }

  /** Any other word in front of the trees changes nothing. */
  lemma OtherWordsArePassed(w: string, text: string)
    requires w != [] && w != "TREE_START" && forall i | 0 <= i < |w| :: !IsSpace(w[i])
    ensures ReadForest(w + (" " + text)) == ReadForest(text)
  {
    ReadsWordBack(w, " " + text);
    ReadForestSkips(' ', text);
  }

  /** Where the nodes of a broken tree stop, none can be read. */
  lemma {:induction false} GoodNodesStop(s: string, count: nat) returns (i: nat, rest: string)
    requires ReadNodes(s, count).None?
    ensures i < count && ReadNodes(s, i) == Some((GoodNodes(s, count), rest)) && ReadNode(rest).None?
  {
    match ReadNodes(s, count - 1)
    case Some((_, more)) =>
      i, rest := count - 1, more;
    case None =>
      i, rest := GoodNodesStop(s, count - 1);
  }

  // ---------------------------------------------------------------- round trip

  lemma {:induction false} WordLengthStops(w: string, rest: string)
    requires forall i | 0 <= i < |w| :: !IsSpace(w[i])
    requires rest == [] || IsSpace(rest[0])
    ensures WordLength(w + rest) == |w|
  {
    if w == [] {
      assert w + rest == rest;
    } else {
      assert (w + rest)[1..] == w[1..] + rest;
      assert forall i | 0 <= i < |w[1..]| :: w[1..][i] == w[i + 1];
      WordLengthStops(w[1..], rest);
    }
  }

  lemma ReadsWordBack(w: string, rest: string)
    requires w != [] && forall i | 0 <= i < |w| :: !IsSpace(w[i])
    requires rest == [] || IsSpace(rest[0])
    ensures ReadWord(w + rest) == Some((w, rest))
  {
    WordLengthStops(w, rest);
    assert !IsSpace((w + rest)[0]);
  }

  lemma ReadWordSkips(c: char, s: string)
    requires IsSpace(c)
    ensures ReadWord([c] + s) == ReadWord(s)
  {
    assert ([c] + s)[1..] == s;
  }

  /** A number that follows a separator is read back, and reading stops right behind it. */
  lemma ReadsFieldBack(c: char, i: int, separator: char, more: string, lo: int, hi: int)
    requires IsSpace(c) && IsSpace(separator) && lo <= i <= hi
    ensures ReadInt([c] + Field(i, separator, more), lo, hi) == Some((i, [separator] + more))
  {
    ReadIntSkips(c, Field(i, separator, more), lo, hi);
    ReadsIntBack(i, [separator] + more, lo, hi);
  }

  lemma FieldThen(i: int, separator: char, more: string, rest: string)
    ensures Field(i, separator, more) + rest == Field(i, separator, more + rest)
  {
    Associate(Show(i), [separator] + more, rest);
    Associate([separator], more, rest);
  }

  /** Two numbers in a row, as fields k + 1 and k + 2 of a node line. */
  lemma ReadsTwoFields(text: string, k: nat, values: seq<int>, c: char, i: int, j: int, separator: char, more: string)
    requires IsSpace(c) && IsSpace(separator) && k != 1 && k != 2
    requires INT_MIN <= i <= INT_MAX && INT_MIN <= j <= INT_MAX
    requires ReadFields(text, k) == Some((values, [c] + Field(i, ' ', Field(j, separator, more))))
    ensures ReadFields(text, k + 2) == Some((values + [i] + [j], [separator] + more))
  {
    var rest := Field(j, separator, more);
    ReadsFieldBack(c, i, ' ', rest, INT_MIN, INT_MAX);
    ReadFieldsStep(text, k + 1, values, [c] + Field(i, ' ', rest), i, " " + rest);
    ReadsFieldBack(' ', j, separator, more, INT_MIN, INT_MAX);
    ReadFieldsStep(text, k + 2, values + [i], " " + rest, j, [separator] + more);
  }

  /** The text of a node in front of more text. */
  lemma NodeThen(n: Node, rest: string)
    ensures PrintNode(n) + rest ==
            Field(n.left, ' ', Field(n.right, ' ',
              Field(LeafFlag(n), ' ', Field(n.size, ' ', Field(n.split, '\n', rest)))))
  {
    var e5 := Field(n.split, '\n', "");
    var e4 := Field(n.size, ' ', e5);
    var e3 := Field(LeafFlag(n), ' ', e4);
    FieldThen(n.left, ' ', Field(n.right, ' ', e3), rest);
    FieldThen(n.right, ' ', e3, rest);
    FieldThen(LeafFlag(n), ' ', e4, rest);
    FieldThen(n.size, ' ', e5, rest);
    FieldThen(n.split, '\n', "", rest);
    assert "" + rest == rest;
  }

  lemma ReadsFlag(text: string, values: seq<int>, n: Node, tail: string)
    requires ReadFields(text, 2) == Some((values, " " + Field(LeafFlag(n), ' ', tail)))
    ensures ReadFields(text, 3) == Some((values + [LeafFlag(n)], " " + tail))
  {
    ReadsFieldBack(' ', LeafFlag(n), ' ', tail, 0, 1);
    ReadFieldsStep(text, 3, values, " " + Field(LeafFlag(n), ' ', tail), LeafFlag(n), " " + tail);
  }

  lemma ReadsFirstThree(text: string, n: Node, tail: string)
    requires Fits(n)
    requires text == ['\n'] + Field(n.left, ' ', Field(n.right, ' ', Field(LeafFlag(n), ' ', tail)))
    ensures ReadFields(text, 3) == Some(([] + [n.left] + [n.right] + [LeafFlag(n)], " " + tail))
  {
    ReadsTwoFields(text, 0, [], '\n', n.left, n.right, ' ', Field(LeafFlag(n), ' ', tail));
    ReadsFlag(text, [] + [n.left] + [n.right], n, tail);
  }

  lemma FieldsMakeNode(text: string, v: seq<int>, n: Node, rest: string)
    requires ReadFields(text, 5) == Some((v, rest))
    requires v == [] + [n.left] + [n.right] + [LeafFlag(n)] + [n.size] + [n.split]
    ensures ReadNode(text) == Some((n, rest))
  {}

  /** A printed node reads back as itself, up to the newline that ends it. */
  lemma ReadsNodeBack(n: Node, rest: string)
    requires Fits(n)
    ensures ReadNode("\n" + (PrintNode(n) + rest)) == Some((n, "\n" + rest))
  {
    var text := "\n" + (PrintNode(n) + rest);
    var three := [] + [n.left] + [n.right] + [LeafFlag(n)];
    NodeThen(n, rest);
    ReadsFirstThree(text, n, Field(n.size, ' ', Field(n.split, '\n', rest)));
    ReadsTwoFields(text, 3, three, ' ', n.size, n.split, '\n', rest);
    FieldsMakeNode(text, three + [n.size] + [n.split], n, "\n" + rest);
  }

  lemma ReadFieldsStep(s: string, k: nat, values: seq<int>, rest: string, value: int, end: string)
    requires k > 0 && ReadFields(s, k - 1) == Some((values, rest))
    requires (if k == 3 then ReadInt(rest, 0, 1) else ReadInt(rest, INT_MIN, INT_MAX)) == Some((value, end))
    ensures ReadFields(s, k) == Some((values + [value], end))
  {}

  lemma ReadNodesStep(s: string, count: nat, nodes: seq<Node>, rest: string, node: Node, end: string)
    requires count > 0 && ReadNodes(s, count - 1) == Some((nodes, rest)) && ReadNode(rest) == Some((node, end))
    ensures ReadNodes(s, count) == Some((nodes + [node], end))
  {}

  lemma ReadNodesStops(s: string, count: nat, nodes: seq<Node>, rest: string)
    requires count > 0 && ReadNodes(s, count - 1) == Some((nodes, rest)) && ReadNode(rest).None?
    ensures ReadNodes(s, count).None?
  {}

  lemma {:induction false} ReadsNodesBack(nodes: seq<Node>, rest: string, text: string)
    requires forall n | n in nodes :: Fits(n)
    requires text == "\n" + (PrintNodes(nodes) + rest)
    ensures ReadNodes(text, |nodes|) == Some((nodes, "\n" + rest))
    decreases nodes
  {
    if nodes == [] {
      assert PrintNodes(nodes) + rest == rest;
    } else {
      var front, last := nodes[..|nodes| - 1], nodes[|nodes| - 1];
      var line := PrintNode(last);
      Associate(PrintNodes(front), line, rest);
      ReadsNodesBack(front, line + rest, text);
      ReadsNodeBack(last, rest);
      ReadNodesStep(text, |nodes|, front, "\n" + (line + rest), last, "\n" + rest);
      FrontAndLast(nodes);
    }
  }

  lemma TreeThen(nodes: seq<Node>, more: string)
    ensures PrintTree(nodes) + more ==
            TREE_START + (" " + Field(|nodes|, '\n', PrintNodes(nodes) + (TREE_END + ("\n" + more))))
  {
    var end := TREE_END + "\n";
    var body := PrintNodes(nodes) + end;
    Associate(TREE_START, " " + Field(|nodes|, '\n', body), more);
    Associate(" ", Field(|nodes|, '\n', body), more);
    FieldThen(|nodes|, '\n', body, more);
    Associate(PrintNodes(nodes), end, more);
    Associate(TREE_END, "\n", more);
  }

  lemma ReadsCloseBack(more: string)
    requires more == [] || IsSpace(more[0])
    ensures ReadWord("\n" + (TREE_END + more)) == Some((TREE_END, more))
  {
    ReadWordSkips('\n', TREE_END + more);
    ReadsWordBack(TREE_END, more);
  }

  lemma ReadsOpenBack(body: string)
    requires body != [] && IsSpace(body[0])
    ensures ReadWord(TREE_START + body) == Some((TREE_START, body))
  {
    ReadsWordBack(TREE_START, body);
  }

  /** The text of a tree behind its opening tag gives back the nodes and the text behind it. */
  lemma ReadsTreeBodyBack(nodes: seq<Node>, more: string)
    requires |nodes| <= SIZE_MAX && forall n | n in nodes :: Fits(n)
    requires more == [] || IsSpace(more[0])
    ensures ReadTree(" " + Field(|nodes|, '\n', PrintNodes(nodes) + (TREE_END + more))) == Tree(nodes, more)
  {
    var s2 := TREE_END + more;
    ReadsFieldBack(' ', |nodes|, '\n', PrintNodes(nodes) + s2, 0, SIZE_MAX);
    ReadsNodesBack(nodes, s2, "\n" + (PrintNodes(nodes) + s2));
    ReadsCloseBack(more);
  }

  lemma ReadsTreeBack(nodes: seq<Node>, more: string)
    requires |nodes| <= SIZE_MAX && forall n | n in nodes :: Fits(n)
    ensures ReadForest(PrintTree(nodes) + more) == Prepend(nodes, ReadForest("\n" + more))
  {
    var body := " " + Field(|nodes|, '\n', PrintNodes(nodes) + (TREE_END + ("\n" + more)));
    TreeThen(nodes, more);
    ReadsOpenBack(body);
    ReadsTreeBodyBack(nodes, "\n" + more);
  }

  lemma ReadForestSkips(c: char, s: string)
    requires IsSpace(c)
    ensures ReadForest([c] + s) == ReadForest(s)
  {
    ReadWordSkips(c, s);
  }

  lemma {:induction false} ReadsForestAfterNewline(forest: seq<seq<Node>>)
    requires ForestFits(forest)
    ensures ReadForest("\n" + PrintForest(forest)) == Whole(forest)
  {
    if forest == [] {
      ReadForestSkips('\n', "");
    } else {
      ReadsForestAfterNewline(forest[1..]);
      ReadsTreeBack(forest[0], PrintForest(forest[1..]));
      ReadForestSkips('\n', PrintForest(forest));
      HeadAndTail(forest);
    }
  }

  /** Reading what was printed gives the identical forest: signed child indices, leaf flags,
      sizes, stored cuts and the order of the trees. */
  lemma ForestRoundTrip(forest: seq<seq<Node>>)
    requires ForestFits(forest)
    ensures ReadForest(PrintForest(forest)) == Whole(forest)
  {
    ReadsForestAfterNewline(forest);
    ReadForestSkips('\n', PrintForest(forest));
  }
}
