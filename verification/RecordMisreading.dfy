/** Reading blocks of lines out of step: each block and the blank line behind it give at most one
    record, so a reader that starts behind a block's first line never catches up with the records
    the blocks stand for. Lines end in a bare newline here. */
module RecordMisreading {
  import opened Sequences
  import opened Lines
  import opened RecordFile
  import opened RecordReading

  const NL := "\n"

  // ---------------------------------------------------------------- blocks of lines

  /** Some whole lines, none of them blank. */
  predicate Block(u: string) {
    (u != "" ==> u[|u| - 1] == LF) && LinesNotBlank(u)
  }

  /** What stands in the block behind `k` lines at most is no larger than `room`: an upper bound for
      the bodies that are read in it when the head of a record takes `k` lines. */
  predicate Roomy(u: string, k: nat, room: nat)
    decreases k
  {
    |Normalise(u)| <= room || (k > 0 && Roomy(AfterLine(u), k - 1, room))
  }

  lemma {:induction false} BlockStep(u: string)
    requires Block(u) && u != ""
    ensures Block(AfterLine(u)) && |AfterLine(u)| < |u| && Strip(Line(u)) != ""
    ensures |Normalise(u)| == |Strip(Line(u))| + 1 + |Normalise(AfterLine(u))|
  {
    FirstLineEnds(u);
  }

  lemma {:induction false} BlockRest(u: string)
    requires Block(u)
    ensures Block(AfterLine(u)) && |Normalise(AfterLine(u))| <= |Normalise(u)|
    ensures u != "" ==> |AfterLine(u)| < |u| && |Normalise(AfterLine(u))| < |Normalise(u)|
  {
    if u != "" {
      BlockStep(u);
    }
  }

  lemma {:induction false} RoomyMore(u: string, k: nat, room: nat, more: nat)
    requires Roomy(u, k, room) && room <= more
    ensures Roomy(u, k, more)
    decreases k
  {
    if |Normalise(u)| > room {
      RoomyMore(AfterLine(u), k - 1, room, more);
    }
  }

  /** Two lines less. */
  lemma {:induction false} TwoLines(u: string, k: nat, room: nat) returns (less: nat)
    requires Block(u) && Roomy(u, k, room)
    ensures var v := AfterLine(AfterLine(u));
            Block(v) && |v| <= |u| && (u != "" ==> |v| < |u|) && Roomy(v, less, room)
    ensures less == if k >= 2 then k - 2 else 0
  {
    var one := OneLine(u, k, room);
    less := OneLine(AfterLine(u), one, room);
  }

  lemma {:induction false} OneLine(u: string, k: nat, room: nat) returns (less: nat)
    requires Block(u) && Roomy(u, k, room)
    ensures var v := AfterLine(u);
            Block(v) && |v| <= |u| && (u != "" ==> |v| < |u|) && Roomy(v, less, room)
    ensures less == if k >= 1 then k - 1 else 0
  {
    BlockRest(u);
    less := if k >= 1 then k - 1 else 0;
  }

  /** Putting a line in front of a block. */
  lemma {:induction false} LineInFront(x: string, v: string, k: nat, room: nat)
    requires SingleLine(x) && Strip(x) != "" && Block(v) && v != "" && Roomy(v, k, room)
    ensures var u := x + (NL + v);
            Block(u) && u != "" && Roomy(u, k + 1, room) && |Normalise(u)| == |Strip(x)| + 1 + |Normalise(v)|
  {
    LineThen(x, NL, v);
    assert x + "" == x;
  }

  // ---------------------------------------------------------------- one turn of the reader

  /** What the reader does with the lines of a block from its first line on: it drops some of them,
      it drops all of them, it finds the head of a record in them, or it has a target and a rule
      when the block ends, so that the blank line behind it is taken for the status. */
  datatype Turn = Skip(rest: string) | Leave | Inside(rest: string) | Across

  function TurnOf(u: string): Turn {
    var u1 := AfterLine(u);
    if u1 == "" then Leave else if HasRule(Line(u1)) then HeadTurn(AfterLine(u1)) else Skip(AfterLine(u1))
  }

  /** The same behind a target and a rule. */
  function HeadTurn(u2: string): Turn {
    var u3 := AfterLine(u2);
    if u2 == "" then Across
    else if u3 == "" then Leave
    else if HasRule(Line(u3)) then Inside(AfterLine(u3)) else Skip(AfterLine(u3))
  }

  lemma {:induction false} EmptyHasNoRule()
    ensures !HasRule("")
  {}

  lemma {:induction false} BlankLine(t: string)
    ensures Line(NL + t) == "" && AfterLine(NL + t) == t && ParseRecords(NL + t) == ParseRecords(t)
  {
    assert [] + (NL + t) == NL + t;
    LineThen([], NL, t);
    BlankIsSkipped(NL, t);
  }

  lemma {:induction false} EmptyBlock(t: string)
    ensures ParseRecords("" + (NL + t)) == ParseRecords(t)
  {
    BlankLine(t);
    assert "" + (NL + t) == NL + t;
  }

  /** The lines of a block in front of a blank line are read as they are. */
  lemma {:induction false} BlockLine(u: string, t: string)
    requires Block(u) && u != ""
    ensures Line(u + (NL + t)) == Line(u) && AfterLine(u + (NL + t)) == AfterLine(u) + (NL + t)
    ensures Block(AfterLine(u)) && Strip(Line(u)) != ""
  {
    ReadsLineOf(u, NL + t);
    BlockStep(u);
  }

  /** A record whose head has been read: the body that starts at `s`, and what follows. */
  ghost predicate TakesRecord(parsed: seq<Record>, s: string, first: Record) {
    var (body, rest) := ParseBody(s, "");
    first.body == Field(body, BODY_SIZE) && parsed == [first] + ParseRecords(rest)
  }

  lemma {:induction false} ReadsHead(s: string, s1: string, s2: string, s3: string) returns (first: Record)
    requires s != "" && Strip(Line(s)) != "" && s1 == AfterLine(s) && s1 != "" && HasRule(Line(s1))
    requires s2 == AfterLine(s1) && s3 == AfterLine(s2) && s3 != ""
    ensures if HasRule(Line(s3)) then TakesRecord(ParseRecords(s), AfterLine(s3), first)
            else ParseRecords(s) == ParseRecords(AfterLine(s3))
  {
    var (body, rest) := ParseBody(AfterLine(s3), "");
    var status := if s2 == "" then 0 else Stoi(Line(s2));
    first := Record(Field(Strip(Line(s)), TARGET_SIZE), status, Field(body, BODY_SIZE));
  }

  /** What a turn makes of a block in front of a blank line and `t`. */
  ghost predicate ReadsAs(parsed: seq<Record>, turn: Turn, t: string, first: Record) {
    match turn
    case Skip(v) => parsed == ParseRecords(v + (NL + t))
    case Leave => parsed == ParseRecords(t)
    case Inside(v) => TakesRecord(parsed, v + (NL + t), first)
    case Across =>
      if HasRule(Line(t)) then TakesRecord(parsed, AfterLine(t), first) else parsed == ParseRecords(AfterLine(t))
  }

  lemma {:induction false} TurnReads(u: string, t: string) returns (first: Record)
    requires Block(u) && u != "" && t != ""
    ensures ReadsAs(ParseRecords(u + (NL + t)), TurnOf(u), t, first)
  {
    var u1 := AfterLine(u);
    if u1 != "" && HasRule(Line(u1)) {
      first := HeadReads(u, u1, AfterLine(u1), t);
    } else {
      first := Record("", 0, "");
      TargetReads(u, u1, t);
    }
  }

  /** A target without a rule behind it. */
  lemma {:induction false} TargetReads(u: string, u1: string, t: string)
    requires Block(u) && u != "" && u1 == AfterLine(u) && (u1 != "" ==> !HasRule(Line(u1)))
    ensures ParseRecords(u + (NL + t)) == if u1 == "" then ParseRecords(t) else ParseRecords(AfterLine(u1) + (NL + t))
  {
    EmptyHasNoRule();
    BlankLine(t);
    BlockLine(u, t);
    if u1 == "" {
      assert u1 + (NL + t) == NL + t;
    } else {
      BlockLine(u1, t);
    }
    ReadsPastTarget(u + (NL + t), u1 + (NL + t));
  }

  /** A target with a rule behind it. */
  lemma {:induction false} HeadReads(u: string, u1: string, u2: string, t: string) returns (first: Record)
    requires Block(u) && u != "" && t != ""
    requires u1 == AfterLine(u) && u1 != "" && HasRule(Line(u1)) && u2 == AfterLine(u1)
    ensures ReadsAs(ParseRecords(u + (NL + t)), HeadTurn(u2), t, first)
  {
    var tail := NL + t;
    var s, u3 := u + tail, AfterLine(u2);
    EmptyHasNoRule();
    BlankLine(t);
    BlockLine(u, t);
    BlockLine(u1, t);
    assert "" + tail == tail;
    if u2 == "" {
      first := ReadsHead(s, u1 + tail, tail, t);
    } else {
      BlockLine(u2, t);
      first := ReadsHead(s, u1 + tail, u2 + tail, u3 + tail);
      if u3 != "" {
        BlockLine(u3, t);
      }
    }
  }

  lemma {:induction false} TurnSkips(u: string, t: string, v: string)
    requires Block(u) && u != "" && t != "" && TurnOf(u) == Skip(v)
    ensures ParseRecords(u + (NL + t)) == ParseRecords(v + (NL + t))
  {
    var _ := TurnReads(u, t);
  }

  lemma {:induction false} TurnLeaves(u: string, t: string)
    requires Block(u) && u != "" && t != "" && TurnOf(u) == Leave
    ensures ParseRecords(u + (NL + t)) == ParseRecords(t)
  {
    var _ := TurnReads(u, t);
  }

  lemma {:induction false} TurnCrosses(u: string, t: string) returns (first: Record)
    requires Block(u) && u != "" && t != "" && TurnOf(u) == Across
    ensures var parsed := ParseRecords(u + (NL + t));
            if HasRule(Line(t)) then TakesRecord(parsed, AfterLine(t), first) else parsed == ParseRecords(AfterLine(t))
  {
    first := TurnReads(u, t);
  }

  // ---------------------------------------------------------------- gathering a body

  /** A body gathered from a block stops behind it, or once the field is full; then some lines of
      the block are left. */
  lemma {:induction false} Gathers(v: string, t: string, gathered: string) returns (left: string)
    requires Block(v) && |gathered| < BODY_SIZE
    ensures var (body, rest) := ParseBody(v + (NL + t), gathered);
            ParseRecords(rest) == ParseRecords(left + (NL + t)) && |body| <= |gathered| + |Normalise(v)|
    ensures Block(left) && (left == "" || |Normalise(left)| + BODY_SIZE <= |gathered| + |Normalise(v)|)
    decreases |v|
  {
    var tail := NL + t;
    BlankLine(t);
    assert "" + tail == tail;
    if v == "" {
      left := "";
    } else {
      BlockLine(v, t);
      BlockStep(v);
      var longer := gathered + (Strip(Line(v)) + "\n");
      if |longer| >= BODY_SIZE {
        left := AfterLine(v);
      } else {
        left := Gathers(AfterLine(v), t, longer);
      }
    }
  }

  lemma {:induction false} FieldIsShort(s: string, n: nat)
    ensures |Field(s, n)| <= |s|
  {}

  lemma {:induction false} TakenCount(parsed: seq<Record>, v: string, t: string, first: Record) returns (left: string)
    requires Block(v) && TakesRecord(parsed, v + (NL + t), first)
    ensures parsed == [first] + ParseRecords(left + (NL + t)) && |first.body| <= |Normalise(v)|
    ensures Block(left) && (left == "" || |Normalise(left)| + BODY_SIZE <= |Normalise(v)|)
  {
    left := Gathers(v, t, "");
    FieldIsShort(ParseBody(v + (NL + t), "").0, BODY_SIZE);
  }

  /** Behind a head that lies inside the block stands no more than its room. */
  lemma {:induction false} InsideRoom(u: string, v: string, k: nat, room: nat)
    requires Block(u) && TurnOf(u) == Inside(v) && k <= 4 && Roomy(u, k, room)
    ensures Block(v) && |Normalise(v)| <= room
  {
    var less := TwoLines(u, k, room);
    HeadRoom(AfterLine(AfterLine(u)), v, less, room);
  }

  lemma {:induction false} HeadRoom(u2: string, v: string, k: nat, room: nat)
    requires Block(u2) && HeadTurn(u2) == Inside(v) && k <= 2 && Roomy(u2, k, room)
    ensures Block(v) && |Normalise(v)| <= room
  {
    var less := TwoLines(u2, k, room);
  }

  /** A record whose head lies inside the block takes the block to its end. */
  lemma {:induction false} TurnEnters(u: string, t: string, v: string, k: nat, room: nat) returns (first: Record)
    requires Block(u) && u != "" && t != "" && TurnOf(u) == Inside(v)
    requires k <= 4 && Roomy(u, k, room) && room <= BODY_SIZE
    ensures ParseRecords(u + (NL + t)) == [first] + ParseRecords(t) && |first.body| <= room
  {
    first := TurnReads(u, t);
    InsideRoom(u, v, k, room);
    var left := TakenCount(ParseRecords(u + (NL + t)), v, t, first);
    NormaliseEmpty(left);
    EmptyBlock(t);
  }

  lemma {:induction false} NormaliseEmpty(s: string)
    ensures s != "" ==> |Normalise(s)| > 0
  {}

  // ---------------------------------------------------------------- texts of pieces

  /** A piece of text that stands for one record: the first line, the lines behind it, and a blank
      line or two. Its record has a body of `size` characters; what stands behind `few` of the lower
      lines is smaller than that, what stands behind `many` is no larger. */
  datatype Piece = Piece(line: string, lower: string, spaced: bool, few: nat, many: nat, size: nat)

  predicate IsLoneReturn(line: string) {
    |line| == 1 && line[0] == CR
  }

  predicate Sound(p: Piece) {
    && SingleLine(p.line) && (IsLoneReturn(p.line) || Strip(p.line) != "")
    && Block(p.lower) && p.lower != "" && 0 < p.size <= BODY_SIZE
    && p.few <= 4 && Roomy(p.lower, p.few, p.size - 1) && p.many <= 3 && Roomy(p.lower, p.many, p.size)
    && |Normalise(p.lower)| <= 20 + p.size
  }

  predicate AllSound(ps: seq<Piece>) {
    ps == [] || (Sound(ps[0]) && AllSound(ps[1..]))
  }

  function Behind(p: Piece, more: string): string {
    if p.spaced then NL + more else more
  }

  function PieceText(p: Piece, more: string): string {
    p.line + (NL + (p.lower + (NL + Behind(p, more))))
  }

  function Text(ps: seq<Piece>): string {
    if ps == [] then NL else PieceText(ps[0], Text(ps[1..]))
  }

  /** What may stand behind a block: the other pieces, and perhaps one more blank line. */
  predicate IsTail(t: string, ps: seq<Piece>) {
    t == Text(ps) || t == NL + Text(ps)
  }

  lemma {:induction false} LineFrontThen(x: string, v: string, tail: string)
    ensures (x + (NL + v)) + tail == x + (NL + (v + tail))
  {
    Associate(x, NL + v, tail);
    Associate(NL, v, tail);
  }

  lemma {:induction false} LoneReturnIsBlank(line: string, rest: string)
    requires IsLoneReturn(line)
    ensures ParseRecords(line + (NL + rest)) == ParseRecords(rest)
  {
    LineThen(line, NL, rest);
    assert line + "" == line;
  }

  /** A piece as the reader sees it: without a first line that counts as blank. */
  lemma {:induction false} PieceBlock(p: Piece, more: string) returns (u: string, k: nat)
    requires Sound(p)
    ensures Block(u) && k <= 4 && Roomy(u, k, p.size)
    ensures ParseRecords(PieceText(p, more)) == ParseRecords(u + (NL + Behind(p, more)))
  {
    if IsLoneReturn(p.line) {
      u, k := p.lower, p.many;
      LoneReturnIsBlank(p.line, p.lower + (NL + Behind(p, more)));
    } else {
      u, k := p.line + (NL + p.lower), p.many + 1;
      LineInFront(p.line, p.lower, p.many, p.size);
      LineFrontThen(p.line, p.lower, NL + Behind(p, more));
    }
  }

  // ---------------------------------------------------------------- counting

  /** Each piece ends at most one record that is read. */
  lemma {:induction false} TailCount(t: string, ps: seq<Piece>)
    requires IsTail(t, ps) && AllSound(ps)
    ensures |ParseRecords(t)| <= |ps|
    decreases |ps|, 0, 0
  {
    BlankLine(Text(ps));
    if ps == [] {
      BlankLine("");
      assert NL + "" == NL;
    } else {
      var u, k := PieceBlock(ps[0], Text(ps[1..]));
      AtMostOneEach(u, Behind(ps[0], Text(ps[1..])), ps[1..], k, ps[0].size);
    }
  }

  lemma {:induction false} TailNotEmpty(t: string, ps: seq<Piece>)
    requires IsTail(t, ps)
    ensures t != ""
  {}

  /** The lines of a block in front of such a tail give one record more at most. */
  lemma {:induction false} AtMostOneEach(u: string, t: string, ps: seq<Piece>, k: nat, room: nat)
    requires Block(u) && k <= 4 && Roomy(u, k, room) && room <= BODY_SIZE && IsTail(t, ps) && AllSound(ps)
    ensures |ParseRecords(u + (NL + t))| <= 1 + |ps|
    decreases |ps|, 1, |u|
  {
    TailCount(t, ps);
    TailNotEmpty(t, ps);
    if u == "" {
      EmptyBlock(t);
    } else {
      match TurnOf(u)
      case Skip(v) =>
        TurnSkips(u, t, v);
        var less := SkipShrinks(u, v, k, room);
        AtMostOneEach(v, t, ps, less, room);
      case Leave =>
        TurnLeaves(u, t);
      case Inside(v) =>
        var _ := TurnEnters(u, t, v, k, room);
      case Across =>
        var first := TurnCrosses(u, t);
        AcrossCount(ParseRecords(u + (NL + t)), t, ps, first);
    }
  }

  lemma {:induction false} SkipShrinks(u: string, v: string, k: nat, room: nat) returns (less: nat)
    requires Block(u) && u != "" && TurnOf(u) == Skip(v) && Roomy(u, k, room)
    ensures Block(v) && |v| < |u| && less <= k && Roomy(v, less, room)
  {
    less := TwoLines(u, k, room);
    if HasRule(Line(AfterLine(u))) {
      less := HeadSkipShrinks(AfterLine(AfterLine(u)), v, less, room);
    }
  }

  lemma {:induction false} HeadSkipShrinks(u2: string, v: string, k: nat, room: nat) returns (less: nat)
    requires Block(u2) && HeadTurn(u2) == Skip(v) && Roomy(u2, k, room)
    ensures Block(v) && |v| <= |u2| && less <= k && Roomy(v, less, room)
  {
    less := TwoLines(u2, k, room);
  }

  /** The first line of a tail is blank, or that of the next piece. */
  lemma {:induction false} AcrossTail(t: string, ps: seq<Piece>) returns (blank: bool)
    requires IsTail(t, ps) && AllSound(ps)
    ensures blank ==> !HasRule(Line(t)) && ParseRecords(AfterLine(t)) == ParseRecords(Text(ps))
    ensures !blank ==> ps != [] && AfterLine(t) == ps[0].lower + (NL + Behind(ps[0], Text(ps[1..])))
  {
    EmptyHasNoRule();
    BlankLine(Text(ps));
    blank := t == NL + Text(ps) || ps == [];
    if !blank {
      LineThen(ps[0].line, NL, ps[0].lower + (NL + Behind(ps[0], Text(ps[1..]))));
    } else if ps == [] {
      BlankLine("");
      assert NL + "" == NL;
    }
  }

  /** A record read across the blank line uses up the first line of the piece behind it. */
  lemma {:induction false} AcrossCount(parsed: seq<Record>, t: string, ps: seq<Piece>, first: Record)
    requires IsTail(t, ps) && AllSound(ps)
    requires if HasRule(Line(t)) then TakesRecord(parsed, AfterLine(t), first) else parsed == ParseRecords(AfterLine(t))
    ensures |parsed| <= 1 + |ps|
    decreases |ps|, 0, 1
  {
    var blank := AcrossTail(t, ps);
    if blank {
      TailCount(Text(ps), ps);
    } else {
      var p, next := ps[0], Behind(ps[0], Text(ps[1..]));
      if HasRule(Line(t)) {
        var left := TakenCount(parsed, p.lower, next, first);
        AtMostOneEach(left, next, ps[1..], 0, |Normalise(left)|);
      } else {
        AtMostOneEach(p.lower, next, ps[1..], p.many, p.size);
      }
    }
  }

  // ---------------------------------------------------------------- the first record out of step

  /** The records that the pieces stand for, as far as the sizes of their bodies tell. */
  predicate Sized(ps: seq<Piece>, xs: seq<Record>) {
    |ps| == |xs| && (ps == [] || (|xs[0].body| == ps[0].size && Sized(ps[1..], xs[1..])))
  }

  /** A block with less room than the body of `x` takes, in front of pieces that stand for `xs`, is
      never read as `x` and `xs`: either its first record is too short, or there are too few. */
  lemma {:induction false} NeverCatchesUp(
      u: string, t: string, ps: seq<Piece>, x: Record, xs: seq<Record>, k: nat, room: nat)
    requires Block(u) && k <= 4 && Roomy(u, k, room) && room < |x.body| <= BODY_SIZE
    requires IsTail(t, ps) && AllSound(ps) && Sized(ps, xs)
    ensures ParseRecords(u + (NL + t)) != [x] + xs
    decreases |ps|, 1, |u|
  {
    TailCount(t, ps);
    TailNotEmpty(t, ps);
    if u == "" {
      EmptyBlock(t);
    } else {
      match TurnOf(u)
      case Skip(v) =>
        TurnSkips(u, t, v);
        var less := SkipShrinks(u, v, k, room);
        NeverCatchesUp(v, t, ps, x, xs, less, room);
      case Leave =>
        TurnLeaves(u, t);
      case Inside(v) =>
        var first := TurnEnters(u, t, v, k, room);
        OtherFirst(first, ParseRecords(t), x, xs);
      case Across =>
        var first := TurnCrosses(u, t);
        AcrossNeverCatchesUp(ParseRecords(u + (NL + t)), t, ps, first, x, xs);
    }
  }

  lemma {:induction false} OtherFirst(a: Record, more: seq<Record>, b: Record, rest: seq<Record>)
    requires |a.body| < |b.body|
    ensures [a] + more != [b] + rest
  {
    assert ([a] + more)[0] == a && ([b] + rest)[0] == b;
  }

  lemma {:induction false} AcrossNeverCatchesUp(
      parsed: seq<Record>, t: string, ps: seq<Piece>, first: Record, x: Record, xs: seq<Record>)
    requires IsTail(t, ps) && AllSound(ps) && Sized(ps, xs)
    requires if HasRule(Line(t)) then TakesRecord(parsed, AfterLine(t), first) else parsed == ParseRecords(AfterLine(t))
    ensures parsed != [x] + xs
    decreases |ps|, 0, 2
  {
    var blank := AcrossTail(t, ps);
    if blank {
      TailCount(Text(ps), ps);
    } else {
      var p, next := ps[0], Behind(ps[0], Text(ps[1..]));
      if HasRule(Line(t)) {
        var left := TakenCount(parsed, p.lower, next, first);
        RestNeverCatchesUp(left, next, p.size, ps[1..], xs[0], xs[1..]);
        HeadAndTail(xs);
        OtherRest(first, ParseRecords(left + (NL + next)), x, xs);
      } else {
        AtMostOneEach(p.lower, next, ps[1..], p.many, p.size);
      }
    }
  }

  /** What is left of a body that was read across its own head is too little for its record. */
  lemma {:induction false} RestNeverCatchesUp(
      left: string, t: string, size: nat, ps: seq<Piece>, x: Record, xs: seq<Record>)
    requires IsTail(t, ps) && AllSound(ps) && Block(left) && size <= BODY_SIZE
    requires |x.body| == size && Sized(ps, xs) && (left == "" || |Normalise(left)| < size)
    ensures ParseRecords(left + (NL + t)) != [x] + xs
    decreases |ps|, 2
  {
    if left == "" {
      TailCount(t, ps);
      EmptyBlock(t);
    } else {
      NeverCatchesUp(left, t, ps, x, xs, 0, |Normalise(left)|);
    }
  }

  lemma {:induction false} OtherRest(a: Record, more: seq<Record>, b: Record, rest: seq<Record>)
    requires more != rest
    ensures [a] + more != [b] + rest
  {
    assert ([a] + more)[1..] == more && ([b] + rest)[1..] == rest;
  }

  /** A piece whose first line counts as blank is never read as its record. */
  lemma {:induction false} LoneReturnMisses(p: Piece, ps: seq<Piece>, x: Record, xs: seq<Record>)
    requires Sound(p) && IsLoneReturn(p.line) && |x.body| == p.size && AllSound(ps) && Sized(ps, xs)
    ensures ParseRecords(PieceText(p, Text(ps))) != [x] + xs
  {
    var next := Behind(p, Text(ps));
    LoneReturnIsBlank(p.line, p.lower + (NL + next));
    NeverCatchesUp(p.lower, next, ps, x, xs, p.few, p.size - 1);
  }
}
