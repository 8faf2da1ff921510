/** Printed records as pieces of text, and that a target which is a lone carriage return, in a file
    with bare newlines, keeps a list from coming back. */
module RecordPieces {
  import opened Decimal
  import opened Lines
  import opened RecordFile
  import opened RecordReading
  import opened RecordMisreading

  /** The lines of a printed record behind its target. */
  function Lower(r: Record): string {
    RULE + (NL + (Show(r.status) + (NL + (RULE + (NL + Terminated(r.body, NL))))))
  }

  function Power10(n: nat): nat {
    if n == 0 then 1 else 10 * Power10(n - 1)
  }

  lemma {:induction false} DigitsAtMost(n: nat, k: nat)
    requires k > 0 && n < Power10(k)
    ensures |Digits(n)| <= k
    decreases k
  {
    if n >= 10 {
      DigitsAtMost(n / 10, k - 1);
    }
  }

  lemma {:induction false} StatusIsShort(i: int)
    requires INT_MIN <= i <= INT_MAX
    ensures |Show(i)| <= 11
  {
    assert Power10(5) == 100000;
    assert Power10(10) == 1_0000_000000;
    DigitsAtMost(if i < 0 then -i else i, 10);
  }

  lemma {:induction false} PlainLine(x: string)
    requires SingleLine(x) && x != "" && x[|x| - 1] != CR
    ensures Strip(x) == x != ""
  {}

  lemma {:induction false} StatusLine(i: int)
    ensures SingleLine(Show(i)) && Strip(Show(i)) == Show(i) != ""
  {
    var ds := Digits(if i < 0 then -i else i);
    ShowIsPlain(i);
    assert IsDigit(ds[|ds| - 1]) && Show(i)[|Show(i)| - 1] == ds[|ds| - 1];
    PlainLine(Show(i));
  }

  /** Behind the body stand the three lower lines of its head. */
  lemma {:induction false} LowerIsBlock(r: Record, k: nat, room: nat)
    requires Printable(r) && FitsFields(r, NL) && Roomy(Terminated(r.body, NL), k, room)
    ensures Block(Lower(r)) && Lower(r) != "" && Roomy(Lower(r), k + 3, room)
    ensures |Normalise(Lower(r))| <= 20 + |Normalise(Terminated(r.body, NL))|
  {
    var body := Terminated(r.body, NL);
    var h2 := RULE + (NL + body);
    var h1 := Show(r.status) + (NL + h2);
    RuleIsFound(NL);
    PlainLine(RULE);
    StatusLine(r.status);
    StatusIsShort(r.status);
    LineInFront(RULE, body, k, room);
    LineInFront(Show(r.status), h2, k + 1, room);
    LineInFront(RULE, h1, k + 2, room);
  }

  /** The room of a body, and behind its first line. */
  lemma {:induction false} BodyRoom(body: string) returns (none: nat, one: nat)
    requires Block(body) && body != ""
    ensures |Normalise(body)| > 0 && none <= 0 && Roomy(body, none, |Normalise(body)|)
    ensures one <= 1 && Roomy(body, one, |Normalise(body)| - 1)
  {
    none, one := 0, 1;
    BlockRest(body);
    NormaliseEmpty(body);
  }

  lemma {:induction false} FewLines(r: Record, body: string, size: nat) returns (few: nat)
    requires Printable(r) && FitsFields(r, NL) && body == Terminated(r.body, NL) && size == |Normalise(body)|
    ensures size > 0 && few <= 4 && Roomy(Lower(r), few, size - 1)
  {
    var none, one := BodyRoom(body);
    LowerIsBlock(r, one, size - 1);
    few := one + 3;
  }

  lemma {:induction false} ManyLines(r: Record, body: string, size: nat) returns (many: nat)
    requires Printable(r) && FitsFields(r, NL) && body == Terminated(r.body, NL) && size == |Normalise(body)|
    ensures Block(Lower(r)) && Lower(r) != "" && many <= 3 && Roomy(Lower(r), many, size)
    ensures |Normalise(Lower(r))| <= 20 + size
  {
    var none, one := BodyRoom(body);
    LowerIsBlock(r, none, size);
    many := none + 3;
  }

  lemma {:induction false} LowerIsSound(r: Record) returns (few: nat, many: nat, size: nat)
    requires Printable(r) && FitsFields(r, NL)
    ensures Block(Lower(r)) && Lower(r) != "" && 0 < size == |Normalise(Terminated(r.body, NL))| <= BODY_SIZE
    ensures few <= 4 && Roomy(Lower(r), few, size - 1) && many <= 3 && Roomy(Lower(r), many, size)
    ensures |Normalise(Lower(r))| <= 20 + size
  {
    var body := Terminated(r.body, NL);
    size := |Normalise(body)|;
    few := FewLines(r, body, size);
    many := ManyLines(r, body, size);
  }

  /** A printed record in front of more text, as its target, the lines behind that, and one blank
      line or two. */
  lemma {:induction false} PrintedParts(r: Record, more: string) returns (spaced: bool)
    ensures PrintRecord(r, NL, more) ==
            r.target + (NL + (Lower(r) + (NL + (if spaced then NL + more else more))))
  {
    var next := BodySpan(r.body, NL, more);
    spaced := next != more;
    var body, tail := Terminated(r.body, NL), NL + next;
    var h2 := RULE + (NL + body);
    var h1 := Show(r.status) + (NL + h2);
    LineFrontThen(RULE, body, tail);
    LineFrontThen(Show(r.status), h2, tail);
    LineFrontThen(RULE, h1, tail);
  }

  lemma {:induction false} TargetIsFirstLine(target: string)
    requires SingleLine(target) && target != ""
    ensures IsLoneReturn(target) || Strip(target) != ""
  {}

  /** The piece that a printed record is. */
  lemma {:induction false} PieceOf(r: Record, more: string) returns (p: Piece)
    requires Printable(r) && FitsFields(r, NL) && SingleLine(r.target)
    ensures Sound(p) && p.line == r.target && p.size == |Expected(r, NL).body|
    ensures PrintRecord(r, NL, more) == PieceText(p, more)
  {
    var spaced := PrintedParts(r, more);
    p := SoundPiece(r, spaced);
  }

  lemma {:induction false} SoundPiece(r: Record, spaced: bool) returns (p: Piece)
    requires Printable(r) && FitsFields(r, NL) && SingleLine(r.target)
    ensures Sound(p) && p.line == r.target && p.lower == Lower(r) && p.spaced == spaced
    ensures p.size == |Normalise(Terminated(r.body, NL))|
  {
    var few, many, size := LowerIsSound(r);
    TargetIsFirstLine(r.target);
    p := Piece(r.target, Lower(r), spaced, few, many, size);
    ConjoinSound(p);
  }

  lemma {:induction false} ConjoinSound(p: Piece)
    requires SingleLine(p.line) && (IsLoneReturn(p.line) || Strip(p.line) != "")
    requires Block(p.lower) && p.lower != "" && 0 < p.size <= BODY_SIZE
    requires p.few <= 4 && Roomy(p.lower, p.few, p.size - 1) && p.many <= 3 && Roomy(p.lower, p.many, p.size)
    requires |Normalise(p.lower)| <= 20 + p.size
    ensures Sound(p)
  {}

  lemma {:induction false} PiecesOf(rs: seq<Record>) returns (ps: seq<Piece>)
    requires forall r | r in rs :: Printable(r) && FitsFields(r, NL) && SingleLine(r.target)
    ensures AllSound(ps) && Text(ps) == PrintRecords(rs, NL) && Sized(ps, ExpectedAll(rs, NL))
  {
    if rs == [] {
      ps := [];
    } else {
      assert rs[0] in rs;
      var rest := PiecesOf(rs[1..]);
      var p := PieceOf(rs[0], PrintRecords(rs[1..], NL));
      ps := [p] + rest;
      PieceInFront(p, rest, Expected(rs[0], NL), ExpectedAll(rs[1..], NL));
    }
  }

  lemma {:induction false} PieceInFront(p: Piece, ps: seq<Piece>, x: Record, xs: seq<Record>)
    requires Sound(p) && AllSound(ps) && Sized(ps, xs) && |x.body| == p.size
    ensures AllSound([p] + ps) && Sized([p] + ps, [x] + xs) && Text([p] + ps) == PieceText(p, Text(ps))
  {
    assert ([p] + ps)[1..] == ps && ([x] + xs)[1..] == xs;
  }

  /** A list whose first target is a lone carriage return does not come back. */
  lemma {:induction false} LoneReturnIsLost(rs: seq<Record>)
    requires rs != [] && IsLoneReturn(rs[0].target)
    requires forall r | r in rs :: Printable(r) && FitsFields(r, NL) && SingleLine(r.target)
    ensures ParseRecords(PrintRecords(rs, NL)) != ExpectedAll(rs, NL)
  {
    assert rs[0] in rs;
    var p := PieceOf(rs[0], PrintRecords(rs[1..], NL));
    var ps := PiecesOf(rs[1..]);
    LoneReturnMisses(p, ps, Expected(rs[0], NL), ExpectedAll(rs[1..], NL));
  }
}
