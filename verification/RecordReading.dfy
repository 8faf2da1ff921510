/** Reading printed records back line by line: what is expected back, and which records fit. */
module RecordReading {
  import opened Sequences
  import opened Decimal
  import opened TextSearch
  import opened Lines
  import opened RecordFile

  // ---------------------------------------------------------------- what is expected back

  /** The body lines as they stand in the file, the last one with its line end. */
  function Terminated(body: string, nl: string): (t: string)
    requires IsNewLine(nl)
    ensures t != [] && t[|t| - 1] == LF
  {
    var b := BodyText(body);
    if b[|b| - 1] == LF then b else b + nl
  }

  /** Every line with a single newline behind it. */
  function Normalise(s: string): string
    decreases |s|
  {
    if s == [] then [] else (Strip(Line(s)) + "\n") + Normalise(AfterLine(s))
  }

  /** A record as it is expected back: the body with its line ends normalised, or the warning
      line for an empty body. */
  function Expected(r: Record, nl: string): Record
    requires IsNewLine(nl)
  {
    r.(body := Normalise(Terminated(r.body, nl)))
  }

  function ExpectedAll(rs: seq<Record>, nl: string): seq<Record>
    requires IsNewLine(nl)
  {
    if rs == [] then [] else [Expected(rs[0], nl)] + ExpectedAll(rs[1..], nl)
  }

  predicate LinesNotBlank(s: string)
    decreases |s|
  {
    s == [] || (Strip(Line(s)) != [] && LinesNotBlank(AfterLine(s)))
  }

  /** The target is one line of its own. Where lines end in a bare newline the reader drops a
      carriage return at its end. */
  predicate TargetIsLine(target: string, nl: string) {
    SingleLine(target) && (nl == "\n" ==> target == "" || target[|target| - 1] != CR)
  }

  /** The record fits the fixed-size fields of the reader. */
  predicate FitsFields(r: Record, nl: string)
    requires IsNewLine(nl)
  {
    && r.target != "" && NulFree(r.target) && |r.target| <= 3071
    && LinesNotBlank(Terminated(r.body, nl))
    && NulFree(Normalise(Terminated(r.body, nl)))
    && |Normalise(Terminated(r.body, nl))| <= 4095
  }

  /** The record fits the fields and its target is a line: what a caller can check before
      printing. */
  predicate Fits(r: Record, nl: string)
    requires IsNewLine(nl)
  {
    FitsFields(r, nl) && TargetIsLine(r.target, nl)
  }

  /** What holds of every record of the program: a 32-bit status. */
  predicate Printable(r: Record) {
    -0x8000_0000 <= r.status <= 0x7fff_ffff
  }

  // ---------------------------------------------------------------- reading lines back

  /** The carriage return that `getline` leaves at the end of a line. */
  function Tail(nl: string): string {
    if nl == "\r\n" then "\r" else ""
  }

  lemma LineThen(x: string, nl: string, rest: string)
    requires SingleLine(x) && IsNewLine(nl)
    ensures var s := x + (nl + rest);
            s != [] && Line(s) == x + Tail(nl) && AfterLine(s) == rest
  {
    var line := x + Tail(nl);
    LineLengthIs(line, rest);
    assert nl == Tail(nl) + [LF];
    assert x + (nl + rest) == line + [LF] + rest;
  }

  lemma StripTail(x: string, nl: string)
    requires IsNewLine(nl) && (nl == "\n" ==> x == [] || x[|x| - 1] != CR)
    ensures Strip(x + Tail(nl)) == x
  {
    if nl == "\r\n" {
      assert (x + "\r")[..|x|] == x;
    } else {
      assert x + "" == x;
    }
  }

  lemma RuleIsFound(nl: string)
    ensures HasRule(RULE + Tail(nl)) && SingleLine(RULE)
  {
    assert (RULE + Tail(nl))[0..3] == RULE;
    assert MatchAt(RULE + Tail(nl), RULE, 0);
  }

  lemma StatusReadsBack(i: int, nl: string)
    requires INT_MIN <= i <= INT_MAX
    ensures Stoi(Show(i) + Tail(nl)) == i
  {
    ReadsIntBack(i, Tail(nl), INT_MIN, INT_MAX);
  }

  /** A status line that is no `int` counts as 0. */
  lemma StatusFallsBack(i: int, line: string)
    ensures Stoi(Show(i)) == if -0x8000_0000 <= i <= 0x7fff_ffff then i else 0
    ensures line == "" || (!IsSpace(line[0]) && !IsDigit(line[0]) && line[0] != '-' && line[0] != '+') ==>
              Stoi(line) == 0
  {
    assert Show(i) + "" == Show(i);
    if -0x8000_0000 <= i <= 0x7fff_ffff {
      ReadsIntBack(i, "", INT_MIN, INT_MAX);
    } else {
      OutOfRangeFails(i, "", INT_MIN, INT_MAX);
    }
  }

  /** Lines with a line end behind each. */
  function Ended(lines: seq<string>, nl: string): string {
    if lines == [] then "" else lines[0] + (nl + Ended(lines[1..], nl))
  }

  /** Normalising replaces the line ends and keeps the lines. */
  lemma {:induction false} NormalisedLines(lines: seq<string>, nl: string)
    requires nl == "\n" || nl == "\r\n"
    requires forall l | l in lines :: SingleLine(l) && (l == "" || l[|l| - 1] != '\r')
    ensures Normalise(Ended(lines, nl)) == Ended(lines, "\n")
  {
    if lines != [] {
      var l := lines[0];
      assert l in lines;
      LineThen(l, nl, Ended(lines[1..], nl));
      StripTail(l, nl);
      NormalisedLines(lines[1..], nl);
      Associate(l, "\n", Ended(lines[1..], "\n"));
    }
  }

  /** A record whose body is made of lines, the last one with or without its line end, is expected
      back with a newline behind each line and unchanged otherwise. */
  lemma ExpectedBody(r: Record, nl: string, lines: seq<string>)
    requires nl == "\n" || nl == "\r\n"
    requires forall l | l in lines :: SingleLine(l) && (l == "" || l[|l| - 1] != '\r')
    requires r.body != ""
    requires if r.body[|r.body| - 1] == '\n' then r.body == Ended(lines, nl) else r.body + nl == Ended(lines, nl)
    ensures Expected(r, nl) == Record(r.target, r.status, Ended(lines, "\n"))
  {
    TerminatedBody(r.body, nl);
    NormalisedLines(lines, nl);
  }

  lemma TerminatedBody(body: string, nl: string)
    requires IsNewLine(nl) && body != ""
    ensures Terminated(body, nl) == if body[|body| - 1] == '\n' then body else body + nl
  {}

  lemma WarningIsLine(line: string)
    requires line == "[WARN] Response body was empty or unreachable."
    ensures SingleLine(line) && line[|line| - 1] == '.'
  {
    var a, b, c := "[WARN] Response ", "body was empty ", "or unreachable.";
    assert SingleLine(a);
    assert SingleLine(b);
    assert SingleLine(c);
    assert line == a + b + c;
  }

  lemma ExpectedWarning(r: Record, nl: string)
    requires (nl == "\n" || nl == "\r\n") && r.body == ""
    ensures Expected(r, nl) ==
            Record(r.target, r.status, "[WARN] Response body was empty or unreachable." + "\n")
  {
    var line := BodyText(r.body);
    WarningIsLine(line);
    assert Ended([], nl) == "" && [line][1..] == [] && [line][0] == line;
    assert nl + "" == nl && "\n" + "" == "\n";
    NormalisedLines([line], nl);
  }

  lemma PlainLineThen(x: string, rest: string)
    requires SingleLine(x)
    ensures var s := x + ("\n" + rest); s != "" && Line(s) == x && AfterLine(s) == rest
  {
    LineThen(x, "\n", rest);
    assert x + "" == x;
  }

  lemma NotBlank(x: string)
    requires x != "" && x != "\r"
    ensures Strip(x) != ""
  {}

  lemma ReadsPastTarget(s: string, s1: string)
    requires s != "" && Strip(Line(s)) != "" && s1 == AfterLine(s) && s1 != "" && !HasRule(Line(s1))
    ensures ParseRecords(s) == ParseRecords(AfterLine(s1))
  {}

  lemma PassesHead(s: string, s1: string, s2: string, s3: string)
    requires s != "" && s1 == AfterLine(s) != "" && Strip(Line(s)) != "" && HasRule(Line(s1))
    requires s2 == AfterLine(s1) && s3 == AfterLine(s2) != "" && !HasRule(Line(s3))
    ensures ParseRecords(s) == ParseRecords(AfterLine(s3))
  {}

  /** A line that is not blank, and behind it one without a rule: both are passed over. */
  lemma PairIsPassed(x: string, y: string, rest: string)
    requires SingleLine(x) && SingleLine(y) && x != "" && x != "\r"
    requires forall i: nat :: !MatchAt(y, "---", i)
    ensures ParseRecords(x + ("\n" + (y + ("\n" + rest)))) == ParseRecords(rest)
  {
    var s1 := y + ("\n" + rest);
    PlainLineThen(x, s1);
    PlainLineThen(y, rest);
    NotBlank(x);
    ReadsPastTarget(x + ("\n" + s1), s1);
  }

  /** A target, a rule and a status line, but no second rule: all four lines are passed over. */
  lemma HeadIsPassed(x: string, y: string, status: string, z: string, rest: string)
    requires SingleLine(x) && SingleLine(y) && SingleLine(status) && SingleLine(z) && x != "" && x != "\r"
    requires (exists i: nat :: MatchAt(y, "---", i)) && forall i: nat :: !MatchAt(z, "---", i)
    ensures ParseRecords(x + ("\n" + (y + ("\n" + (status + ("\n" + (z + ("\n" + rest)))))))) == ParseRecords(rest)
  {
    var s3 := z + ("\n" + rest);
    var s2 := status + ("\n" + s3);
    var s1 := y + ("\n" + s2);
    PlainLineThen(x, s1);
    PlainLineThen(y, s2);
    PlainLineThen(status, s3);
    PlainLineThen(z, rest);
    NotBlank(x);
    PassesHead(x + ("\n" + s1), s1, s2, s3);
  }

  lemma GathersLine(l: string, more: string, gathered: string, text: string)
    requires SingleLine(l) && l != "" && l[|l| - 1] != '\r'
    ensures var longer := gathered + (l + "\n");
            ParseBody((l + ("\n" + more)) + text, gathered) ==
            if |longer| >= 4095 then (longer, more + text) else ParseBody(more + text, longer)
  {
    Associate(l, "\n" + more, text);
    Associate("\n", more, text);
    PlainLineThen(l, more + text);
    assert Strip(l) == l;
  }

  /** Gathering goes on over lines that are not blank while there is room. */
  lemma {:induction false} GathersOn(lines: seq<string>, gathered: string, text: string)
    requires forall l | l in lines :: SingleLine(l) && l != "" && l[|l| - 1] != '\r'
    requires |gathered| + |Ended(lines, "\n")| < 4095
    ensures ParseBody(Ended(lines, "\n") + text, gathered) == ParseBody(text, gathered + Ended(lines, "\n"))
  {
    if lines == [] {
      assert Ended(lines, "\n") + text == text && gathered + Ended(lines, "\n") == gathered;
    } else {
      var l, more := lines[0], Ended(lines[1..], "\n");
      assert l in lines;
      GathersLine(l, more, gathered, text);
      GathersOn(lines[1..], gathered + (l + "\n"), text);
      Associate(l, "\n", more);
      Associate(gathered, l + "\n", more);
    }
  }

  lemma BlankEndsBody(e: string, rest: string)
    ensures ParseBody("\n" + rest, e) == (e, rest)
  {
    PlainLineThen("", rest);
    assert "" + ("\n" + rest) == "\n" + rest;
  }

  lemma FullBodyEnds(last: string, e: string, rest: string)
    requires SingleLine(last) && last != "" && last[|last| - 1] != '\r' && |e| + |last| >= 4094
    ensures ParseBody(last + ("\n" + rest), e) == (e + (last + "\n"), rest)
  {
    PlainLineThen(last, rest);
  }

  /** A body ends at a blank line. */
  lemma BodyEndsAtBlank(lines: seq<string>, rest: string)
    requires forall l | l in lines :: SingleLine(l) && l != "" && l[|l| - 1] != '\r'
    requires |Ended(lines, "\n")| < 4095
    ensures ParseBody(Ended(lines, "\n") + ("\n" + rest), "") == (Ended(lines, "\n"), rest)
  {
    var e := Ended(lines, "\n");
    GathersOn(lines, "", "\n" + rest);
    BlankEndsBody("" + e, rest);
    assert "" + e == e;
  }

  /** A body ends with the line that makes it 4095 characters long. */
  lemma BodyEndsWhenFull(lines: seq<string>, last: string, rest: string)
    requires forall l | l in lines :: SingleLine(l) && l != "" && l[|l| - 1] != '\r'
    requires SingleLine(last) && last != "" && last[|last| - 1] != '\r'
    requires |Ended(lines, "\n")| < 4095 <= |Ended(lines, "\n")| + |last + "\n"|
    ensures ParseBody(Ended(lines, "\n") + (last + ("\n" + rest)), "") ==
            (Ended(lines, "\n") + (last + "\n"), rest)
  {
    var e := Ended(lines, "\n");
    GathersOn(lines, "", last + ("\n" + rest));
    FullBodyEnds(last, "" + e, rest);
    assert "" + e == e;
  }

  /** A field holds the first characters of a text without NUL. */
  lemma FieldIsCut(s: string, n: nat)
    requires '\0' !in s
    ensures Field(s, n) == if |s| <= n then s else s[..n]
  {
    var f := First(n, s);
    assert forall i | 0 <= i < |f| :: f[i] == s[i] && s[i] in s;
    CLengthIs(f, |f|);
  }

  lemma ShowIsPlain(i: int)
    ensures SingleLine(Show(i)) && NulFree(Show(i))
  {
    var ds := Digits(if i < 0 then -i else i);
    assert forall k | 0 <= k < |ds| :: IsDigit(ds[k]);
    assert forall k | 0 <= k < |Show(i)| :: IsDigit(Show(i)[k]) || Show(i)[k] == '-';
  }

  /** A blank line between records is passed over. */
  lemma BlankIsSkipped(nl: string, more: string)
    requires IsNewLine(nl)
    ensures ParseRecords(nl + more) == ParseRecords(more)
  {
    assert [] + (nl + more) == nl + more;
    LineThen([], nl, more);
    StripTail([], nl);
  }

  lemma SplitAt(s: string, n: nat)
    requires n < |s|
    ensures s == s[..n] + [s[n]] + s[n + 1..]
    ensures s[n + 1..] == [] || s[n + 1..][|s[n + 1..]| - 1] == s[|s| - 1]
  {}

  lemma FirstLineEnds(s: string)
    requires s != [] && s[|s| - 1] == LF
    ensures LineLength(s) < |s|
    ensures s == Line(s) + [LF] + AfterLine(s)
    ensures AfterLine(s) == [] || AfterLine(s)[|AfterLine(s)| - 1] == LF
  {
    SplitAt(s, LineLength(s));
  }

  lemma ReadsLineOf(s: string, tail: string)
    requires s != [] && s[|s| - 1] == LF
    ensures Line(s + tail) == Line(s) && AfterLine(s + tail) == AfterLine(s) + tail
  {
    FirstLineEnds(s);
    LineLengthIs(Line(s), AfterLine(s) + tail);
    Associate(Line(s) + [LF], AfterLine(s), tail);
  }

  /** The body comes back normalised, and only blank lines are left in front of what follows. */
  lemma {:induction false} BodyReadsBack(s: string, gathered: string, nl: string, more: string)
    requires IsNewLine(nl) && s != [] && s[|s| - 1] == LF && LinesNotBlank(s)
    requires |gathered| + |Normalise(s)| <= BODY_SIZE
    ensures var (body, rest) := ParseBody(s + (nl + more), gathered);
            body == gathered + Normalise(s) && (rest == nl + more || rest == more)
    decreases |s|
  {
    var tail := nl + more;
    var line, after := Strip(Line(s)), AfterLine(s);
    var longer := gathered + (line + "\n");
    FirstLineEnds(s);
    ReadsLineOf(s, tail);
    Associate(gathered, line + "\n", Normalise(after));
    if after == [] {
      assert longer + [] == longer && [] + tail == tail;
      LineThen([], nl, more);
      StripTail([], nl);
    } else {
      assert |Normalise(after)| > 0;
      BodyReadsBack(after, longer, nl, more);
    }
  }

  lemma FieldKeeps(s: string, n: nat)
    requires NulFree(s) && |s| <= n
    ensures Field(s, n) == s
  {
    assert s[..|s|] == s;
    CLengthIs(s, |s|);
  }

  /** Behind the terminated body stands one blank line, and then the next record or another
      blank line. */
  lemma BodySpan(b: string, nl: string, more: string) returns (next: string)
    requires IsNewLine(nl)
    ensures BodyText(b) + (nl + (nl + more)) == Terminated(b, nl) + (nl + next)
    ensures ParseRecords(next) == ParseRecords(more) && (next == more || next == nl + more)
  {
    next := more;
    if BodyText(b)[|BodyText(b)| - 1] == LF {
      BlankIsSkipped(nl, more);
      next := nl + more;
    } else {
      Associate(BodyText(b), nl, nl + more);
    }
  }

  /** The body part of a printed record, up to the next record. */
  lemma BodyPartReadsBack(r: Record, nl: string, more: string)
    requires IsNewLine(nl) && FitsFields(r, nl)
    ensures var (body, rest) := ParseBody(BodyText(r.body) + (nl + (nl + more)), "");
            Field(body, BODY_SIZE) == Expected(r, nl).body && ParseRecords(rest) == ParseRecords(more)
  {
    var t := Terminated(r.body, nl);
    var next := BodySpan(r.body, nl, more);
    BlankIsSkipped(nl, next);
    BodyReadsBack(t, "", nl, next);
    assert "" + Normalise(t) == Normalise(t);
    FieldKeeps(Normalise(t), BODY_SIZE);
  }

  /** The lines of a record: target, rule, status, rule, and what follows them. */
  lemma ParsesRecord(s: string, s1: string, s2: string, s3: string, s4: string, target: string, status: int)
    requires s != "" && Strip(Line(s)) == target != "" && AfterLine(s) == s1 != ""
    requires HasRule(Line(s1)) && AfterLine(s1) == s2 != ""
    requires Stoi(Line(s2)) == status && AfterLine(s2) == s3 != ""
    requires HasRule(Line(s3)) && AfterLine(s3) == s4
    ensures var (body, rest) := ParseBody(s4, "");
            ParseRecords(s) == [Record(Field(target, TARGET_SIZE), status, Field(body, BODY_SIZE))] + ParseRecords(rest)
  {}

  /** The lines that stand in front of the body of a printed record. */
  lemma HeadLines(r: Record, nl: string, s1: string, s2: string, s3: string, s4: string)
    requires IsNewLine(nl) && SingleLine(r.target) && Printable(r)
    requires s1 == RULE + (nl + s2) && s2 == Show(r.status) + (nl + s3) && s3 == RULE + (nl + s4)
    ensures var s := r.target + (nl + s1); s != "" && Line(s) == r.target + Tail(nl) && AfterLine(s) == s1 != ""
    ensures HasRule(Line(s1)) && AfterLine(s1) == s2 != ""
    ensures Stoi(Line(s2)) == r.status && AfterLine(s2) == s3 != ""
    ensures HasRule(Line(s3)) && AfterLine(s3) == s4
  {
    RuleIsFound(nl);
    ShowIsPlain(r.status);
    StatusReadsBack(r.status, nl);
    LineThen(r.target, nl, s1);
    LineThen(RULE, nl, s2);
    LineThen(Show(r.status), nl, s3);
    LineThen(RULE, nl, s4);
  }

  /** One printed record is read as a record, whatever follows it; its target as far as the reader
      keeps it. */
  lemma RecordReadsAs(r: Record, nl: string, more: string, target: string)
    requires IsNewLine(nl) && Printable(r) && FitsFields(r, nl) && SingleLine(r.target)
    requires target == Strip(r.target + Tail(nl)) != "" && target <= r.target
    ensures ParseRecords(PrintRecord(r, nl, more)) == [Expected(r, nl).(target := target)] + ParseRecords(more)
  {
    var s4 := BodyText(r.body) + (nl + (nl + more));
    var s3 := RULE + (nl + s4);
    var s2 := Show(r.status) + (nl + s3);
    var s1 := RULE + (nl + s2);
    HeadLines(r, nl, s1, s2, s3, s4);
    ParsesRecord(r.target + (nl + s1), s1, s2, s3, s4, target, r.status);
    BodyPartReadsBack(r, nl, more);
    FieldKeeps(target, TARGET_SIZE);
  }

  /** One printed record is read back, whatever follows it. */
  lemma RecordReadsBack(r: Record, nl: string, more: string)
    requires IsNewLine(nl) && Printable(r) && Fits(r, nl)
    ensures ParseRecords(PrintRecord(r, nl, more)) == [Expected(r, nl)] + ParseRecords(more)
  {
    StripTail(r.target, nl);
    RecordReadsAs(r, nl, more, r.target);
  }
}
