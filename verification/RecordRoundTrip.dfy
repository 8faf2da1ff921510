/** Printing and reading the response-body record file undo each other: exactly for which
    records. */
module RecordRoundTrip {
  import opened Decimal
  import opened TextSearch
  import opened Lines
  import opened RecordFile
  import opened RecordReading
  import opened RecordMisreading
  import opened RecordPieces

  lemma {:induction false} AllRecordsReadBack(rs: seq<Record>, nl: string)
    requires IsNewLine(nl) && forall r | r in rs :: Printable(r) && Fits(r, nl)
    ensures ParseRecords(PrintRecords(rs, nl)) == ExpectedAll(rs, nl)
  {
    if rs == [] {
      assert nl + [] == nl;
      BlankIsSkipped(nl, []);
    } else {
      AllRecordsReadBack(rs[1..], nl);
      RecordReadsBack(rs[0], nl, PrintRecords(rs[1..], nl));
    }
  }

  // ---------------------------------------------------------------- what the reader can yield

  /** No line of the text is empty. */
  predicate NoBlank(s: string) {
    (s != [] ==> s[0] != LF) && forall i | 0 <= i < |s| - 1 :: s[i] == LF ==> s[i + 1] != LF
  }

  /** What holds of every record that the reader yields, whatever the file holds. */
  predicate Yielded(r: Record) {
    && |r.target| <= 3071 && NulFree(r.target) && SingleLine(r.target)
    && |r.body| <= 4095 && NulFree(r.body) && NoBlank(r.body)
  }

  lemma StripIsPrefix(line: string)
    ensures Strip(line) <= line
  {}

  lemma {:induction false} GatheredHasNoBlank(s: string, body: string)
    requires NoBlank(body) && (body != [] ==> body[|body| - 1] == LF)
    ensures NoBlank(ParseBody(s, body).0)
    decreases |s|
  {
    if s != [] {
      var line := Strip(Line(s));
      StripIsPrefix(Line(s));
      assert forall i | 0 <= i < |line| :: line[i] == Line(s)[i] != LF;
      if line != [] {
        var longer := body + (line + "\n");
        assert forall i | 0 <= i < |longer| ::
            longer[i] == (if i < |body| then body[i] else if i < |body| + |line| then line[i - |body|] else LF);
        GatheredHasNoBlank(AfterLine(s), longer);
      }
    }
  }

  lemma FieldYields(s: string, n: nat)
    ensures |Field(s, n)| <= n && NulFree(Field(s, n)) && Field(s, n) <= s
    ensures NoBlank(s) ==> NoBlank(Field(s, n))
    ensures n > 0 && s != [] && NulFree(s) ==> Field(s, n) != []
  {
    var f := First(n, s);
    assert Field(s, n) == s[..CLength(f)];
    if n > 0 && s != [] && NulFree(s) {
      assert f[0] == s[0];
      CLengthAtLeast(f, 1);
    }
  }

  lemma TargetIsSingleLine(s: string)
    ensures SingleLine(Field(Strip(Line(s)), TARGET_SIZE))
  {
    var t := Field(Strip(Line(s)), TARGET_SIZE);
    FieldYields(Strip(Line(s)), TARGET_SIZE);
    StripIsPrefix(Line(s));
    assert forall i | 0 <= i < |t| :: t[i] == Line(s)[i];
  }

  /** The fields filled from a target line and from the lines of a body. */
  lemma FieldsYield(s: string, s4: string)
    ensures var target, body := Field(Strip(Line(s)), TARGET_SIZE), Field(ParseBody(s4, "").0, BODY_SIZE);
            && |target| <= TARGET_SIZE && NulFree(target) && SingleLine(target)
            && |body| <= BODY_SIZE && NulFree(body) && NoBlank(body)
  {
    GatheredHasNoBlank(s4, "");
    FieldYields(Strip(Line(s)), TARGET_SIZE);
    FieldYields(ParseBody(s4, "").0, BODY_SIZE);
    TargetIsSingleLine(s);
  }

  lemma {:induction false} ReaderYields(s: string)
    ensures forall r | r in ParseRecords(s) :: Yielded(r)
    decreases |s|
  {
    if s != [] {
      var target, s1 := Strip(Line(s)), AfterLine(s);
      ReaderYields(s1);
      if target != [] && s1 != [] {
        var s2 := AfterLine(s1);
        ReaderYields(s2);
        var s3 := AfterLine(s2);
        if s3 != [] {
          ReaderYields(AfterLine(s3));
          var (body, rest) := ParseBody(AfterLine(s3), "");
          ReaderYields(rest);
          FieldsYield(s, AfterLine(s3));
        }
      }
    }
  }

  lemma NulFreePart(s: string, lo: nat, hi: nat)
    requires lo <= hi <= |s| && NulFree(s)
    ensures NulFree(s[lo..hi])
  {}

  lemma NulFreeParts(s: string)
    requires NulFree(s)
    ensures NulFree(Line(s)) && NulFree(Strip(Line(s))) && NulFree(AfterLine(s))
  {
    NulFreePart(s, 0, LineLength(s));
    if LineLength(s) < |s| {
      NulFreePart(s, LineLength(s) + 1, |s|);
    }
  }

  lemma {:induction false} BodyRestIsNulFree(s: string, body: string)
    requires NulFree(s)
    ensures NulFree(ParseBody(s, body).1)
    decreases |s|
  {
    if s != [] {
      NulFreeParts(s);
      BodyRestIsNulFree(AfterLine(s), body + (Strip(Line(s)) + "\n"));
    }
  }

  /** A file without NUL yields no record with an empty target. */
  lemma {:induction false} TargetsNotEmpty(s: string)
    requires NulFree(s)
    ensures forall r | r in ParseRecords(s) :: r.target != ""
    decreases |s|
  {
    if s != [] {
      var target, s1 := Strip(Line(s)), AfterLine(s);
      NulFreeParts(s);
      TargetsNotEmpty(s1);
      if target != [] && s1 != [] {
        NulFreeParts(s1);
        var s2 := AfterLine(s1);
        TargetsNotEmpty(s2);
        NulFreeParts(s2);
        var s3 := AfterLine(s2);
        if s3 != [] {
          NulFreeParts(s3);
          TargetsNotEmpty(AfterLine(s3));
          BodyRestIsNulFree(AfterLine(s3), "");
          TargetsNotEmpty(ParseBody(AfterLine(s3), "").1);
          FieldYields(target, TARGET_SIZE);
        }
      }
    }
  }

  // ---------------------------------------------------------------- exactly which records

  lemma {:induction false} NoBlankMeansNoBlankLine(s: string)
    requires NoBlank(Normalise(s))
    ensures LinesNotBlank(s)
    decreases |s|
  {
    if s != [] {
      var line, more := Strip(Line(s)), Normalise(AfterLine(s));
      var all := (line + "\n") + more;
      assert all[|line|] == LF;
      assert forall i | 0 <= i < |more| :: more[i] == all[|line| + 1 + i];
      NoBlankMeansNoBlankLine(AfterLine(s));
    }
  }

  lemma NulFreeConcat(a: string, b: string)
    ensures NulFree(a + b) <==> NulFree(a) && NulFree(b)
  {
    assert forall i | 0 <= i < |a| :: a[i] == (a + b)[i];
    assert forall i | 0 <= i < |b| :: b[i] == (a + b)[|a| + i];
  }

  lemma StripKeepsNul(line: string)
    requires NulFree(Strip(line))
    ensures NulFree(line)
  {
    assert forall i | 0 <= i < |Strip(line)| :: line[i] == Strip(line)[i];
  }

  lemma NulFreeAgain(s: string)
    requires NulFree(Line(s)) && NulFree(AfterLine(s))
    ensures NulFree(s)
  {
    var n := LineLength(s);
    assert forall i | 0 <= i < n :: s[i] == Line(s)[i];
    assert forall i | n < i < |s| :: s[i] == AfterLine(s)[i - n - 1];
  }

  lemma {:induction false} NormaliseKeepsNul(s: string)
    requires NulFree(Normalise(s))
    ensures NulFree(s)
    decreases |s|
  {
    if s != [] {
      NulFreeConcat(Strip(Line(s)) + "\n", Normalise(AfterLine(s)));
      NulFreeConcat(Strip(Line(s)), "\n");
      StripKeepsNul(Line(s));
      NormaliseKeepsNul(AfterLine(s));
      NulFreeAgain(s);
    }
  }

  lemma PrintedRecordIsNulFree(r: Record, nl: string, more: string)
    requires IsNewLine(nl) && NulFree(r.target) && NulFree(BodyText(r.body)) && NulFree(more)
    ensures NulFree(PrintRecord(r, nl, more))
  {
    ShowIsPlain(r.status);
    NulFreeConcat(nl, more);
    NulFreeConcat(nl, nl + more);
    var s4 := BodyText(r.body) + (nl + (nl + more));
    NulFreeConcat(BodyText(r.body), nl + (nl + more));
    var s3 := RULE + (nl + s4);
    NulFreeConcat(nl, s4);
    NulFreeConcat(RULE, nl + s4);
    var s2 := Show(r.status) + (nl + s3);
    NulFreeConcat(nl, s3);
    NulFreeConcat(Show(r.status), nl + s3);
    NulFreeConcat(nl, s2);
    NulFreeConcat(RULE, nl + s2);
    NulFreeConcat(nl, RULE + (nl + s2));
    NulFreeConcat(r.target, nl + (RULE + (nl + s2)));
  }

  lemma {:induction false} PrintedIsNulFree(rs: seq<Record>, nl: string)
    requires IsNewLine(nl) && forall r | r in rs :: NulFree(r.target) && NulFree(Expected(r, nl).body)
    ensures NulFree(PrintRecords(rs, nl))
  {
    if rs != [] {
      var r := rs[0];
      PrintedIsNulFree(rs[1..], nl);
      NormaliseKeepsNul(Terminated(r.body, nl));
      NulFreeConcat(BodyText(r.body), nl);
      PrintedRecordIsNulFree(r, nl, PrintRecords(rs[1..], nl));
    }
  }

  lemma {:induction false} ExpectedMembers(rs: seq<Record>, nl: string, r: Record)
    requires IsNewLine(nl) && r in rs
    ensures Expected(r, nl) in ExpectedAll(rs, nl)
  {
    if r != rs[0] {
      ExpectedMembers(rs[1..], nl, r);
    }
  }

  /** A target with a carriage return at its end, in a file with bare newlines, comes back
      without it. */
  lemma ShortenedTarget(r: Record, nl: string, more: string, rest: seq<Record>)
    requires IsNewLine(nl) && Printable(r) && FitsFields(r, nl)
    requires SingleLine(r.target) && !TargetIsLine(r.target, nl) && !IsLoneReturn(r.target)
    ensures ParseRecords(PrintRecord(r, nl, more)) != [Expected(r, nl)] + rest
  {
    var front := r.target[..|r.target| - 1];
    assert r.target + Tail(nl) == r.target;
    RecordReadsAs(r, nl, more, front);
    assert ([Expected(r, nl)] + rest)[0].target == r.target != front;
  }

  /** A list that comes back has no target that the reader shortens. */
  lemma {:induction false} TargetsKept(rs: seq<Record>, nl: string)
    requires IsNewLine(nl) && forall r | r in rs :: Printable(r) && FitsFields(r, nl) && SingleLine(r.target)
    requires ParseRecords(PrintRecords(rs, nl)) == ExpectedAll(rs, nl)
    ensures forall r | r in rs :: TargetIsLine(r.target, nl)
  {
    if rs != [] {
      var r, more := rs[0], PrintRecords(rs[1..], nl);
      assert r in rs;
      if TargetIsLine(r.target, nl) {
        RecordReadsBack(r, nl, more);
        SameTails(Expected(r, nl), ParseRecords(more), ExpectedAll(rs[1..], nl));
        TargetsKept(rs[1..], nl);
      } else if IsLoneReturn(r.target) {
        LoneReturnIsLost(rs);
      } else {
        ShortenedTarget(r, nl, more, ExpectedAll(rs[1..], nl));
      }
    }
  }

  lemma SameTails(r: Record, a: seq<Record>, b: seq<Record>)
    requires [r] + a == [r] + b
    ensures a == b
  {
    assert ([r] + a)[1..] == a && ([r] + b)[1..] == b;
  }

  /** What a list that comes back must fulfil beside its targets' last characters. */
  lemma FieldsKept(rs: seq<Record>, nl: string)
    requires IsNewLine(nl) && ParseRecords(PrintRecords(rs, nl)) == ExpectedAll(rs, nl)
    ensures forall r | r in rs :: FitsFields(r, nl) && SingleLine(r.target)
  {
    var text := PrintRecords(rs, nl);
    ReaderYields(text);
    forall r | r in rs
      ensures Yielded(Expected(r, nl))
    {
      ExpectedMembers(rs, nl, r);
    }
    PrintedIsNulFree(rs, nl);
    TargetsNotEmpty(text);
    forall r | r in rs
      ensures FitsFields(r, nl) && SingleLine(r.target)
    {
      ExpectedMembers(rs, nl, r);
      assert Yielded(Expected(r, nl));
      NoBlankMeansNoBlankLine(Terminated(r.body, nl));
    }
  }

  /** For every list of records and both kinds of line end: reading the printed file gives the
      list back, in order, with normalised bodies, if and only if every record fits. */
  lemma RecordFileRoundTrip(rs: seq<Record>, nl: string)
    requires IsNewLine(nl) && forall r | r in rs :: Printable(r)
    ensures ParseRecords(PrintRecords(rs, nl)) == ExpectedAll(rs, nl) <==> forall r | r in rs :: Fits(r, nl)
  {
    if forall r | r in rs :: Fits(r, nl) {
      AllRecordsReadBack(rs, nl);
    }
    if ParseRecords(PrintRecords(rs, nl)) == ExpectedAll(rs, nl) {
      FieldsKept(rs, nl);
      TargetsKept(rs, nl);
    }
  }

  /** A body with a blank line, as an HTML page may have, does not come back. */
  lemma BlankLineIsLost()
    ensures var r := Record("a.com/", 200, "x\n\ny");
            ParseRecords(PrintRecords([r], "\n")) != ExpectedAll([r], "\n")
  {
    var r := Record("a.com/", 200, "x\n\ny");
    var t := Terminated(r.body, "\n");
    assert t == "x" + [LF] + "\ny\n";
    LineLengthIs("x", "\ny\n");
    assert AfterLine(t) == [] + [LF] + "y\n";
    LineLengthIs([], "y\n");
    assert !LinesNotBlank(AfterLine(t));
    assert r in [r] && !Fits(r, "\n");
    RecordFileRoundTrip([r], "\n");
  }
}
