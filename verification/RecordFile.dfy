/** The response-body record file: `WriteTextResBody` of FileWires.cs prints it and
    `mainResponseBodyParser` of Soft_404_Catcher.cpp reads it. */
module RecordFile {
  import opened Sequences
  import opened Decimal
  import opened TextSearch
  import opened Lines

  datatype Record = Record(target: string, status: int, body: string)

  const RULE := "---"
  const WARNING := "[WARN] Response body was empty or unreachable."
  const TARGET_SIZE: nat := 3071
  const BODY_SIZE: nat := 4095

  /** `Environment.NewLine` on either kind of system. */
  predicate IsNewLine(nl: string) {
    nl == "\n" || nl == "\r\n"
  }

  // ---------------------------------------------------------------- printing

  function BodyText(body: string): string {
    if body == "" then WARNING else body
  }

  function PrintRecord(r: Record, nl: string, more: string): string {
    r.target + (nl + (RULE + (nl + (Show(r.status) + (nl + (RULE + (nl + (BodyText(r.body) + (nl + (nl + more))))))))))
  }

  /** The text of the whole file. */
  function PrintRecords(rs: seq<Record>, nl: string): string {
    if rs == [] then nl else PrintRecord(rs[0], nl, PrintRecords(rs[1..], nl))
  }

  /** The text of a file: for each record its target, a rule, its status, a rule, its body or the
      warning, and an empty line, and one more empty line behind the last record. */
  lemma PrintedText(r: Record, rs: seq<Record>, nl: string)
    ensures PrintRecords([r] + rs, nl) ==
            r.target + (nl + ("---" + (nl + (Show(r.status) + (nl + ("---" + (nl
            + ((if r.body == "" then "[WARN] Response body was empty or unreachable." else r.body)
            + (nl + (nl + PrintRecords(rs, nl)))))))))))
    ensures PrintRecords([], nl) == nl
  {
    assert ([r] + rs)[1..] == rs;
  }

  lemma SampleFile()
    ensures PrintRecords([Record("a.com/", 200, "hi")], "\n") == "a.com/\n---\n200\n---\nhi\n\n\n"
  {
    var r := Record("a.com/", 200, "hi");
    SampleNumbers();
    PrintedText(r, [], "\n");
    assert [r] + [] == [r];
  }

  /** Appends a text and a line end. */
  function AppendLine(sb: string, text: string, nl: string): string {
    sb + (text + nl)
  }

  lemma AppendThen(sb: string, text: string, nl: string, more: string)
    ensures AppendLine(sb, text, nl) + more == sb + (text + (nl + more))
  {
    Associate(sb, text + nl, more);
    Associate(text, nl, more);
  }

  method WriteTextResBody(rs: seq<Record>, nl: string) returns (text: string)
    ensures text == PrintRecords(rs, nl)
  {
    var sb := "";
    assert rs[0..] == rs;
    for i := 0 to |rs|
      invariant sb + PrintRecords(rs[i..], nl) == PrintRecords(rs, nl)
    {
      assert rs[i..][0] == rs[i] && rs[i..][1..] == rs[i + 1..];
      var more := PrintRecords(rs[i + 1..], nl);
      sb := WriteRecord(sb, rs[i], nl, more);
    }
    sb := AppendLine(sb, "", nl);
    assert "" + nl == nl;
    return sb;
  }

  /** The seven lines appended for one record, in front of whatever follows. */
  method WriteRecord(sb0: string, r: Record, nl: string, ghost more: string) returns (sb: string)
    ensures sb + more == sb0 + PrintRecord(r, nl, more)
  {
    var body := if r.body != "" then r.body else WARNING;
    var sb1 := AppendLine(sb0, r.target, nl);
    var sb2 := AppendLine(sb1, RULE, nl);
    var sb3 := AppendLine(sb2, Show(r.status), nl);
    var sb4 := AppendLine(sb3, RULE, nl);
    var sb5 := AppendLine(sb4, body, nl);
    sb := AppendLine(sb5, "", nl);
    assert "" + (nl + more) == nl + more;
    AppendThen(sb5, "", nl, more);
    var m5 := nl + more;
    AppendThen(sb4, body, nl, m5);
    var m4 := body + (nl + m5);
    AppendThen(sb3, RULE, nl, m4);
    var m3 := RULE + (nl + m4);
    AppendThen(sb2, Show(r.status), nl, m3);
    var m2 := Show(r.status) + (nl + m3);
    AppendThen(sb1, RULE, nl, m2);
    var m1 := RULE + (nl + m2);
    AppendThen(sb0, r.target, nl, m1);
  }

  // ---------------------------------------------------------------- parsing

  function Line(s: string): string {
    s[..LineLength(s)]
  }

  /** Drops one carriage return at the end of a line. */
  function Strip(line: string): string {
    if line != [] && line[|line| - 1] == CR then line[..|line| - 1] else line
  }

  /** `strncpy` into a zeroed field with room for `n` characters and a NUL. */
  function Field(s: string, n: nat): string {
    CString(First(n, s))
  }

  /** `stoi`, with 0 for text that does not start with an `int`. */
  function Stoi(line: string): int {
    match ReadInt(line, INT_MIN, INT_MAX)
    case None => 0
    case Some((i, _)) => i
  }

  predicate HasRule(line: string) {
    Find(line, RULE, 0).Some?
  }

  /** Body lines up to a blank line or until 4095 characters are there; the text gathered, and
      the text that is still unread. */
  function ParseBody(s: string, body: string): (r: (string, string))
    ensures |r.1| <= |s|
    decreases |s|
  {
    if s == "" then (body, "") else
      var line := Strip(Line(s));
      if line == "" then (body, AfterLine(s)) else
        var longer := body + (line + "\n");
        if |longer| >= BODY_SIZE then (longer, AfterLine(s)) else ParseBody(AfterLine(s), longer)
  }

  function ParseRecords(s: string): seq<Record>
    decreases |s|
  {
    if s == "" then [] else
      var target := Strip(Line(s));
      var s1 := AfterLine(s);
      if target == "" then ParseRecords(s1)
      else if s1 == "" then []
      else if !HasRule(Line(s1)) then ParseRecords(AfterLine(s1))
      else
        var s2 := AfterLine(s1);
        var status := if s2 == "" then 0 else Stoi(Line(s2));
        var s3 := AfterLine(s2);
        if s3 == "" then []
        else if !HasRule(Line(s3)) then ParseRecords(AfterLine(s3))
        else
          var (body, rest) := ParseBody(AfterLine(s3), "");
          [Record(Field(target, TARGET_SIZE), status, Field(body, BODY_SIZE))] + ParseRecords(rest)
  }

  /** The inner loop: gathers the body of one record. */
  method GatherBody(reader: LineReader) returns (body: string)
    modifies reader
    ensures (body, reader.rest) == ParseBody(old(reader.rest), "")
  {
    body := "";
    while true
      invariant ParseBody(reader.rest, body) == ParseBody(old(reader.rest), "")
      decreases |reader.rest|
    {
      var ok, line := reader.GetLine();
      if !ok {
        break;
      }
      line := Strip(line);
      if line == "" {
        break;
      }
      body := body + (line + "\n");
      if |body| >= BODY_SIZE {
        break;
      }
    }
  }

  method ParseFile(text: string) returns (records: seq<Record>)
    ensures records == ParseRecords(text)
  {
    var reader := new LineReader(text);
    records := [];
    while true
      invariant fresh(reader) && records + ParseRecords(reader.rest) == ParseRecords(text)
      decreases |reader.rest|
    {
      ghost var s := reader.rest;
      var ok, line := reader.GetLine();
      if !ok {
        assert records + [] == records;
        break;
      }
      line := Strip(line);
      if line == "" {
        continue;
      }
      var target := Field(line, TARGET_SIZE);
      ok, line := reader.GetLine();
      if !ok || !HasRule(line) {
        continue;
      }
      var status := 0;
      ok, line := reader.GetLine();
      if ok {
        status := Stoi(line);
      }
      ok, line := reader.GetLine();
      if !ok || !HasRule(line) {
        continue;
      }
      var body := GatherBody(reader);
      var record := Record(target, status, Field(body, BODY_SIZE));
      Associate(records, [record], ParseRecords(reader.rest));
      records := records + [record];
    }
  }
}
