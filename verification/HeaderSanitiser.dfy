/** The header sanitiser and the request layout of `interface_scan` in interface_scan_module.cpp. */
module HeaderSanitiser {
  import opened Wrappers
  import opened Sequences
  import opened TextSearch
  import opened Lines

  /** The four characters backslash, r, backslash, n. */
  const ESCAPE := "\\r\\n"
  const CRLF := "\r\n"

  // ---------------------------------------------------------------- unescaping

  /** One pass from left to right that turns every escape into a line end. */
  function Unescape(s: string): string {
    if |s| >= 4 && s[..4] == ESCAPE then CRLF + Unescape(s[4..])
    else if s == [] then []
    else [s[0]] + Unescape(s[1..])
  }

  /** Text in front of the first escape is kept as it is. */
  lemma {:induction false} UnescapeKeeps(before: string, rest: string)
    requires forall i: nat | i < |before| :: !MatchAt(before + rest, ESCAPE, i)
    ensures Unescape(before + rest) == before + Unescape(rest)
  {
    if before == [] {
      assert before + rest == rest;
    } else {
      var s := before + rest;
      assert s[1..] == before[1..] + rest;
      assert !MatchAt(s, ESCAPE, 0);
      forall i: nat | i < |before[1..]|
        ensures !MatchAt(before[1..] + rest, ESCAPE, i)
      {
        assert !MatchAt(s, ESCAPE, i + 1);
        ShiftMatch([before[0]], before[1..] + rest, i);
      }
      UnescapeKeeps(before[1..], rest);
      HeadAndTail(before);
      Associate([before[0]], before[1..], Unescape(rest));
    }
  }

  lemma ShiftMatch(a: string, b: string, i: nat)
    ensures MatchAt(a + b, ESCAPE, |a| + i) == MatchAt(b, ESCAPE, i)
  {
    if i + 4 <= |b| {
      assert (a + b)[|a| + i..|a| + i + 4] == b[i..i + 4];
    }
  }

  /** No escape reaches over a carriage return or a newline. */
  lemma NoMatchAcross(a: string, b: string, i: nat)
    requires i < |a| + 2 && MatchAt(a + (CRLF + b), ESCAPE, i)
    ensures MatchAt(a, ESCAPE, i)
  {
    var s := a + (CRLF + b);
    assert s[|a|] == CR && s[|a| + 1] == LF;
    forall k | 0 <= k < 4
      ensures s[i + k] == ESCAPE[k]
    {
      assert s[i..i + 4][k] == ESCAPE[k];
    }
    assert forall k | 0 <= k < 4 :: ESCAPE[k] != CR && ESCAPE[k] != LF;
    assert i + 4 <= |a|;
    assert a[i..i + 4] == s[i..i + 4];
  }

  /** Replacing the first escape does not change what the single pass makes of the text. */
  lemma ReplaceFirst(s: string, p: nat)
    requires Find(s, ESCAPE, 0) == Some(p)
    ensures Unescape(s[..p] + (CRLF + s[p + 4..])) == Unescape(s)
  {
    var before, after := s[..p], s[p + 4..];
    assert s[p..][..4] == s[p..p + 4] && s[p..][4..] == after;
    assert s == before + s[p..];
    UnescapeKeeps(before, s[p..]);
    var t := (before + CRLF) + after;
    Associate(before, CRLF, after);
    forall i: nat | i < |before + CRLF|
      ensures !MatchAt(t, ESCAPE, i)
    {
      if i + 4 <= p {
        assert s[i..i + 4] == before[i..i + 4];
        assert !MatchAt(s, ESCAPE, i);
      }
      if MatchAt(t, ESCAPE, i) {
        NoMatchAcross(before, after, i);
      }
    }
    UnescapeKeeps(before + CRLF, after);
    Associate(before, CRLF, Unescape(after));
  }

  ghost predicate NoEscape(s: string) {
    forall i: nat :: !MatchAt(s, ESCAPE, i)
  }

  lemma UnescapeClean(s: string)
    requires NoEscape(s)
    ensures Unescape(s) == s
  {
    assert s + [] == s;
    UnescapeKeeps(s, []);
  }

  lemma {:induction false} UnescapeLeavesNone(s: string)
    ensures NoEscape(Unescape(s))
    decreases |s|
  {
    var found := Find(s, ESCAPE, 0);
    if found.None? {
      UnescapeClean(s);
    } else {
      ReplaceFirst(s, found.value);
      UnescapeLeavesNone(s[..found.value] + (CRLF + s[found.value + 4..]));
    }
  }

  /** The replacing loop: it ends, since every turn shortens the text, and does what the single
      pass does. */
  method ReplaceEscapes(headers: string) returns (clean: string)
    ensures clean == Unescape(headers) && NoEscape(clean)
  {
    clean := headers;
    var pos := Find(clean, ESCAPE, 0);
    while pos.Some?
      invariant pos == Find(clean, ESCAPE, 0)
      invariant Unescape(clean) == Unescape(headers)
      decreases |clean|
    {
      var p := pos.value;
      ReplaceFirst(clean, p);
      clean := clean[..p] + (CRLF + clean[p + 4..]);
      pos := Find(clean, ESCAPE, 0);
    }
    UnescapeClean(clean);
  }

  // ---------------------------------------------------------------- trimming and joining

  predicate Trimmable(c: char) {
    c == CR || c == LF || c == ' '
  }

  function Trim(line: string): (t: string)
    ensures t <= line && (t != [] ==> !Trimmable(t[|t| - 1]))
  {
    if line != [] && Trimmable(line[|line| - 1]) then Trim(line[..|line| - 1]) else line
  }

  /** The non-empty trimmed lines of a text. */
  function CleanLines(text: string): seq<string>
    decreases |text|
  {
    if text == [] then [] else
      var t := Trim(text[..LineLength(text)]);
      (if t == [] then [] else [t]) + CleanLines(AfterLine(text))
  }

  function Join(lines: seq<string>): string {
    if lines == [] then [] else lines[0] + (CRLF + Join(lines[1..]))
  }

  function Sanitised(headers: string): string {
    Join(CleanLines(Unescape(headers)))
  }

  predicate CleanLine(line: string) {
    line != [] && SingleLine(line) && !Trimmable(line[|line| - 1])
  }

  lemma {:induction false} CleanLinesAreClean(text: string)
    ensures forall l | l in CleanLines(text) :: CleanLine(l)
    decreases |text|
  {
    if text != [] {
      TrimmedLineIsClean(text[..LineLength(text)]);
      CleanLinesAreClean(AfterLine(text));
    }
  }

  lemma TrimmedLineIsClean(line: string)
    requires SingleLine(line)
    ensures Trim(line) != [] ==> CleanLine(Trim(line))
  {
    var t := Trim(line);
    assert forall i | 0 <= i < |t| :: t[i] == line[i];
  }

  lemma JoinAppends(lines: seq<string>, line: string)
    ensures Join(lines + [line]) == Join(lines) + (line + CRLF)
  {
    if lines == [] {
      assert lines + [line] == [line];
      assert Join([line]) == line + (CRLF + Join([]));
    } else {
      assert (lines + [line])[1..] == lines[1..] + [line];
      JoinAppends(lines[1..], line);
      Associate(lines[0], CRLF + Join(lines[1..]), line + CRLF);
      Associate(CRLF, Join(lines[1..]), line + CRLF);
    }
  }

  method TrimLine(line: string) returns (trimmed: string)
    ensures trimmed == Trim(line)
  {
    trimmed := line;
    while trimmed != [] && Trimmable(trimmed[|trimmed| - 1])
      invariant Trim(trimmed) == Trim(line)
      decreases |trimmed|
    {
      trimmed := trimmed[..|trimmed| - 1];
    }
  }

  lemma KeepsLine(kept: seq<string>, text: string)
    requires text != []
    ensures var t, more := Trim(text[..LineLength(text)]), CleanLines(AfterLine(text));
            && kept + CleanLines(text) == (if t == [] then kept else kept + [t]) + more
            && Join(kept + [t]) == Join(kept) + (t + CRLF)
  {
    var t, more := Trim(text[..LineLength(text)]), CleanLines(AfterLine(text));
    JoinAppends(kept, t);
    Associate(kept, if t == [] then [] else [t], more);
    assert kept + [] == kept;
  }

  /** The whole sanitiser: escapes replaced, lines trimmed, empty lines dropped. */
  method SanitiseHeaders(headers: string) returns (sanitised: string)
    ensures sanitised == Sanitised(headers)
  {
    var clean := ReplaceEscapes(headers);
    var reader := new LineReader(clean);
    sanitised := "";
    ghost var kept: seq<string> := [];
    while true
      invariant fresh(reader) && sanitised == Join(kept)
      invariant CleanLines(clean) == kept + CleanLines(reader.rest)
      decreases |reader.rest|
    {
      ghost var text := reader.rest;
      var ok, line := reader.GetLine();
      if !ok {
        break;
      }
      KeepsLine(kept, text);
      var trimmed := TrimLine(line);
      if trimmed != [] {
        sanitised := sanitised + (trimmed + CRLF);
        kept := kept + [trimmed];
      }
    }
    assert kept + [] == kept;
  }

  // ---------------------------------------------------------------- idempotence

  lemma TrimEnds(line: string)
    requires CleanLine(line)
    ensures Trim(line + [CR]) == line
  {
    assert (line + [CR])[..|line|] == line;
  }

  lemma {:induction false} JoinedLinesReadBack(lines: seq<string>)
    requires forall l | l in lines :: CleanLine(l)
    ensures CleanLines(Join(lines)) == lines
  {
    if lines != [] {
      var l, rest := lines[0], Join(lines[1..]);
      assert l in lines;
      assert Join(lines) == (l + [CR]) + [LF] + rest;
      LineLengthIs(l + [CR], rest);
      TrimEnds(l);
      JoinedLinesReadBack(lines[1..]);
    }
  }

  lemma {:induction false} JoinHasNoEscape(lines: seq<string>)
    requires forall l | l in lines :: NoEscape(l)
    ensures NoEscape(Join(lines))
  {
    if lines != [] {
      var l, rest := lines[0], Join(lines[1..]);
      assert l in lines;
      JoinHasNoEscape(lines[1..]);
      forall i: nat
        ensures !MatchAt(Join(lines), ESCAPE, i)
      {
        if i < |l| + 2 {
          if MatchAt(Join(lines), ESCAPE, i) {
            NoMatchAcross(l, rest, i);
          }
        } else {
          Associate(l, CRLF, rest);
          ShiftMatch(l + CRLF, rest, i - |l| - 2);
        }
      }
    }
  }

  lemma PartHasNoEscape(s: string, lo: nat, hi: nat)
    requires lo <= hi <= |s| && NoEscape(s)
    ensures NoEscape(s[lo..hi])
  {
    forall i: nat
      ensures !MatchAt(s[lo..hi], ESCAPE, i)
    {
      assert !MatchAt(s, ESCAPE, lo + i);
      if i + 4 <= hi - lo {
        SliceOfSlice(s, lo, hi, i, i + 4);
      }
    }
  }

  lemma {:induction false} LinesHaveNoEscape(text: string)
    requires NoEscape(text)
    ensures forall l | l in CleanLines(text) :: NoEscape(l)
    decreases |text|
  {
    if text != [] {
      var n := LineLength(text);
      var t := Trim(text[..n]);
      assert t == text[0..|t|];
      PartHasNoEscape(text, 0, |t|);
      if n < |text| {
        PartHasNoEscape(text, n + 1, |text|);
        assert AfterLine(text) == text[n + 1..|text|];
        LinesHaveNoEscape(AfterLine(text));
      }
    }
  }

  /** Sanitising twice is sanitising once. */
  lemma SanitiserIsIdempotent(headers: string)
    ensures Sanitised(Sanitised(headers)) == Sanitised(headers)
  {
    var text := Unescape(headers);
    UnescapeLeavesNone(headers);
    CleanLinesAreClean(text);
    LinesHaveNoEscape(text);
    JoinHasNoEscape(CleanLines(text));
    UnescapeClean(Join(CleanLines(text)));
    JoinedLinesReadBack(CleanLines(text));
  }

  // ---------------------------------------------------------------- the request

  function Request(path: string, domain: string, sanitised: string): string {
    ("GET " + path + " HTTP/1.1") + (CRLF + (("Host: " + domain) + (CRLF + (sanitised + CRLF))))
  }

  lemma DividerAtLineEnd(l: string, rest: string, i: nat)
    requires SingleLine(l) && i < |l| + 2 && MatchAt(l + (CRLF + rest), DIVIDER, i)
    ensures i == |l| && |rest| >= 2 && rest[0] == CR && rest[1] == LF
  {
    var s := l + (CRLF + rest);
    forall k | 0 <= k < 4
      ensures s[i + k] == DIVIDER[k]
    {
      assert s[i..i + 4][k] == DIVIDER[k];
    }
    assert s[i + 1] == LF && s[i] == CR && s[i + 2] == CR && s[i + 3] == LF;
    assert s[|l| + 1] == LF;
    assert forall j | 0 <= j < |l| :: s[j] == l[j] != LF;
    assert i == |l|;
    assert s[i + 2] == rest[0] && s[i + 3] == rest[1];
  }

  lemma ShiftDivider(a: string, b: string, i: nat)
    ensures MatchAt(a + b, DIVIDER, |a| + i) == MatchAt(b, DIVIDER, i)
  {
    if i + 4 <= |b| {
      assert (a + b)[|a| + i..|a| + i + 4] == b[i..i + 4];
    }
  }

  /** A line with nothing but the last line end behind it. */
  lemma DividerBehindLastLine(l: string, i: nat)
    requires SingleLine(l)
    ensures MatchAt(l + (CRLF + CRLF), DIVIDER, i) <==> i == |l|
  {
    var s := l + (CRLF + CRLF);
    assert s[|l|..|l| + 4] == DIVIDER;
    if i < |l| && MatchAt(s, DIVIDER, i) {
      DividerAtLineEnd(l, CRLF, i);
    }
  }

  /** A line with another one behind it. */
  lemma NoDividerAtLineEnd(l: string, l2: string, more: string, i: nat)
    requires SingleLine(l) && l2 != "" && SingleLine(l2) && l2 + CRLF <= more && i < |l| + 2
    ensures !MatchAt(l + (CRLF + more), DIVIDER, i)
  {
    assert more[0] == l2[0] && more[1] == (l2 + CRLF)[1] == if |l2| > 1 then l2[1] else CR;
    if MatchAt(l + (CRLF + more), DIVIDER, i) {
      DividerAtLineEnd(l, more, i);
    }
  }

  lemma JoinShape(lines: seq<string>)
    requires lines != []
    ensures Join(lines) + CRLF == lines[0] + (CRLF + (Join(lines[1..]) + CRLF))
    ensures lines[0] + CRLF <= Join(lines) + CRLF
  {
    Associate(lines[0], CRLF + Join(lines[1..]), CRLF);
    Associate(CRLF, Join(lines[1..]), CRLF);
    Associate(lines[0], CRLF, Join(lines[1..]) + CRLF);
  }

  /** Lines that are not empty and hold no newline: the only blank line is the one at the end. */
  lemma {:induction false} OnlyDividerIsLast(lines: seq<string>, i: nat)
    requires lines != [] && forall l | l in lines :: l != [] && SingleLine(l)
    ensures MatchAt(Join(lines) + CRLF, DIVIDER, i) <==> i + 4 == |Join(lines) + CRLF|
    decreases lines
  {
    var l, more := lines[0], Join(lines[1..]) + CRLF;
    assert l in lines;
    JoinShape(lines);
    if lines[1..] == [] {
      assert more == CRLF;
      DividerBehindLastLine(l, i);
    } else {
      assert lines[1] in lines && lines[1..][0] == lines[1];
      JoinShape(lines[1..]);
      if i < |l| + 2 {
        NoDividerAtLineEnd(l, lines[1], more, i);
      } else {
        Associate(l, CRLF, more);
        ShiftDivider(l + CRLF, more, i - |l| - 2);
        assert forall x | x in lines[1..] :: x in lines;
        OnlyDividerIsLast(lines[1..], i - |l| - 2);
      }
    }
  }

  lemma RequestIsJoined(path: string, domain: string, lines: seq<string>)
    ensures Request(path, domain, Join(lines)) ==
            Join(["GET " + path + " HTTP/1.1", "Host: " + domain] + lines) + CRLF
  {
    var get, host := "GET " + path + " HTTP/1.1", "Host: " + domain;
    var all := [get, host] + lines;
    assert all[0] == get && all[1..] == [host] + lines && all[1..][0] == host && all[1..][1..] == lines;
    assert Join(all) == get + (CRLF + (host + (CRLF + Join(lines))));
    Associate(get, CRLF + (host + (CRLF + Join(lines))), CRLF);
    Associate(CRLF, host + (CRLF + Join(lines)), CRLF);
    Associate(host, CRLF + Join(lines), CRLF);
    Associate(CRLF, Join(lines), CRLF);
  }

  lemma HeadLinesAreSingle(path: string, domain: string)
    requires SingleLine(path) && SingleLine(domain)
    ensures SingleLine("GET " + path + " HTTP/1.1") && SingleLine("Host: " + domain)
  {}

  /** For a path and a domain without newlines, the request ends at its only blank line. */
  lemma RequestEndsAtBlankLine(path: string, domain: string, headers: string, i: nat)
    requires SingleLine(path) && SingleLine(domain)
    ensures var r := Request(path, domain, Sanitised(headers));
            MatchAt(r, "\r\n\r\n", i) <==> i + 4 == |r|
  {
    var lines := CleanLines(Unescape(headers));
    CleanLinesAreClean(Unescape(headers));
    RequestIsJoined(path, domain, lines);
    HeadLinesAreSingle(path, domain);
    var all := ["GET " + path + " HTTP/1.1", "Host: " + domain] + lines;
    assert forall l | l in all :: l == all[0] || l == all[1] || l in lines;
    OnlyDividerIsLast(all, i);
  }
}
