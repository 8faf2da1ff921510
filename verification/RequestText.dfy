/** What the request of `interface_scan` holds, line by line, and what the sanitiser keeps of the
    header text it is given. */
module RequestText {
  import opened Sequences
  import opened TextSearch
  import opened Lines
  import opened HeaderSanitiser

  // ---------------------------------------------------------------- the request by lines

  /** Lines as they are read when each of them ends in a carriage return and a newline. */
  function WithReturn(lines: seq<string>): seq<string> {
    if lines == [] then [] else [lines[0] + "\r"] + WithReturn(lines[1..])
  }

  lemma ReadsReturnLine(l: string, more: string)
    requires SingleLine(l)
    ensures LinesOf(l + (CRLF + more)) == [l + "\r"] + LinesOf(more)
  {
    assert l + (CRLF + more) == (l + "\r") + ['\n'] + more;
    LinesOfCons(l + "\r", more);
  }

  lemma {:induction false} JoinedLinesAreRead(lines: seq<string>)
    requires forall l | l in lines :: SingleLine(l)
    ensures LinesOf(Join(lines) + CRLF) == WithReturn(lines) + ["\r"]
  {
    if lines == [] {
      ReadsReturnLine("", "");
      assert Join(lines) + CRLF == "" + (CRLF + "") && "" + "\r" == "\r";
    } else {
      var l, more := lines[0], Join(lines[1..]) + CRLF;
      assert l in lines;
      JoinShape(lines);
      ReadsReturnLine(l, more);
      JoinedLinesAreRead(lines[1..]);
      Associate([l + "\r"], WithReturn(lines[1..]), ["\r"]);
    }
  }

  lemma HeadLinesAreRead(get: string, host: string, lines: seq<string>)
    requires SingleLine(get) && SingleLine(host) && forall l | l in lines :: SingleLine(l)
    ensures LinesOf(Join([get, host] + lines) + CRLF) ==
            [get + "\r", host + "\r"] + WithReturn(lines) + ["\r"]
  {
    var all := [get, host] + lines;
    assert forall l | l in all :: l == all[0] || l == all[1] || l in lines;
    JoinedLinesAreRead(all);
    ReturnsBehindTwo(get, host, lines);
  }

  lemma ReturnsBehindTwo(get: string, host: string, lines: seq<string>)
    ensures WithReturn([get, host] + lines) == [get + "\r", host + "\r"] + WithReturn(lines)
  {
    assert ([get, host] + lines)[1..] == [host] + lines && ([host] + lines)[1..] == lines;
    Associate([get + "\r"], [host + "\r"], WithReturn(lines));
  }

  /** The request line with the path, the host line with the domain, the sanitised lines and one
      empty line, and nothing else. */
  lemma RequestLines(path: string, domain: string, headers: string)
    requires SingleLine(path) && SingleLine(domain)
    ensures LinesOf(Request(path, domain, Sanitised(headers))) ==
            ["GET " + path + " HTTP/1.1" + "\r", "Host: " + domain + "\r"]
            + WithReturn(CleanLines(Unescape(headers))) + ["\r"]
  {
    var lines := CleanLines(Unescape(headers));
    CleanLinesAreClean(Unescape(headers));
    RequestIsJoined(path, domain, lines);
    HeadLinesAreSingle(path, domain);
    HeadLinesAreRead("GET " + path + " HTTP/1.1", "Host: " + domain, lines);
  }

  // ---------------------------------------------------------------- what the sanitiser keeps

  /** What is cut off the end of a line: carriage returns, newlines and spaces. */
  predicate OnlyBlanks(s: string) {
    forall c | c in s :: c == '\r' || c == '\n' || c == ' '
  }

  /** Cutting stops exactly at the last character that is none of the three. */
  lemma {:induction false} TrimCutsBlanks(line: string)
    ensures Trim(line) <= line && OnlyBlanks(line[|Trim(line)|..])
    ensures Trim(line) != [] ==> !OnlyBlanks([Trim(line)[|Trim(line)| - 1]])
  {
    if line != [] && Trimmable(line[|line| - 1]) {
      var front := line[..|line| - 1];
      TrimCutsBlanks(front);
      assert line[|Trim(line)|..] == front[|Trim(line)|..] + [line[|line| - 1]];
    } else {
      assert line != [] ==> line[|line| - 1] in [line[|line| - 1]];
    }
  }

  /** `kept` are those of the lines that are not blank, in order, each without the blanks at
      its end. */
  predicate Keeps(lines: seq<string>, kept: seq<string>) {
    if lines == [] then kept == []
    else if OnlyBlanks(lines[0]) then Keeps(lines[1..], kept)
    else kept != [] && IsCut(lines[0], kept[0]) && Keeps(lines[1..], kept[1..])
  }

  predicate IsCut(line: string, cut: string) {
    cut != [] && cut <= line && OnlyBlanks(line[|cut|..]) && !OnlyBlanks([cut[|cut| - 1]])
  }

  lemma {:induction false} CleanLinesAreKept(text: string)
    ensures Keeps(LinesOf(text), CleanLines(text))
    decreases |text|
  {
    if text != [] {
      CleanLinesAreKept(AfterLine(text));
      KeepsOne(text[..LineLength(text)], LinesOf(AfterLine(text)), CleanLines(AfterLine(text)));
    }
  }

  lemma KeepsOne(line: string, lines: seq<string>, kept: seq<string>)
    requires Keeps(lines, kept)
    ensures Keeps([line] + lines, (if Trim(line) == [] then [] else [Trim(line)]) + kept)
  {
    var t := Trim(line);
    TrimCutsBlanks(line);
    if t == [] {
      assert line[0..] == line && [] + kept == kept;
      assert ([line] + lines)[1..] == lines;
    } else {
      assert t[|t| - 1] == line[|t| - 1] && t[|t| - 1] in line;
      KeepsCut(line, t, lines, kept);
    }
  }

  lemma KeepsCut(line: string, t: string, lines: seq<string>, kept: seq<string>)
    requires Keeps(lines, kept) && IsCut(line, t) && !OnlyBlanks(line)
    ensures Keeps([line] + lines, [t] + kept)
  {
    assert ([line] + lines)[1..] == lines && ([t] + kept)[1..] == kept;
  }

  // ---------------------------------------------------------------- what unescaping does

  /** Pieces with a separator between them. */
  function Between(pieces: seq<string>, separator: string): string {
    if pieces == [] then "" else if |pieces| == 1 then pieces[0] else
      pieces[0] + (separator + Between(pieces[1..], separator))
  }

  /** Unescaping puts a line end where each escape stood, and changes nothing else. */
  lemma {:induction false} UnescapedPieces(s: string) returns (pieces: seq<string>)
    ensures pieces != [] && s == Between(pieces, "\\r\\n") && Unescape(s) == Between(pieces, "\r\n")
    ensures forall p, i: nat | p in pieces :: !MatchAt(p, "\\r\\n", i)
    decreases |s|
  {
    var found := Find(s, ESCAPE, 0);
    if found.None? {
      UnescapeClean(s);
      pieces := [s];
    } else {
      var p, after := found.value, s[found.value + 4..];
      var behind := UnescapedPieces(after);
      FirstPiece(s, p, after);
      pieces := [s[..p]] + behind;
      assert pieces[1..] == behind;
    }
  }

  lemma FirstPiece(s: string, p: nat, after: string)
    requires MatchAt(s, ESCAPE, p) && after == s[p + 4..]
    requires forall i: nat | i < p :: !MatchAt(s, ESCAPE, i)
    ensures s == s[..p] + (ESCAPE + after)
    ensures Unescape(s) == s[..p] + (CRLF + Unescape(after))
    ensures NoEscape(s[..p])
  {
    var before := s[..p];
    assert s == before + (ESCAPE + after);
    forall i: nat | i < p
      ensures !MatchAt(before + (ESCAPE + after), ESCAPE, i)
    {
      assert !MatchAt(s, ESCAPE, i);
    }
    UnescapeKeeps(before, ESCAPE + after);
    DropAppend(ESCAPE, after);
    forall i: nat
      ensures !MatchAt(before, ESCAPE, i)
    {
      if i + 4 <= p {
        assert !MatchAt(s, ESCAPE, i);
        assert before[i..i + 4] == s[i..i + 4];
      }
    }
  }
}
