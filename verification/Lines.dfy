/** Reading text line by line, as `getline` does. */
module Lines {
  const LF := '\n'
  const CR := '\r'

  predicate SingleLine(s: string) {
    forall i | 0 <= i < |s| :: s[i] != LF
  }

  /** The length of the line that `s` starts with. */
  function LineLength(s: string): (n: nat)
    ensures n <= |s| && SingleLine(s[..n]) && (n < |s| ==> s[n] == LF)
    ensures forall i | 0 <= i < n :: s[i] != LF
  {
    if s == [] || s[0] == LF then 0 else
      var m := LineLength(s[1..]);
      assert s[..m + 1] == [s[0]] + s[1..][..m];
      1 + m
  }

  /** The text behind the first line and its newline. */
  function AfterLine(s: string): (r: string)
    ensures s != [] ==> |r| < |s|
  {
    if LineLength(s) < |s| then s[LineLength(s) + 1..] else []
  }

  lemma {:induction false} LineLengthIs(line: string, rest: string)
    requires SingleLine(line)
    ensures LineLength(line + [LF] + rest) == |line|
    ensures (line + [LF] + rest)[..|line|] == line
    ensures AfterLine(line + [LF] + rest) == rest
  {
    if line != [] {
      assert (line + [LF] + rest)[1..] == line[1..] + [LF] + rest;
      LineLengthIs(line[1..], rest);
    }
  }

  /** The lines that `getline` takes from a text, one after the other. */
  function LinesOf(s: string): seq<string>
    decreases |s|
  {
    if s == [] then [] else [s[..LineLength(s)]] + LinesOf(AfterLine(s))
  }

  lemma LinesOfCons(line: string, rest: string)
    requires SingleLine(line)
    ensures LinesOf(line + ['\n'] + rest) == [line] + LinesOf(rest)
  {
    LineLengthIs(line, rest);
  }

  /** A text stream that is read by lines. */
  class LineReader {
    var rest: string

    constructor (text: string)
      ensures rest == text
    {
      rest := text;
    }

    method GetLine() returns (ok: bool, line: string)
      modifies this
      ensures ok == (old(rest) != "")
      ensures ok ==> line == old(rest)[..LineLength(old(rest))] && rest == AfterLine(old(rest))
      ensures !ok ==> rest == old(rest) && line == ""
    {
      if rest == "" {
        return false, "";
      }
      ok, line := true, rest[..LineLength(rest)];
      rest := AfterLine(rest);
    }
  }
}
