/** `extract_status_from_buffer` of wires.cpp: the status code behind the last "HTTP/" of a
    response. */
module StatusLine {
  import opened Wrappers
  import opened Decimal
  import opened TextSearch

  const HTTP := "HTTP/"

  /** `Undefined`: the source dereferences a null pointer. */
  datatype Status = Code(value: int) | Undefined

  /** A text for which the source has no status: it is not empty and holds no "HTTP/". */
  predicate LacksStatus(s: string) {
    s != "" && Find(s, HTTP, 0).None?
  }

  /** The same for what a buffer holds as a C string, behind the first `n` bytes of a stream. */
  predicate LacksStatusAt(stream: string, n: nat)
    requires n <= |stream|
  {
    LacksStatus(CString(stream[..n]))
  }

  /** A text that has a status keeps one while more is received behind it. */
  lemma StatusStays(stream: string, m: nat, n: nat)
    requires m <= n <= |stream| && 0 < m && !LacksStatusAt(stream, m)
    ensures !LacksStatusAt(stream, n)
  {
    var part, whole := CString(stream[..m]), CString(stream[..n]);
    assert stream[..n][..m] == stream[..m];
    CStringOfPrefix(stream[..n], m);
    if part == "" {
      assert stream[..m][0] == NUL && stream[..n][0] == NUL;
    } else {
      assert whole[..|part|] == part;
      FindInPrefix(whole, |part|, HTTP);
    }
  }

  /** A response that starts with a status line has no status in its first bytes exactly as long
      as there are fewer than five. */
  lemma FirstBytesOfResponse(stream: string, n: nat)
    requires HTTP <= stream && 0 < n <= |stream|
    ensures LacksStatusAt(stream, n) <==> n < 5
  {
    var d := stream[..n];
    assert forall i | 0 <= i < 5 :: stream[i] == HTTP[i];
    if n < 5 {
      CLengthAtLeast(d, n);
      assert CString(d) == d;
    } else {
      assert forall i | 0 <= i < 5 :: d[..5][i] == HTTP[i];
      CLengthAtLeast(d, 5);
      assert CString(d)[..5] == HTTP;
      assert MatchAt(CString(d), HTTP, 0);
    }
  }

  predicate IsLast(s: string, t: nat) {
    MatchAt(s, HTTP, t) && forall i: nat | t < i <= |s| :: !MatchAt(s, HTTP, i)
  }

  /** The pattern does not overlap itself, so no match starts within five characters of one. */
  lemma NoSelfOverlap(s: string, t: nat, i: nat)
    requires MatchAt(s, HTTP, t) && t < i < t + 5
    ensures !MatchAt(s, HTTP, i)
  {
    assert s[i] == s[t..t + 5][i - t] == HTTP[i - t];
    assert i + 5 <= |s| ==> s[i..i + 5][0] == s[i];
  }

  /** The three digits from index `p` on, as a number. */
  function ThreeDigits(s: string, p: nat): Option<nat> {
    if p + 3 <= |s| && AllDigits(s[p..p + 3]) then Some(Value(s[p..p + 3])) else None
  }

  /** `code` is what the status line at the last match `t` says: the number of the three digits
      behind the first space that follows, else -1. */
  ghost predicate StatusAt(s: string, t: nat, code: int) {
    match Find(s, " ", t)
    case None => code == -1
    case Some(space) =>
      match ThreeDigits(s, space + 1)
      case None => code == -1
      case Some(n) => code == n
  }

  /** `code` is the status of the text `s` as the source defines it; a text that lacks a status has
      none. */
  ghost predicate IsStatus(s: string, code: int) {
    if s == "" then code == -1 else exists t: nat :: IsLast(s, t) && StatusAt(s, t, code)
  }

  lemma ThreeDigitValue(a: char, b: char, c: char)
    requires IsDigit(a) && IsDigit(b) && IsDigit(c)
    ensures Value([a, b, c]) == (DigitValue(a) * 10 + DigitValue(b)) * 10 + DigitValue(c) <= 999
  {
    assert [a, b, c][..2] == [a, b] && [a, b][..1] == [a] && [a][..0] == [];
    assert Value([a]) == DigitValue(a);
    assert Value([a, b]) == 10 * DigitValue(a) + DigitValue(b);
  }

  /** For every C string: -1 for the empty one, undefined without any "HTTP/", and otherwise
      the code at the true last "HTTP/", a number from 0 to 999 or -1. */
  method ExtractStatus(s: string) returns (status: Status)
    ensures status.Undefined? <==> LacksStatus(s)
    ensures status.Code? ==> -1 <= status.value <= 999 && IsStatus(s, status.value)
  {
    if s == "" {
      return Code(-1);
    }
    var first := Find(s, HTTP, 0);
    if first.None? {
      return Undefined;
    }
    var target: nat := first.value;
    var next := first;
    while next.Some?
      invariant MatchAt(s, HTTP, target)
      invariant next.None? ==> forall i: nat | target + 5 <= i :: !MatchAt(s, HTTP, i)
      decreases if next.Some? then 1 + |s| - target else 0
    {
      next := Find(s, HTTP, target + 5);
      if next.Some? {
        target := next.value;
      }
    }
    forall i: nat | target < i <= |s|
      ensures !MatchAt(s, HTTP, i)
    {
      if i < target + 5 {
        NoSelfOverlap(s, target, i);
      }
    }
    assert IsLast(s, target);
    var code := ReadCode(s, target);
    status := Code(code);
  }

  /** The digit loop behind the first space from `target` on. */
  method ReadCode(s: string, target: nat) returns (code: int)
    ensures -1 <= code <= 999 && StatusAt(s, target, code)
  {
    var found := Find(s, " ", target);
    if found.None? {
      return -1;
    }
    var start := found.value + 1;
    var ptr := start;
    code := 0;
    for i := 0 to 3
      invariant ptr == start + i <= |s|
      invariant forall k | start <= k < ptr :: IsDigit(s[k])
      invariant i == 0 ==> code == 0
      invariant i == 1 ==> code == DigitValue(s[start])
      invariant i == 2 ==> code == DigitValue(s[start]) * 10 + DigitValue(s[start + 1])
      invariant i == 3 ==>
                  code == (DigitValue(s[start]) * 10 + DigitValue(s[start + 1])) * 10 + DigitValue(s[start + 2])
    {
      if ptr < |s| && IsDigit(s[ptr]) {
        code := code * 10 + DigitValue(s[ptr]);
        ptr := ptr + 1;
      } else {
        assert start + 3 <= |s| ==> s[start..start + 3][i] == s[ptr];
        return -1;
      }
    }
    assert s[start..start + 3] == [s[start], s[start + 1], s[start + 2]];
    ThreeDigitValue(s[start], s[start + 1], s[start + 2]);
  }

  lemma OneLast(s: string, t: nat, u: nat)
    requires IsLast(s, t) && IsLast(s, u)
    ensures t == u && Find(s, HTTP, 0).Some?
  {
    assert t < u ==> !MatchAt(s, HTTP, u);
    assert u < t ==> !MatchAt(s, HTTP, t);
  }

  /** There is only one last match, so the specification leaves no choice of the code, and a text
      that lacks a status has no code. */
  lemma StatusIsUnique(s: string, c: int, d: int)
    requires IsStatus(s, c) && IsStatus(s, d)
    ensures c == d && !LacksStatus(s)
  {
    if s != "" {
      var t: nat :| IsLast(s, t) && StatusAt(s, t, c);
      var u: nat :| IsLast(s, u) && StatusAt(s, u, d);
      OneLast(s, t, u);
    }
  }

  /** The last status line decides: a three-digit code that is printed behind "HTTP/1.1 " is the
      status, whatever stands in front of it and behind it, if no "HTTP/" follows. */
  lemma PrintedCodeIsStatus(before: string, n: nat, rest: string)
    requires 100 <= n <= 999
    requires forall i: nat | i > |before| :: !MatchAt(before + ("HTTP/1.1 " + (Digits(n) + rest)), "HTTP/", i)
    ensures IsStatus(before + ("HTTP/1.1 " + (Digits(n) + rest)), n)
  {
    var t, digits := |before|, Digits(n);
    var s := before + ("HTTP/1.1 " + (digits + rest));
    ThreeDigitText(n);
    LineParts(before, digits, rest, s);
    assert MatchAt(s, " ", t + 8);
    forall i | t <= i < t + 8
      ensures !MatchAt(s, " ", i)
    {
      NoSpaceInName(s, t, i);
    }
    assert Find(s, " ", t).Some? && Find(s, " ", t).value == t + 8;
    ValueOfDigits(n);
    assert IsLast(s, t) && StatusAt(s, t, n);
  }

  lemma NoSpaceInName(s: string, t: nat, i: nat)
    requires t + 8 <= |s| && s[t..t + 8] == "HTTP/1.1" && t <= i < t + 8
    ensures !MatchAt(s, " ", i)
  {
    assert s[i] == s[t..t + 8][i - t] == "HTTP/1.1"[i - t] != ' ';
    assert s[i..i + 1][0] == s[i];
  }

  lemma LineParts(before: string, digits: string, rest: string, s: string)
    requires |digits| == 3 && s == before + ("HTTP/1.1 " + (digits + rest))
    ensures |s| >= |before| + 12 && s[|before|..|before| + 5] == "HTTP/" && s[|before| + 8..|before| + 9] == " "
    ensures s[|before| + 9..|before| + 12] == digits && s[|before|..|before| + 8] == "HTTP/1.1"
  {
    var line := "HTTP/1.1 ";
    assert s == before + line + digits + rest;
    assert forall i | 0 <= i < 9 :: s[|before| + i] == line[i];
  }

  lemma SampleStatus()
    ensures IsStatus("HTTP/1.1 200 OK", 200)
  {
    SampleNumbers();
    var s := "" + ("HTTP/1.1 " + ("200" + " OK"));
    assert s == "HTTP/1.1 200 OK";
    forall i: nat | i > 0
      ensures !MatchAt(s, "HTTP/", i)
    {
      if i + 5 <= |s| {
        assert s[i..i + 5][0] == s[i] != 'H';
      }
    }
    PrintedCodeIsStatus("", 200, " OK");
  }
}
