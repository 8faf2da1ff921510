/** Searching in C strings and buffers: `strstr`, `strchr` and `string::find`. */
module TextSearch {
  import opened Wrappers

  const NUL := '\0'

  predicate MatchAt(s: string, pattern: string, i: nat) {
    i + |pattern| <= |s| && s[i..i + |pattern|] == pattern
  }

  /** The first match at or behind `from`. */
  function Find(s: string, pattern: string, from: nat): (r: Option<nat>)
    ensures r.Some? ==> from <= r.value && MatchAt(s, pattern, r.value)
    ensures r.Some? ==> forall i | from <= i < r.value :: !MatchAt(s, pattern, i)
    ensures r.None? ==> forall i | from <= i :: !MatchAt(s, pattern, i)
    decreases |s| - from
  {
    if from + |pattern| > |s| then None
    else if s[from..from + |pattern|] == pattern then Some(from)
    else if from == |s| then None
    else Find(s, pattern, from + 1)
  }

  predicate NulFree(s: string) {
    forall i | 0 <= i < |s| :: s[i] != NUL
  }

  /** The length of the C string that starts a buffer: up to the first NUL. */
  function CLength(s: string): (n: nat)
    ensures n <= |s| && NulFree(s[..n]) && (n < |s| ==> s[n] == NUL)
  {
    if s == [] || s[0] == NUL then 0 else
      var m := CLength(s[1..]);
      assert s[..m + 1] == [s[0]] + s[1..][..m];
      1 + m
  }

  function CString(s: string): string {
    s[..CLength(s)]
  }

  lemma {:induction false} CLengthAtLeast(s: string, k: nat)
    requires k <= |s| && NulFree(s[..k])
    ensures CLength(s) >= k
  {
    if k > 0 {
      assert s[0] == s[..k][0];
      assert s[1..][..k - 1] == s[..k][1..];
      CLengthAtLeast(s[1..], k - 1);
    }
  }

  lemma {:induction false} CLengthIs(s: string, k: nat)
    requires k <= |s| && NulFree(s[..k]) && (k < |s| ==> s[k] == NUL)
    ensures CLength(s) == k
  {
    if k > 0 {
      assert s[0] == s[..k][0];
      assert s[1..][..k - 1] == s[..k][1..];
      CLengthIs(s[1..], k - 1);
    }
  }

  /** What a C string holds does not change when more is received behind it, up to its end. */
  lemma CStringOfPrefix(s: string, n: nat)
    requires n <= |s|
    ensures CLength(s[..n]) == if CLength(s) < n then CLength(s) else n
    ensures CString(s[..n]) <= CString(s)
  {
    var k := CLength(s);
    var m := if k < n then k else n;
    assert s[..n][..m] == s[..m] == s[..k][..m];
    CLengthIs(s[..n], m);
  }

  /** The first match in a prefix is the first match in the whole. */
  lemma FindInPrefix(s: string, n: nat, pattern: string)
    requires n <= |s| && Find(s[..n], pattern, 0).Some?
    ensures Find(s, pattern, 0) == Find(s[..n], pattern, 0)
  {
    var k := Find(s[..n], pattern, 0).value;
    assert s[k..k + |pattern|] == s[..n][k..k + |pattern|];
    assert MatchAt(s, pattern, k);
    forall i: nat | i < k && MatchAt(s, pattern, i)
      ensures false
    {
      assert s[..n][i..i + |pattern|] == s[i..i + |pattern|];
      assert MatchAt(s[..n], pattern, i);
    }
  }

  const DIVIDER := "\r\n\r\n"

  /** Where the first blank line of the C string in `d` ends. */
  function HeaderEnd(d: string): (r: Option<nat>)
    ensures r.Some? ==> 4 <= r.value <= |d|
  {
    match Find(CString(d), DIVIDER, 0)
    case None => None
    case Some(k) => Some(k + 4)
  }

  /** Once the blank line is seen in what has been received, its place is final. */
  lemma HeaderEndIsFinal(d: string, n: nat)
    requires n <= |d| && HeaderEnd(d[..n]).Some?
    ensures HeaderEnd(d) == HeaderEnd(d[..n])
  {
    CStringOfPrefix(d, n);
    var whole := CString(d);
    assert whole[..|CString(d[..n])|] == CString(d[..n]);
    FindInPrefix(whole, |CString(d[..n])|, DIVIDER);
  }

  /** The search through a NUL-terminated buffer sees the received bytes only. */
  lemma TerminatedSearch(buffer: string, total: nat)
    requires total < |buffer| && buffer[total] == NUL
    ensures CString(buffer) == CString(buffer[..total])
  {
    var m := CLength(buffer[..total]);
    assert buffer[..total][..m] == buffer[..m];
    CLengthIs(buffer, m);
  }

  /** At most the first `n` characters. */
  function First(n: nat, s: string): (r: string)
    ensures r <= s && |r| <= n && (|r| < n ==> r == s)
  {
    if |s| < n then s else s[..n]
  }

  /** `h` is the shortest prefix of `d` that ends in a blank line, without a NUL. */
  ghost predicate IsHeaderBlock(h: string, d: string) {
    && |h| >= 4 && h <= d && h[|h| - 4..] == "\r\n\r\n" && '\0' !in h
    && forall i: nat | i + 4 < |h| :: !MatchAt(h, "\r\n\r\n", i)
  }

  lemma MatchInPrefix(s: string, n: nat, pattern: string, i: nat)
    requires i + |pattern| <= n <= |s|
    ensures MatchAt(s[..n], pattern, i) <==> MatchAt(s, pattern, i)
  {
    assert s[..n][i..i + |pattern|] == s[i..i + |pattern|];
  }

  lemma FoundInCString(d: string, h: string)
    requires HeaderEnd(d) == Some(|h|) && h <= d
    ensures |h| >= 4 && h <= CString(d) && h[|h| - 4..] == DIVIDER && NUL !in h
  {
    var c, k := CString(d), |h| - 4;
    assert MatchAt(c, DIVIDER, k);
    assert h == c[..|h|];
    assert c[k..k + 4] == h[k..];
  }

  lemma FoundIsShortest(d: string, h: string)
    requires HeaderEnd(d) == Some(|h|) && h <= d
    ensures IsHeaderBlock(h, d)
  {
    var c := CString(d);
    FoundInCString(d, h);
    forall i: nat | i + 4 < |h|
      ensures !MatchAt(h, DIVIDER, i)
    {
      MatchInPrefix(c, |h|, DIVIDER, i);
      assert !MatchAt(c, DIVIDER, i);
    }
  }

  lemma ShortestIsFound(d: string, h: string)
    requires IsHeaderBlock(h, d)
    ensures HeaderEnd(d) == Some(|h|)
  {
    var c, k := CString(d), |h| - 4;
    assert d[..|h|] == h;
    assert forall i | 0 <= i < |h| :: h[i] in h;
    CLengthAtLeast(d, |h|);
    assert c[..|h|] == h;
    assert c[k..k + 4] == h[k..];
    assert MatchAt(c, DIVIDER, k);
    forall i: nat | i < k
      ensures !MatchAt(c, DIVIDER, i)
    {
      MatchInPrefix(c, |h|, DIVIDER, i);
    }
    assert Find(c, DIVIDER, 0) == Some(k);
  }

  /** The end found by the search is the end of that shortest prefix, and there is none when
      the search finds nothing. */
  lemma HeaderEndIsShortest(d: string, h: string)
    ensures HeaderEnd(d) == Some(|h|) && h <= d <==> IsHeaderBlock(h, d)
  {
    if HeaderEnd(d) == Some(|h|) && h <= d {
      FoundIsShortest(d, h);
    }
    if IsHeaderBlock(h, d) {
      ShortestIsFound(d, h);
    }
  }
}
