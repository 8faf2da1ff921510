/** Decimal text as the C and C++ libraries print and read it. */
module Decimal {
  import opened Wrappers
  import opened Sequences

  predicate IsDigit(c: char) {
    '0' <= c <= '9'
  }

  predicate AllDigits(s: string) {
    forall i | 0 <= i < |s| :: IsDigit(s[i])
  }

  function DigitValue(c: char): (d: nat)
    requires IsDigit(c)
    ensures d < 10
  {
    c as int - '0' as int
  }

  function DigitChar(d: nat): (c: char)
    requires d < 10
    ensures IsDigit(c) && DigitValue(c) == d
  {
    ('0' as int + d) as char
  }

  /** The decimal digits of `n`, without leading zeros. */
  function Digits(n: nat): (s: string)
    ensures s != [] && AllDigits(s)
  {
    if n < 10 then [DigitChar(n)] else Digits(n / 10) + [DigitChar(n % 10)]
  }

  function Value(s: string): nat
    requires AllDigits(s)
  {
    if s == [] then 0 else 10 * Value(s[..|s| - 1]) + DigitValue(s[|s| - 1])
  }

  lemma {:induction false} ValueOfDigits(n: nat)
    ensures Value(Digits(n)) == n
  {
    if n < 10 {
      assert Value(Digits(n)[..0]) == 0;
    } else {
      ValueOfDigits(n / 10);
      assert Digits(n)[..|Digits(n)| - 1] == Digits(n / 10);
    }
  }

  /** The digit characters in their order, and what each of them is worth. */
  lemma DigitCharacter(d: nat)
    requires d < 10
    ensures DigitChar(d) == "0123456789"[d] && DigitValue("0123456789"[d]) == d
  {
    assert d == 0 || d == 1 || d == 2 || d == 3 || d == 4 || d == 5 || d == 6 || d == 7 || d == 8 || d == 9;
  }

  /** Hundreds, tens and units of a three-digit number, in this order. */
  lemma ThreeDigitText(n: nat)
    requires 100 <= n <= 999
    ensures Digits(n) == ["0123456789"[n / 100], "0123456789"[n / 10 % 10], "0123456789"[n % 10]]
  {
    DigitCharacter(n / 100);
    DigitCharacter(n / 10 % 10);
    DigitCharacter(n % 10);
    assert n / 10 / 10 == n / 100;
    assert Digits(n / 10) == Digits(n / 10 / 10) + [DigitChar(n / 10 % 10)];
  }

  /** The sign of a negative number stands in front of its digits. */
  lemma ShowsSign(n: nat)
    requires n > 0
    ensures Show(-(n as int)) == "-" + Digits(n)
  {}

  lemma SampleNumbers()
    ensures Show(200) == "200" && Show(-17) == "-17"
  {
    ThreeDigitText(200);
    DigitCharacter(1);
    DigitCharacter(7);
    assert Digits(17) == Digits(1) + [DigitChar(7)];
  }

  function Show(i: int): (s: string)
    ensures s != []
  {
    if i < 0 then "-" + Digits(-i) else Digits(i)
  }

  /** The length of the longest prefix of digits. */
  function DigitRun(s: string): (n: nat)
    ensures n <= |s| && AllDigits(s[..n]) && (n < |s| ==> !IsDigit(s[n]))
  {
    if s == [] || !IsDigit(s[0]) then 0 else
      var m := DigitRun(s[1..]);
      assert forall i | 0 <= i < m :: s[i + 1] == s[1..][..m][i];
      1 + m
  }

  lemma {:induction false} DigitRunStops(ds: string, rest: string)
    requires AllDigits(ds)
    requires rest == [] || !IsDigit(rest[0])
    ensures DigitRun(ds + rest) == |ds|
  {
    if ds == [] {
      assert ds + rest == rest;
    } else {
      assert (ds + rest)[1..] == ds[1..] + rest;
      assert forall i | 0 <= i < |ds[1..]| :: ds[1..][i] == ds[i + 1];
      DigitRunStops(ds[1..], rest);
    }
  }

  // ---------------------------------------------------------------- reading numbers

  const INT_MIN: int := -0x8000_0000
  const INT_MAX: int := 0x7fff_ffff

  predicate IsSpace(c: char) {
    c == ' ' || '\t' <= c <= '\r'
  }

  function SkipSpace(s: string): (r: string)
    ensures |r| <= |s|
    ensures r == [] || !IsSpace(r[0])
  {
    if s != [] && IsSpace(s[0]) then SkipSpace(s[1..]) else s
  }

  /** Extraction of a number from `lo` to `hi`: a sign, then the longest run of digits. A
      value outside the range, or no digit, makes the extraction fail. */
  function ReadInt(s: string, lo: int, hi: int): (r: Option<(int, string)>)
    ensures r.Some? ==> |r.value.1| < |s| && lo <= r.value.0 <= hi
  {
    var t := SkipSpace(s);
    var signed := t != [] && (t[0] == '-' || t[0] == '+');
    var body := if signed then t[1..] else t;
    var n := DigitRun(body);
    var magnitude: int := Value(body[..n]);
    var value := if signed && t[0] == '-' then -magnitude else magnitude;
    if n == 0 || value < lo || value > hi then None else Some((value, body[n..]))
  }

  lemma ReadIntSkips(c: char, s: string, lo: int, hi: int)
    requires IsSpace(c)
    ensures ReadInt([c] + s, lo, hi) == ReadInt(s, lo, hi)
  {
    assert ([c] + s)[1..] == s;
  }

  lemma ReadsIntBack(i: int, rest: string, lo: int, hi: int)
    requires lo <= i <= hi
    requires rest == [] || !IsDigit(rest[0])
    ensures ReadInt(Show(i) + rest, lo, hi) == Some((i, rest))
  {
    if i < 0 {
      ReadsNegativeBack(i, rest, lo, hi);
    } else {
      ReadsNaturalBack(i, rest, lo, hi);
    }
  }

  /** A number outside the range makes the extraction fail. */
  lemma OutOfRangeFails(i: int, rest: string, lo: int, hi: int)
    requires i < lo || i > hi
    requires rest == [] || !IsDigit(rest[0])
    ensures ReadInt(Show(i) + rest, lo, hi) == None
  {
    var from, to := if i < lo then i else lo, if i > hi then i else hi;
    ReadsIntBack(i, rest, from, to);
  }

  lemma DigitsReadBack(n: nat, rest: string)
    requires rest == [] || !IsDigit(rest[0])
    ensures var s, k := Digits(n) + rest, DigitRun(Digits(n) + rest);
            k > 0 && Value(s[..k]) == n && s[k..] == rest
  {
    ValueOfDigits(n);
    DigitRunStops(Digits(n), rest);
    DropAppend(Digits(n), rest);
  }

  lemma ReadsNaturalBack(n: nat, rest: string, lo: int, hi: int)
    requires lo <= n <= hi
    requires rest == [] || !IsDigit(rest[0])
    ensures ReadInt(Digits(n) + rest, lo, hi) == Some((n as int, rest))
  {
    var t := Digits(n) + rest;
    assert IsDigit(Digits(n)[0]) && t[0] == Digits(n)[0];
    assert SkipSpace(t) == t;
    DigitsReadBack(n, rest);
  }

  lemma ReadsNegativeBack(i: int, rest: string, lo: int, hi: int)
    requires lo <= i <= hi && i < 0
    requires rest == [] || !IsDigit(rest[0])
    ensures ReadInt(("-" + Digits(-i)) + rest, lo, hi) == Some((i, rest))
  {
    var t := ("-" + Digits(-i)) + rest;
    Associate("-", Digits(-i), rest);
    assert t[0] == '-' && t[1..] == Digits(-i) + rest;
    assert SkipSpace(t) == t;
    DigitsReadBack(-i, rest);
  }
}
