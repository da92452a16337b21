/** Character strings as the C++ code handles them: search, whitespace, decimal numerals. */
module Text {
  import opened Bytes

  function AsText(b: seq<byte>): (s: string)
    ensures |s| == |b|
  {
    seq(|b|, i requires 0 <= i < |b| => b[i] as char)
  }

  /** Characters of one byte each, none of them NUL. */
  ghost predicate IsByteText(s: string) {
    forall i | 0 <= i < |s| :: 0 < s[i] as int < 256
  }

  function AsBytes(s: string): (b: seq<byte>)
    requires IsByteText(s)
    ensures |b| == |s|
  {
    seq(|s|, i requires 0 <= i < |s| => s[i] as int)
  }

  lemma TextRoundTrip(s: string)
    requires IsByteText(s)
    ensures AsText(AsBytes(s)) == s
  {
  }

  // ----- Search ---------------------------------------------------------------

  predicate MatchAt(s: string, pat: string, p: nat) {
    p + |pat| <= |s| && s[p..p + |pat|] == pat
  }

  /** Position of the first occurrence of `pat` at or after `from`, or -1. */
  function Find(s: string, pat: string, from: nat): (p: int)
    ensures p == -1 || from <= p <= |s|
    ensures p >= 0 ==> MatchAt(s, pat, p)
    ensures forall q: nat | from <= q && (p == -1 || q < p) :: !MatchAt(s, pat, q)
    decreases |s| - from
  {
    if from + |pat| > |s| then -1
    else if MatchAt(s, pat, from) then from
    else Find(s, pat, from + 1)
  }

  lemma FindUnique(s: string, pat: string, from: nat, p: nat)
    requires from <= p && MatchAt(s, pat, p)
    requires forall q: nat | from <= q < p :: !MatchAt(s, pat, q)
    ensures Find(s, pat, from) == p
  {
  }

  /** Position of the first `c` at or after `from`, or -1. */
  function FindChar(s: string, c: char, from: nat): (p: int)
    requires from <= |s|
    ensures p == -1 || (from <= p < |s| && s[p] == c)
    ensures forall i | from <= i < (if p < 0 then |s| else p) :: s[i] != c
    decreases |s| - from
  {
    if from == |s| then -1 else if s[from] == c then from else FindChar(s, c, from + 1)
  }

  /** std::isspace in the C locale. */
  const SPACES := {' ', '\t', '\n', 11 as char, 12 as char, '\r'}

  /** Position of the first character at or after `p` that is not in `spaces`. */
  function SkipSpaces(s: string, p: nat, spaces: set<char>): (e: nat)
    requires p <= |s|
    ensures p <= e <= |s|
    decreases |s| - p
  {
    if p < |s| && s[p] in spaces then SkipSpaces(s, p + 1, spaces) else p
  }

  lemma {:induction false} SkipsSpaces(s: string, p: nat, e: nat, spaces: set<char>)
    requires p <= e <= |s|
    requires forall i | p <= i < e :: s[i] in spaces
    requires e < |s| ==> s[e] !in spaces
    ensures SkipSpaces(s, p, spaces) == e
    decreases e - p
  {
    if p < e {
      SkipsSpaces(s, p + 1, e, spaces);
    }
  }

  // ----- Decimal numerals -----------------------------------------------------

  predicate IsDigit(c: char) { '0' <= c <= '9' }

  function DigitValue(c: char): (d: nat)
    requires IsDigit(c)
    ensures d < 10
  {
    c as int - '0' as int
  }

  /** Decimal digits of a natural number without leading zeros (std::to_string). */
  function NatText(n: nat): (s: string)
    ensures |s| > 0 && forall i | 0 <= i < |s| :: IsDigit(s[i])
  {
    var d := (n % 10 + '0' as int) as char;
    if n < 10 then [d] else NatText(n / 10) + [d]
  }

  function IntText(n: int): (s: string)
    ensures |s| > 0
  {
    if n < 0 then "-" + NatText(-n) else NatText(n)
  }

  /** Position of the first non-digit at or after `p`. */
  function DigitsEnd(s: string, p: nat): (e: nat)
    requires p <= |s|
    ensures p <= e <= |s|
    ensures forall i | p <= i < e :: IsDigit(s[i])
    ensures e < |s| ==> !IsDigit(s[e])
    decreases |s| - p
  {
    if p < |s| && IsDigit(s[p]) then DigitsEnd(s, p + 1) else p
  }

  function NatValue(s: string): nat
    requires forall i | 0 <= i < |s| :: IsDigit(s[i])
  {
    if s == [] then 0 else NatValue(s[..|s| - 1]) * 10 + DigitValue(s[|s| - 1])
  }

  lemma {:induction false} NatTextValue(n: nat)
    ensures NatValue(NatText(n)) == n
  {
    var s := NatText(n);
    if n < 10 {
      assert s[..0] == [];
    } else {
      NatTextValue(n / 10);
      assert s[..|s| - 1] == NatText(n / 10);
    }
  }
}
