/**
 * The few Python string operations the program relies on: `str.strip()`,
 * `sep.join(parts)` and `str(n)` for the 1-based page and image numbers
 * written into file names and page headers.
 */
module Strings {

  /** The characters Python's `str.isspace()` accepts, which `str.strip()` removes. */
  predicate IsSpace(c: char) {
    || c == ' '
    || ('\t' <= c <= '\r')
    || ('\U{1C}' <= c <= '\U{1F}')
    || c == '\U{85}'
    || c == '\U{A0}'
    || c == '\U{1680}'
    || ('\U{2000}' <= c <= '\U{200A}')
    || c == '\U{2028}'
    || c == '\U{2029}'
    || c == '\U{202F}'
    || c == '\U{205F}'
    || c == '\U{3000}'
  }

  ghost predicate AllSpace(s: string) {
    forall i :: 0 <= i < |s| ==> IsSpace(s[i])
  }

  /** Every character of `s` before index `a` is blank. */
  ghost predicate BlankBefore(s: string, a: int) {
    forall i :: 0 <= i < a && i < |s| ==> IsSpace(s[i])
  }

  /** Every character of `s` from index `e` on is blank. */
  ghost predicate BlankFrom(s: string, e: int) {
    forall i :: e <= i < |s| && 0 <= i ==> IsSpace(s[i])
  }

  /**
   * `s[a..e]` is what stripping leaves of `s`: everything outside it is blank
   * and, when it is not empty, it starts and ends with a non-blank.
   */
  ghost predicate StripsTo(s: string, a: int, e: int) {
    && 0 <= a <= e <= |s|
    && BlankBefore(s, a)
    && BlankFrom(s, e)
    && (a < e ==> !IsSpace(s[a]) && !IsSpace(s[e - 1]))
  }

  /** `r` is what `s.strip()` returns: `s` with its leading and trailing blanks removed. */
  ghost predicate IsStripOf(s: string, r: string) {
    exists a, e :: StripsTo(s, a, e) && s[a..e] == r
  }

  /** Index of the first non-blank of `s` at or after `i`, or `|s|`. */
  function SkipBlanks(s: string, i: nat): (k: nat)
    requires i <= |s|
    ensures i <= k <= |s|
    ensures forall j :: i <= j < k ==> IsSpace(s[j])
    ensures k < |s| ==> !IsSpace(s[k])
    decreases |s| - i
  {
    if i == |s| || !IsSpace(s[i]) then i else SkipBlanks(s, i + 1)
  }

  /** The end of `s[a..e]` once its trailing blanks are dropped. */
  function TrimBlanks(s: string, a: nat, e: nat): (k: nat)
    requires a <= e <= |s|
    ensures a <= k <= e
    ensures forall j :: k <= j < e ==> IsSpace(s[j])
    ensures k > a ==> !IsSpace(s[k - 1])
    decreases e - a
  {
    if e == a || !IsSpace(s[e - 1]) then e else TrimBlanks(s, a, e - 1)
  }

  /** Python's `s.strip()`: drop the leading blanks, then the trailing ones. */
  function Strip(s: string): string {
    var a := SkipBlanks(s, 0);
    s[a..TrimBlanks(s, a, |s|)]
  }

  /** `Strip` removes exactly the blanks at both ends and nothing else. */
  lemma StripMeetsDefinition(s: string)
    ensures |Strip(s)| <= |s|
    ensures IsStripOf(s, Strip(s))
  {
    var a := SkipBlanks(s, 0);
    var e := TrimBlanks(s, a, |s|);
    assert StripsTo(s, a, e);
  }

  /** Any two ways of stripping `s` leave the same text. */
  lemma StripsToUnique(s: string, a1: int, e1: int, a2: int, e2: int)
    requires StripsTo(s, a1, e1) && StripsTo(s, a2, e2)
    ensures s[a1..e1] == s[a2..e2]
  {
    // a non-empty remainder starts at the first non-blank and ends after the last one
    if a1 < e1 && a2 < e2 {
      assert a1 == a2;
      assert e1 == e2;
    }
  }

  /** A string strips to the empty string exactly when it is all blanks. */
  lemma StripEmptyIff(s: string, r: string)
    requires IsStripOf(s, r)
    ensures r == [] <==> AllSpace(s)
  {
    var a, e :| StripsTo(s, a, e) && s[a..e] == r;
    if a < e {
      assert r[0] == s[a];
    }
  }

  /** `IsStripOf` pins its result down: there is exactly one stripped form of a string. */
  lemma StripUnique(s: string, r1: string, r2: string)
    requires IsStripOf(s, r1) && IsStripOf(s, r2)
    ensures r1 == r2
  {
    var a1, e1 :| StripsTo(s, a1, e1) && s[a1..e1] == r1;
    var a2, e2 :| StripsTo(s, a2, e2) && s[a2..e2] == r2;
    StripsToUnique(s, a1, e1, a2, e2);
  }

  /** A stripped string has nothing left to strip. */
  lemma StrippedHasNoBlankEnds(s: string)
    ensures StripsTo(Strip(s), 0, |Strip(s)|)
  {
    var a := SkipBlanks(s, 0);
    var e := TrimBlanks(s, a, |s|);
    var r := Strip(s);
    if 0 < |r| {
      assert r[0] == s[a] && r[|r| - 1] == s[e - 1];
    }
  }

  /** Stripping twice is stripping once. */
  lemma StripIdempotent(s: string)
    ensures Strip(Strip(s)) == Strip(s)
  {
    var r := Strip(s);
    StrippedHasNoBlankEnds(s);
    assert SkipBlanks(r, 0) == 0;
    assert TrimBlanks(r, 0, |r|) == |r|;
    assert r[0..|r|] == r;
  }

  /** Python's `sep.join(parts)`. */
  function Join(sep: string, parts: seq<string>): (r: string)
    ensures |parts| == 0 ==> r == []
    ensures |parts| == 1 ==> r == parts[0]
    ensures |parts| > 0 ==> |r| >= |parts[0]| && r[..|parts[0]|] == parts[0]
  {
    if |parts| == 0 then []
    else if |parts| == 1 then parts[0]
    else parts[0] + sep + Join(sep, parts[1..])
  }

  /** Joining one more part appends the separator and that part: the shape of a loop that appends. */
  lemma {:induction false} JoinSnoc(sep: string, parts: seq<string>, p: string)
    requires |parts| > 0
    ensures Join(sep, parts + [p]) == Join(sep, parts) + sep + p
    decreases |parts|
  {
    if |parts| == 1 {
      assert parts + [p] == [parts[0], p];
      assert (parts + [p])[1..] == [p];
    } else {
      assert (parts + [p])[1..] == parts[1..] + [p];
      JoinSnoc(sep, parts[1..], p);
    }
  }

  predicate IsDigit(c: char) {
    '0' <= c <= '9'
  }

  ghost predicate AllDigits(s: string) {
    forall i :: 0 <= i < |s| ==> IsDigit(s[i])
  }

  function DigitChar(d: nat): (c: char)
    requires d < 10
    ensures IsDigit(c) && c as int - '0' as int == d
  {
    (('0' as int) + d) as char
  }

  /** Python's `str(n)` for a non-negative integer: its decimal digits, most significant first. */
  function NatToString(n: nat): (r: string)
    ensures |r| > 0 && AllDigits(r)
    ensures r[0] == '0' ==> n == 0 && r == "0"
  {
    if n < 10 then [DigitChar(n)] else NatToString(n / 10) + [DigitChar(n % 10)]
  }

  /** The value of a string of decimal digits. */
  function ParseDigits(s: string): nat
    requires AllDigits(s)
  {
    if |s| == 0 then 0 else ParseDigits(s[..|s| - 1]) * 10 + (s[|s| - 1] as int - '0' as int)
  }

  /** Reading back the decimal form of `n` gives `n`. */
  lemma {:induction false} ParseNatToString(n: nat)
    ensures ParseDigits(NatToString(n)) == n
    decreases n
  {
    var r := NatToString(n);
    if n >= 10 {
      ParseNatToString(n / 10);
      assert r[..|r| - 1] == NatToString(n / 10);
    }
  }

  /** Distinct numbers have distinct decimal forms. */
  lemma NatToStringInjective(m: nat, n: nat)
    requires NatToString(m) == NatToString(n)
    ensures m == n
  {
    ParseNatToString(m);
    ParseNatToString(n);
  }

  /** Distinct numbers have distinct decimal forms, stated positively. */
  lemma NatToStringDistinct(m: nat, n: nat)
    requires m != n
    ensures NatToString(m) != NatToString(n)
  {
    ParseNatToString(m);
    ParseNatToString(n);
  }

  /** Python's `str(i)` for any integer. */
  function IntToString(i: int): (r: string)
    ensures |r| > 0
    ensures i >= 0 <==> IsDigit(r[0])
  {
    if i < 0 then "-" + NatToString(-i) else NatToString(i)
  }

  /** Length of the run of decimal digits at the start of `s`. */
  function LeadingDigits(s: string): (k: nat)
    ensures k <= |s|
    ensures AllDigits(s[..k])
    ensures k < |s| ==> !IsDigit(s[k])
  {
    if |s| == 0 || !IsDigit(s[0]) then 0
    else
      var k := 1 + LeadingDigits(s[1..]);
      assert s[..k] == [s[0]] + s[1..][..k - 1];
      k
  }

  /** A digit string followed by a non-digit is read back whole by `LeadingDigits`. */
  lemma LeadingDigitsOf(d: string, rest: string)
    requires AllDigits(d)
    requires |rest| > 0 && !IsDigit(rest[0])
    ensures LeadingDigits(d + rest) == |d|
  {
    var s := d + rest;
    var k := LeadingDigits(s);
    assert s[|d|] == rest[0];
    assert forall i :: 0 <= i < |d| ==> s[i] == d[i];
    assert forall i :: 0 <= i < k ==> IsDigit(s[i]) by {
      forall i | 0 <= i < k ensures IsDigit(s[i]) { assert s[..k][i] == s[i]; }
    }
  }

  /** A common prefix cancels. */
  lemma PrefixCancel(p: string, a: string, b: string)
    requires p + a == p + b
    ensures a == b
  {
    assert a == (p + a)[|p|..];
    assert b == (p + b)[|p|..];
  }

  /** A common suffix cancels. */
  lemma SuffixCancel(a: string, b: string, q: string)
    requires a + q == b + q
    ensures a == b
  {
    assert a == (a + q)[..|a|];
    assert b == (b + q)[..|b|];
  }

  /** A digit string followed by a non-digit splits back into the same two pieces. */
  lemma SplitAfterDigits(d1: string, r1: string, d2: string, r2: string)
    requires AllDigits(d1) && AllDigits(d2)
    requires |r1| > 0 && !IsDigit(r1[0]) && |r2| > 0 && !IsDigit(r2[0])
    requires d1 + r1 == d2 + r2
    ensures d1 == d2 && r1 == r2
  {
    var s := d1 + r1;
    LeadingDigitsOf(d1, r1);
    LeadingDigitsOf(d2, r2);
    assert d1 == s[..|d1|] && r1 == s[|d1|..];
    assert d2 == s[..|d2|] && r2 == s[|d2|..];
  }

  /** The run of decimal digits that starts at index `k` of `s`. */
  function DigitsAt(s: string, k: nat): string {
    if k > |s| then "" else s[k..][..LeadingDigits(s[k..])]
  }

  /** A digit string placed after `p` and before a non-digit is read back by `DigitsAt`. */
  lemma DigitsAtOf(p: string, d: string, rest: string)
    requires AllDigits(d)
    requires |rest| > 0 && !IsDigit(rest[0])
    ensures DigitsAt(p + d + rest, |p|) == d
  {
    var s := p + d + rest;
    assert s[|p|..] == d + rest;
    LeadingDigitsOf(d, rest);
    assert (d + rest)[..|d|] == d;
  }
}
