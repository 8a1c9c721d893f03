/**
 Character classes and string operations the clause analyser relies on:
 whitespace as Python's `str.isspace` (and the regex class `\s`) sees it,
 ASCII digits and upper-case letters, lower-casing, substring search
 (Python's `in` on strings) and `str.strip()`.
 */
module Text {

  /** Python's whitespace: the characters for which `str.isspace()` holds,
      which are also the characters the regex class `\s` matches. */
  predicate IsSpace(c: char) {
    var n := c as int;
    || (0x09 <= n <= 0x0D)
    || (0x1C <= n <= 0x20)
    || n == 0x85 || n == 0xA0 || n == 0x1680
    || (0x2000 <= n <= 0x200A)
    || n == 0x2028 || n == 0x2029 || n == 0x202F || n == 0x205F || n == 0x3000
  }

  /** The regex class `\d`, restricted to ASCII digits. */
  predicate IsDigit(c: char) {
    '0' <= c <= '9'
  }

  /** The regex class `[A-Z]`. */
  predicate IsUpper(c: char) {
    'A' <= c <= 'Z'
  }

  /** Every character of `s` is whitespace. */
  predicate AllSpace(s: string) {
    forall i :: 0 <= i < |s| ==> IsSpace(s[i])
  }

  /** `s` neither starts nor ends with whitespace: the shape of a `strip()` result. */
  predicate IsTrimmed(s: string) {
    |s| == 0 || (!IsSpace(s[0]) && !IsSpace(s[|s| - 1]))
  }

  /** ASCII lower-casing of one character. */
  function LowerChar(c: char): (r: char)
    ensures !IsUpper(r)
    ensures IsUpper(c) ==> r as int == c as int + 32
    ensures !IsUpper(c) ==> r == c
  {
    if IsUpper(c) then (c as int + 32) as char else c
  }

  /** `str.lower()`, on ASCII letters. */
  function Lower(s: string): (r: string)
    ensures |r| == |s|
    ensures forall i :: 0 <= i < |s| ==> r[i] == LowerChar(s[i])
  {
    if |s| == 0 then [] else [LowerChar(s[0])] + Lower(s[1..])
  }

  /** Lower-casing twice is lower-casing once. */
  lemma LowerIdempotent(s: string)
    ensures Lower(Lower(s)) == Lower(s)
  {
    assert forall i :: 0 <= i < |s| ==> Lower(Lower(s))[i] == LowerChar(LowerChar(s[i]));
  }

  /** A string without upper-case letters is its own lower-cased copy. */
  lemma LowerKeepsLower(s: string)
    requires forall i :: 0 <= i < |s| ==> !IsUpper(s[i])
    ensures Lower(s) == s
  {
  }

  /** Lower-casing works character by character, so it distributes over `+`. */
  lemma LowerAppend(a: string, b: string)
    ensures Lower(a + b) == Lower(a) + Lower(b)
  {
    var l := Lower(a + b);
    forall i | 0 <= i < |a + b|
      ensures l[i] == (Lower(a) + Lower(b))[i]
    {
      if i < |a| {
        assert (a + b)[i] == a[i];
      } else {
        assert (a + b)[i] == b[i - |a|];
      }
    }
  }

  /** `w` occurs in `s` starting at offset `k`. */
  predicate OccursAt(s: string, k: nat, w: string) {
    k + |w| <= |s| && s[k..k + |w|] == w
  }

  /** An occurrence inside an occurrence is an occurrence. */
  lemma OccursWithin(t: string, a: nat, s: string, b: nat, w: string)
    requires OccursAt(t, a, s) && OccursAt(s, b, w)
    ensures OccursAt(t, a + b, w)
  {
    forall m | 0 <= m < |w|
      ensures t[a + b..a + b + |w|][m] == w[m]
    {
      assert w[m] == s[b + m] == t[a + b + m];
    }
  }

  /** An occurrence survives lower-casing both strings. */
  lemma LowerOccurs(s: string, k: nat, w: string)
    requires OccursAt(s, k, w)
    ensures OccursAt(Lower(s), k, Lower(w))
  {
    forall m | 0 <= m < |w|
      ensures Lower(s)[k..k + |w|][m] == Lower(w)[m]
    {
      assert w[m] == s[k + m];
    }
  }

  /** Python's `w in s` on strings. */
  predicate Contains(s: string, w: string) {
    exists k: nat | k <= |s| :: OccursAt(s, k, w)
  }

  /** Number of leading whitespace characters of `s`. */
  function LeadingSpace(s: string): (n: nat)
    ensures n <= |s|
    ensures forall i :: 0 <= i < n ==> IsSpace(s[i])
    ensures n == |s| || !IsSpace(s[n])
  {
    if |s| == 0 || !IsSpace(s[0]) then 0 else 1 + LeadingSpace(s[1..])
  }

  /** Number of trailing whitespace characters of `s`. */
  function TrailingSpace(s: string): (n: nat)
    ensures n <= |s|
    ensures forall i :: |s| - n <= i < |s| ==> IsSpace(s[i])
    ensures n == |s| || !IsSpace(s[|s| - n - 1])
  {
    if |s| == 0 || !IsSpace(s[|s| - 1]) then 0 else 1 + TrailingSpace(s[..|s| - 1])
  }

  /** `str.strip()`: the result is the infix of `s` left after removing
      whitespace at both ends, and it starts at offset `LeadingSpace(s)`. */
  function Trim(s: string): (r: string)
    ensures IsTrimmed(r)
    ensures LeadingSpace(s) + |r| <= |s|
    ensures r == s[LeadingSpace(s)..LeadingSpace(s) + |r|]
    ensures AllSpace(s[..LeadingSpace(s)]) && AllSpace(s[LeadingSpace(s) + |r|..])
    ensures r == [] <==> AllSpace(s)
  {
    var lo := LeadingSpace(s);
    var hi := |s| - lo - TrailingSpace(s[lo..]);
    TrimShape(s, lo, hi);
    s[lo..lo + hi]
  }

  /** Stripping a string that is already stripped changes nothing. */
  lemma TrimTrimmed(s: string)
    requires IsTrimmed(s)
    ensures Trim(s) == s
  {
    assert LeadingSpace(s) == 0;
    assert s[0..] == s;
    assert TrailingSpace(s) == 0;
  }

  /** The facts `Trim` promises, for the infix it cuts out. */
  lemma TrimShape(s: string, lo: nat, hi: nat)
    requires lo == LeadingSpace(s)
    requires lo + hi <= |s| && hi == |s[lo..]| - TrailingSpace(s[lo..])
    ensures IsTrimmed(s[lo..lo + hi])
    ensures AllSpace(s[lo + hi..])
    ensures hi == 0 <==> AllSpace(s)
  {
    var rest := s[lo..];
    var n := TrailingSpace(rest);
    SpaceRange(s, 0, lo);
    SpaceRange(rest, hi, |rest|);
    assert s[lo + hi..] == rest[hi..];
    if hi > 0 {
      TrimmedInfix(s, lo, hi, rest, n);
    } else {
      assert rest[hi..] == rest;
      SpaceOnly(s, lo, rest);
    }
  }

  /** A run of whitespace characters, as a slice. */
  lemma SpaceRange(s: string, a: nat, b: nat)
    requires a <= b <= |s|
    requires forall i :: a <= i < b ==> IsSpace(s[i])
    ensures AllSpace(s[a..b])
    ensures b == |s| ==> AllSpace(s[a..])
  {
    forall i | 0 <= i < b - a
      ensures IsSpace(s[a..b][i])
    {
      assert s[a..b][i] == s[a + i];
    }
  }

  /** The infix left by `Trim`, when not empty, starts and ends with a
      non-space character, so `s` is not all whitespace. */
  lemma TrimmedInfix(s: string, lo: nat, hi: nat, rest: string, n: nat)
    requires 0 < hi && lo + hi <= |s| && rest == s[lo..]
    requires !IsSpace(s[lo]) && n < |rest| && hi == |rest| - n && !IsSpace(rest[|rest| - n - 1])
    ensures IsTrimmed(s[lo..lo + hi]) && !AllSpace(s)
  {
    var t := s[lo..lo + hi];
    assert t[0] == s[lo];
    assert t[hi - 1] == rest[|rest| - n - 1];
  }

  /** Leading whitespace followed by whitespace is all whitespace. */
  lemma SpaceOnly(s: string, lo: nat, rest: string)
    requires lo <= |s| && rest == s[lo..]
    requires AllSpace(s[..lo]) && AllSpace(rest)
    ensures AllSpace(s)
  {
    forall i | 0 <= i < |s|
      ensures IsSpace(s[i])
    {
      if i < lo {
        assert s[i] == s[..lo][i];
      } else {
        assert s[i] == rest[i - lo];
      }
    }
  }
}
