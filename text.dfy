/**
 * Character and string helpers shared by the classifiers: the ASCII part of
 * Python's case tests and lower-casing, substring search as Python's `in`,
 * single-character replacement and prefix slicing.
 */
module Text {

  /** Python `c.isupper()` for one ASCII character. */
  predicate IsUpperChar(c: char) { 'A' <= c <= 'Z' }

  /** Python `c.islower()` for one ASCII character. */
  predicate IsLowerChar(c: char) { 'a' <= c <= 'z' }

  function LowerChar(c: char): (d: char)
    ensures !IsUpperChar(d)
    ensures IsUpperChar(c) ==> IsLowerChar(d)
    ensures !IsUpperChar(c) ==> d == c
  {
    if IsUpperChar(c) then (c as int + 32) as char else c
  }

  /** Python `s.lower()`, restricted to ASCII letters. */
  function Lower(s: string): (r: string)
    ensures |r| == |s|
    ensures forall i :: 0 <= i < |s| ==> r[i] == LowerChar(s[i])
  {
    seq(|s|, i requires 0 <= i < |s| => LowerChar(s[i]))
  }

  /** Python `s.islower()`: at least one cased character and no upper-case one. */
  predicate IsLowerStr(s: string) {
    (exists i | 0 <= i < |s| :: IsLowerChar(s[i])) && forall i | 0 <= i < |s| :: !IsUpperChar(s[i])
  }

  predicate MatchesAt(s: string, sub: string, i: int) {
    0 <= i && i + |sub| <= |s| && s[i..i + |sub|] == sub
  }

  /** Python `sub in s`. The empty string occurs in every string. */
  predicate Contains(s: string, sub: string) {
    exists i | 0 <= i <= |s| - |sub| :: MatchesAt(s, sub, i)
  }

  /** Python `any(kw in s for kw in keywords)`. */
  predicate ContainsAny(s: string, keywords: seq<string>) {
    exists k | 0 <= k < |keywords| :: Contains(s, keywords[k])
  }

  /** A keyword written in lower case, as every keyword list of the source is. */
  predicate IsLowerKeyword(kw: string) {
    forall i | 0 <= i < |kw| :: !IsUpperChar(kw[i])
  }

  /** Lower-casing commutes with slicing. */
  lemma LowerSlice(s: string, i: int, j: int)
    requires 0 <= i <= j <= |s|
    ensures Lower(s)[i..j] == Lower(s[i..j])
  {
  }

  /**
   * Case-insensitive matching: if `s` holds, at position `i`, some spelling
   * `w` of a lower-case keyword in any letter case, the lower-cased `s`
   * contains the keyword.
   */
  lemma MatchInAnyCase(s: string, w: string, i: int, kw: string)
    requires MatchesAt(s, w, i)
    requires IsLowerKeyword(kw) && Lower(w) == kw
    ensures Contains(Lower(s), kw)
  {
    LowerSlice(s, i, i + |w|);
    assert MatchesAt(Lower(s), kw, i);
  }

  /** Python `s.replace(a, b)` for single characters `a` and `b`. */
  function ReplaceChar(s: string, a: char, b: char): (r: string)
    ensures |r| == |s|
    ensures a != b ==> a !in r
    ensures forall i :: 0 <= i < |s| ==> r[i] == (if s[i] == a then b else s[i])
  {
    seq(|s|, i requires 0 <= i < |s| => if s[i] == a then b else s[i])
  }

  /** Python `s[:n]`. */
  function Take<T>(s: seq<T>, n: nat): (r: seq<T>)
    ensures |r| == if |s| <= n then |s| else n
    ensures r == s[..|r|]
  {
    if |s| <= n then s else s[..n]
  }

  /** Appending to a list capped at `n` entries: `if len(s) < n: s.append(x)`. */
  lemma TakeSnoc<T>(s: seq<T>, x: T, n: nat)
    ensures Take(s + [x], n) == if |s| < n then s + [x] else Take(s, n)
  {
    if |s| >= n {
      assert (s + [x])[..n] == s[..n];
    }
  }

  /** A loop over `s` that has seen `i` elements sees one more. */
  lemma SliceSnoc<T>(s: seq<T>, i: nat)
    requires i < |s|
    ensures s[..i + 1] == s[..i] + [s[i]]
  {
  }
}
