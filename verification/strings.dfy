/**
  The JavaScript string primitives the bundler relies on, over `seq<char>`:
  `endsWith`, `includes`/`indexOf` with a start position, `charAt`, and
  `toLowerCase` restricted to ASCII (the only characters it is applied to here).
 */
module Strings {

  /** A character of the regular-expression class `\w`: `[A-Za-z0-9_]`. */
  predicate IsWordChar(c: char) {
    ('A' <= c <= 'Z') || ('a' <= c <= 'z') || ('0' <= c <= '9') || c == '_'
  }

  predicate IsUpperAscii(c: char) {
    'A' <= c <= 'Z'
  }

  /** A word character that `toLowerCase` leaves unchanged. */
  predicate IsLowerWordChar(c: char) {
    IsWordChar(c) && !IsUpperAscii(c)
  }

  /** `toLowerCase` of one ASCII character; every other character is kept. */
  function LowerChar(c: char): char {
    if IsUpperAscii(c) then (c as int + 32) as char else c
  }

  /** `toLowerCase` of a string, character by character. */
  function Lower(s: string): string {
    seq(|s|, i requires 0 <= i < |s| => LowerChar(s[i]))
  }

  /** `s.endsWith(p)`. */
  predicate EndsWith(s: string, p: string) {
    |p| <= |s| && s[|s| - |p|..] == p
  }

  /** `p` occurs in `s` starting at index `i`. */
  predicate OccursAt(s: string, p: string, i: int) {
    0 <= i && i + |p| <= |s| && s[i..i + |p|] == p
  }

  /** The start position `indexOf` and `includes` actually use: clamped to `[0, |s|]`. */
  function ClampStart(s: string, from: int): (start: nat)
    ensures start <= |s|
  {
    if from < 0 then 0 else if from > |s| then |s| else from
  }

  /** `s.indexOf(p, from)`: the first occurrence of `p` at or after `from`, or -1. */
  function IndexOf(s: string, p: string, from: int): (r: int)
    ensures r == -1 <==> forall k :: ClampStart(s, from) <= k ==> !OccursAt(s, p, k)
    ensures r != -1 ==> ClampStart(s, from) <= r && OccursAt(s, p, r)
    ensures r != -1 ==> forall k :: ClampStart(s, from) <= k < r ==> !OccursAt(s, p, k)
    decreases |s| - ClampStart(s, from)
  {
    var start := ClampStart(s, from);
    if start + |p| > |s| then -1
    else if OccursAt(s, p, start) then start
    else IndexOf(s, p, start + 1)
  }

  /** `s.includes(p, from)`. */
  predicate Includes(s: string, p: string, from: int) {
    IndexOf(s, p, from) != -1
  }

  /** `s.charAt(i)`: a one-character string, or the empty string out of range. */
  function CharAt(s: string, i: int): string {
    if 0 <= i < |s| then [s[i]] else ""
  }

  /** A character whose lower case is a word character is itself a word character. */
  lemma LowerCharWord(c: char)
    ensures IsWordChar(LowerChar(c)) <==> IsWordChar(c)
    ensures IsWordChar(c) ==> IsLowerWordChar(LowerChar(c))
  {
  }

  /** Two suffixes of one string: the shorter is a suffix of the longer. */
  lemma SuffixesNest(u: string, a: string, b: string)
    requires EndsWith(u, a) && EndsWith(u, b) && |a| <= |b|
    ensures EndsWith(b, a)
  {
    assert b[|b| - |a|..] == u[|u| - |b|..][|b| - |a|..] == u[|u| - |a|..];
  }

  /** Occurrences in a suffix `s[i..]` are the occurrences in `s` shifted by `i`. */
  lemma OccursInSuffix(s: string, p: string, i: int, k: int)
    requires 0 <= i <= |s| && 0 <= k
    ensures OccursAt(s[i..], p, k) <==> OccursAt(s, p, i + k)
  {
    if i + k + |p| <= |s| {
      assert s[i..][k..k + |p|] == s[i + k..i + k + |p|];
    }
  }
}
