/** The string tests the analyzer applies: Python's `str.lower()` and `str.endswith` for
    file names, the `in` operator for column labels, and a regular-expression search
    compiled with `re.IGNORECASE` for text cells. */
module Strings {

  /** ASCII lower-casing. For the file-name test this is all of `str.lower()` that can
      matter: no other character lowers to '.', 'x', 'l' or 's'. */
  function LowerChar(c: char): char
  {
    if 'A' <= c <= 'Z' then (c as int + 32) as char else c
  }

  function Lower(s: string): string
  {
    seq(|s|, i requires 0 <= i < |s| => LowerChar(s[i]))
  }

  /** How `re.IGNORECASE` compares characters for the letters in the failure keywords:
      ASCII letters by their lower case, and both the dotted capital I (U+0130) and the
      dotless small i (U+0131) as 'i'. CJK characters have no case. */
  function FoldChar(c: char): char
  {
    if c == '\U{0130}' || c == '\U{0131}' then 'i' else LowerChar(c)
  }

  function Fold(s: string): string
  {
    seq(|s|, i requires 0 <= i < |s| => FoldChar(s[i]))
  }

  /** `s.endswith(suffix)`. */
  predicate EndsWith(s: string, suffix: string)
  {
    |suffix| <= |s| && s[|s| - |suffix|..] == suffix
  }

  /** `sub in s`: `sub` occurs somewhere in `s` as a contiguous substring. */
  predicate Contains(s: string, sub: string)
  {
    exists i :: 0 <= i <= |s| && sub <= s[i..]
  }

  /** A substring placed anywhere in a string is found there. */
  lemma ContainsInside(before: string, sub: string, after: string)
    ensures Contains(before + sub + after, sub)
  {
    var s := before + sub + after;
    assert s[|before|..] == sub + after;
  }

  /** A string without the first character of `sub` does not contain `sub`. */
  lemma NotContainsWithoutFirst(s: string, sub: string)
    requires |sub| > 0 && sub[0] !in s
    ensures !Contains(s, sub)
  {
  }

  /** Lower-casing and folding work character by character, so they distribute over
      concatenation. */
  lemma LowerAppend(a: string, b: string)
    ensures Lower(a + b) == Lower(a) + Lower(b)
  {
  }

  lemma FoldAppend(a: string, b: string)
    ensures Fold(a + b) == Fold(a) + Fold(b)
  {
  }

  /** The test `EndsWith(Lower(s), suffix)` only looks at the end of `s`. */
  lemma {:induction false} EndsWithLowerOfTail(stem: string, tail: string, suffix: string)
    requires Lower(tail) == suffix
    ensures EndsWith(Lower(stem + tail), suffix)
  {
    LowerAppend(stem, tail);
    assert Lower(stem + tail) == Lower(stem) + suffix;
  }
}
