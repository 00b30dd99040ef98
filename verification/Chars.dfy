/** Characters and substrings as JavaScript's string functions see them. */
module Chars {

  /** The characters `\s` matches and `trim` removes. */
  predicate IsSpace(c: char) {
    || '\t' <= c <= '\r' || c == ' ' || c == '\U{A0}' || c == '\U{1680}' || '\U{2000}' <= c <= '\U{200A}'
    || c == '\U{2028}' || c == '\U{2029}' || c == '\U{202F}' || c == '\U{205F}' || c == '\U{3000}' || c == '\U{FEFF}'
  }

  predicate At(s: string, t: string, k: nat) {
    k + |t| <= |s| && s[k..k + |t|] == t
  }

  /** `indexOf`: the first occurrence at or after `from`, or -1. */
  function IndexOfText(s: string, t: string, from: nat): (i: int)
    ensures i == -1 || (from <= i && i + |t| <= |s| && At(s, t, i))
    ensures forall k :: from <= k && (i == -1 || k < i) ==> !At(s, t, k)
    decreases |s| - from
  {
    if from + |t| > |s| then -1 else if At(s, t, from) then from else IndexOfText(s, t, from + 1)
  }

  /** `indexOf` for one character. */
  function IndexOf(s: string, c: char, from: nat): (i: int)
    requires from <= |s|
    ensures i == -1 || (from <= i < |s| && s[i] == c)
    ensures forall k :: from <= k < (if i == -1 then |s| else i) ==> s[k] != c
    decreases |s| - from
  {
    if from == |s| then -1 else if s[from] == c then from else IndexOf(s, c, from + 1)
  }
}
