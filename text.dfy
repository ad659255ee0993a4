/** Character classes and runs shared by the two regular-expression scanners. */
module Text {
  /** The characters matched by `\s` in a JavaScript regular expression. */
  predicate IsSpace(c: char) {
    c == ' ' || c == '\t' || c == '\n' || c == '\U{B}' || c == '\U{C}' || c == '\r'
    || c == '\U{A0}' || c == '\U{1680}' || ('\U{2000}' <= c <= '\U{200A}')
    || c == '\U{2028}' || c == '\U{2029}' || c == '\U{202F}' || c == '\U{205F}'
    || c == '\U{3000}' || c == '\U{FEFF}'
  }

  /** The class `[^\s]`. */
  predicate NotSpace(c: char) {
    !IsSpace(c)
  }

  /** True when `w` starts with `prefix`. */
  predicate StartsWith(w: string, prefix: string) {
    |prefix| <= |w| && w[..|prefix|] == prefix
  }

  /** True when every character of `w` belongs to the class `p`. */
  predicate All(w: string, p: char -> bool) {
    forall k :: 0 <= k < |w| ==> p(w[k])
  }

  /**
   * End of the maximal run of `p`-characters that starts at `i`: what a greedy
   * `[...]*` consumes from position `i` before it meets a character outside the class.
   */
  function RunEnd(s: string, i: nat, p: char -> bool): (e: nat)
    requires i <= |s|
    ensures i <= e <= |s|
    ensures forall k :: i <= k < e ==> p(s[k])
    ensures e == |s| || !p(s[e])
    decreases |s| - i
  {
    if i == |s| || !p(s[i]) then i else RunEnd(s, i + 1, p)
  }

  /** A run that holds up to `e` and stops there is the maximal run. */
  lemma RunEndIs(s: string, i: nat, e: nat, p: char -> bool)
    requires i <= e <= |s|
    requires forall k :: i <= k < e ==> p(s[k])
    requires e == |s| || !p(s[e])
    ensures RunEnd(s, i, p) == e
  {
  }

  /** The maximal run reaches at least as far as any run of the class. */
  lemma RunEndCovers(s: string, i: nat, j: nat, p: char -> bool)
    requires i <= j <= |s|
    requires forall k :: i <= k < j ==> p(s[k])
    ensures j <= RunEnd(s, i, p)
  {
  }
}
