/**
 * The first match of the non-global regular expression
 * `[a-zA-Z0-9._-]+@[a-zA-Z0-9._-]+\.[a-zA-Z0-9._-]+` in a page's rendered text, written
 * out as the leftmost-match search with the backtracking the engine performs.
 */
module EmailMatch {
  import opened Wrappers
  import opened Text

  /** The class `[a-zA-Z0-9._-]`. Note that it contains the dot. */
  predicate IsWordChar(c: char) {
    ('a' <= c <= 'z') || ('A' <= c <= 'Z') || ('0' <= c <= '9') || c == '.' || c == '_' || c == '-'
  }

  /**
   * `m` splits as local part, `@` at `a`, domain, `.` at `d`, top-level part, the three parts
   * non-empty runs of the class: the pattern matches the whole of `m` with this split.
   */
  predicate EmailSplit(m: string, a: nat, d: nat) {
    && 0 < a && a + 1 < d && d + 1 < |m|
    && m[a] == '@' && m[d] == '.'
    && All(m[..a], IsWordChar) && All(m[a + 1..d], IsWordChar) && All(m[d + 1..], IsWordChar)
  }

  /** An address assembled from three non-empty runs of the class splits at its `@` and its dot. */
  lemma PartsSplit(local: string, domain: string, tld: string)
    requires 0 < |local| && 0 < |domain| && 0 < |tld|
    requires All(local, IsWordChar) && All(domain, IsWordChar) && All(tld, IsWordChar)
    ensures EmailSplit(local + "@" + domain + "." + tld, |local|, |local| + 1 + |domain|)
  {
    var m := local + "@" + domain + "." + tld;
    var a, d := |local|, |local| + 1 + |domain|;
    assert m[..a] == local;
    assert m[a + 1..d] == domain;
    assert m[d + 1..] == tld;
  }

  /** The pattern matches the whole of `m`. */
  ghost predicate IsEmailShaped(m: string) {
    exists a: nat, d: nat :: EmailSplit(m, a, d)
  }

  /**
   * The position of the last `.` in `s[lo..hi]`, if there is one: the split the engine
   * settles on when the greedy domain part gives back characters one at a time.
   */
  function LastDot(s: string, lo: nat, hi: nat): (r: Option<nat>)
    requires lo <= hi <= |s|
    ensures r.Some? ==> lo <= r.value < hi && s[r.value] == '.'
    ensures r.Some? ==> forall k :: r.value < k < hi ==> s[k] != '.'
    ensures r.None? ==> forall k :: lo <= k < hi ==> s[k] != '.'
    decreases hi - lo
  {
    if hi == lo then None
    else if s[hi - 1] == '.' then Some(hi - 1)
    else LastDot(s, lo, hi - 1)
  }

  /**
   * End of the pattern's match at position `i`, if it matches there. The local part is the
   * maximal run from `i` (the class excludes `@`, so backtracking cannot help it); the domain
   * and top-level parts share the maximal run after `@`, split at a dot that leaves at least
   * one character on each side, and the top-level part then runs to the end of that run.
   */
  function EmailMatchAt(s: string, i: nat): (r: Option<nat>)
  {
    if i >= |s| then None
    else
      var p := RunEnd(s, i, IsWordChar);
      if p == i || p == |s| || s[p] != '@' then None
      else
        var q := RunEnd(s, p + 1, IsWordChar);
        if q < p + 3 then None
        else if LastDot(s, p + 2, q - 1).Some? then Some(q)
        else None
  }

  /** A match found at `i` is email-shaped and maximal: it stops at a character outside the class. */
  lemma EmailMatchAtSound(s: string, i: nat)
    requires EmailMatchAt(s, i).Some?
    ensures i < EmailMatchAt(s, i).value <= |s|
    ensures IsEmailShaped(s[i..EmailMatchAt(s, i).value])
    ensures EmailMatchAt(s, i).value == |s| || !IsWordChar(s[EmailMatchAt(s, i).value])
  {
    var p := RunEnd(s, i, IsWordChar);
    var q := RunEnd(s, p + 1, IsWordChar);
    var d := LastDot(s, p + 2, q - 1).value;
    var m := s[i..q];
    var a, d' := p - i, d - i;
    assert m[..a] == s[i..p];
    assert m[a + 1..d'] == s[p + 1..d];
    assert m[d' + 1..] == s[d + 1..q];
    assert EmailSplit(m, a, d');
  }

  /** Where some email-shaped substring starts at `i`, the pattern matches at `i`. */
  lemma EmailMatchAtComplete(s: string, i: nat, j: nat, a: nat, d: nat)
    requires i <= j <= |s|
    requires EmailSplit(s[i..j], a, d)
    ensures EmailMatchAt(s, i).Some?
  {
    var m := s[i..j];
    var p := i + a;
    forall k | i <= k < p ensures IsWordChar(s[k]) {
      assert s[k] == m[..a][k - i];
    }
    assert s[p] == m[a];
    RunEndIs(s, i, p, IsWordChar);
    forall k | p + 1 <= k < j ensures IsWordChar(s[k]) {
      if k < i + d {
        assert s[k] == m[a + 1..d][k - p - 1];
      } else if k == i + d {
        assert s[k] == m[d];
      } else {
        assert s[k] == m[d + 1..][k - i - d - 1];
      }
    }
    RunEndCovers(s, p + 1, j, IsWordChar);
    var q := RunEnd(s, p + 1, IsWordChar);
    assert s[i + d] == m[d];
    assert LastDot(s, p + 2, q - 1).Some?;
  }

  /**
   * The first match searching from `pos`: the leftmost position where the pattern
   * matches, with the end of its match.
   */
  function FirstSpan(s: string, pos: nat): (r: Option<(nat, nat)>)
    ensures r.Some? ==> pos <= r.value.0 && EmailMatchAt(s, r.value.0) == Some(r.value.1)
    ensures r.Some? ==> forall k: nat :: pos <= k < r.value.0 ==> EmailMatchAt(s, k).None?
    ensures r.None? ==> forall k: nat :: pos <= k ==> EmailMatchAt(s, k).None?
    decreases |s| - pos
  {
    if pos >= |s| then None
    else
      match EmailMatchAt(s, pos)
      case Some(e) => Some((pos, e))
      case None => FirstSpan(s, pos + 1)
  }

  /** `text.match(emailRegex)[0]`: the first email-shaped match in `text`, if any. */
  function FirstEmail(text: string): (r: Option<string>)
    ensures r.Some? ==> IsEmailShaped(r.value)
  {
    match FirstSpan(text, 0)
    case None => None
    case Some(span) =>
      EmailMatchAtSound(text, span.0);
      Some(text[span.0..span.1])
  }

  /**
   * No match exactly when no substring of `text` is email-shaped; a match is an
   * email-shaped substring that starts at the leftmost position where one starts.
   */
  lemma FirstEmailCharacterized(text: string)
    ensures FirstEmail(text).None? <==>
      forall i: nat, j: nat :: i <= j <= |text| ==> !IsEmailShaped(text[i..j])
    ensures FirstEmail(text).Some? ==>
      exists i: nat, j: nat :: i < j <= |text| && FirstEmail(text).value == text[i..j]
        && IsEmailShaped(text[i..j])
        && (j == |text| || !IsWordChar(text[j]))
        && forall k: nat, l: nat :: k < i && k <= l <= |text| ==> !IsEmailShaped(text[k..l])
  {
    forall k: nat, l: nat | k <= l <= |text| && IsEmailShaped(text[k..l])
      ensures EmailMatchAt(text, k).Some?
    {
      var a: nat, d: nat :| EmailSplit(text[k..l], a, d);
      EmailMatchAtComplete(text, k, l, a, d);
    }
    match FirstSpan(text, 0)
    case None =>
    case Some(span) =>
      EmailMatchAtSound(text, span.0);
  }

  /** No match starts inside text without `@` that ends in a character outside the class. */
  lemma NoMatchBeforeSeparator(pre: string, m: string, k: nat)
    requires 0 < |pre| && !IsWordChar(pre[|pre| - 1])
    requires forall k :: 0 <= k < |pre| ==> pre[k] != '@'
    requires k < |pre|
    ensures EmailMatchAt(pre + m, k).None?
  {
    var s := pre + m;
    var n := |pre|;
    var p := RunEnd(s, k, IsWordChar);
    assert s[n - 1] == pre[n - 1];
    assert p < n && s[p] == pre[p];
  }

  /** An address that runs to the end of the text matches in full from its first character. */
  lemma MatchToEnd(s: string, n: nat, a: nat, d: nat)
    requires n <= |s|
    requires EmailSplit(s[n..], a, d)
    ensures EmailMatchAt(s, n) == Some(|s|)
  {
    var m := s[n..];
    forall k | n <= k < n + a ensures IsWordChar(s[k]) {
      assert s[k] == m[..a][k - n];
    }
    assert s[n + a] == m[a];
    RunEndIs(s, n, n + a, IsWordChar);
    var p := n + a;
    forall k | p + 1 <= k < |s| ensures IsWordChar(s[k]) {
      if k < n + d {
        assert s[k] == m[a + 1..d][k - p - 1];
      } else if k == n + d {
        assert s[k] == m[d];
      } else {
        assert s[k] == m[d + 1..][k - n - d - 1];
      }
    }
    RunEndIs(s, p + 1, |s|, IsWordChar);
    assert s[n + d] == m[d];
    assert LastDot(s, p + 2, |s| - 1).Some?;
  }

  /**
   * Rendered text made of words without `@`, a separator outside the class, and then one
   * address to the end yields exactly that address.
   */
  lemma FirstEmailAfterSeparator(pre: string, m: string, a: nat, d: nat)
    requires 0 < |pre| && !IsWordChar(pre[|pre| - 1])
    requires forall k :: 0 <= k < |pre| ==> pre[k] != '@'
    requires EmailSplit(m, a, d)
    ensures FirstEmail(pre + m) == Some(m)
  {
    var s := pre + m;
    var n := |pre|;
    forall k: nat | k < n ensures EmailMatchAt(s, k).None? {
      NoMatchBeforeSeparator(pre, m, k);
    }
    assert s[n..] == m;
    MatchToEnd(s, n, a, d);
    assert s[n..|s|] == m;
  }
}
