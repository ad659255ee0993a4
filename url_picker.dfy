/**
 * `extractLastUrl`: the global regular expression `https?:\/\/[^\s]+` applied to a
 * fragment, returning the last match or nothing. The regular-expression engine is written
 * out as an explicit scanner: at each position try the scheme followed by a maximal,
 * non-empty run of non-whitespace; on a match resume after it, otherwise advance by one.
 */
module UrlPicker {
  import opened Wrappers
  import opened Text

  /** Length of the scheme `https?://` when one starts at `i` (`https://` is tried first). */
  function SchemeAt(s: string, i: nat): (n: Option<nat>)
    ensures n.Some? ==> n.value in {7, 8} && i + n.value <= |s|
  {
    if i + 8 <= |s| && s[i..i + 8] == "https://" then Some(8)
    else if i + 7 <= |s| && s[i..i + 7] == "http://" then Some(7)
    else None
  }

  /** A string the pattern matches in full: a scheme and at least one further character, no whitespace. */
  predicate IsUrlShaped(u: string) {
    ((StartsWith(u, "http://") && |u| > 7) || (StartsWith(u, "https://") && |u| > 8))
    && All(u, NotSpace)
  }

  /**
   * End of the greedy match of the pattern at position `i`, if the pattern matches there.
   * The match is the longest URL-shaped string that starts at `i`, so it stops at
   * whitespace or at the end of the input.
   */
  function MatchEnd(s: string, i: nat): (r: Option<nat>)
    ensures r.Some? ==> i + 8 <= r.value <= |s|
    ensures r.Some? ==> IsUrlShaped(s[i..r.value])
    ensures r.Some? ==> r.value == |s| || IsSpace(s[r.value])
  {
    match SchemeAt(s, i)
    case None => None
    case Some(n) =>
      var e := RunEnd(s, i + n, NotSpace);
      if e == i + n then None
      else
        MatchShape(s, i, n, e);
        Some(e)
  }

  /** The scheme followed by a non-empty run of non-whitespace is URL-shaped. */
  lemma MatchShape(s: string, i: nat, n: nat, e: nat)
    requires SchemeAt(s, i) == Some(n)
    requires i + n < e <= |s|
    requires forall k :: i + n <= k < e ==> NotSpace(s[k])
    ensures IsUrlShaped(s[i..e])
  {
    PrefixOfSlice(s, i, n, e);
    var u := s[i..e];
    forall k | 0 <= k < |u| ensures NotSpace(u[k]) {
      assert u[k] == s[i + k];
      if k >= n {
        assert NotSpace(s[i + k]);
      } else {
        assert s[i + k] == s[i..i + n][k];
        SchemeHasNoSpace(s, i, n, k);
      }
    }
  }

  lemma SchemeHasNoSpace(s: string, i: nat, n: nat, k: nat)
    requires SchemeAt(s, i) == Some(n)
    requires k < n
    ensures NotSpace(s[i..i + n][k])
  {
    if n == 8 {
      assert s[i..i + n] == "https://";
    } else {
      assert s[i..i + n] == "http://";
    }
  }

  lemma PrefixOfSlice(s: string, i: nat, n: nat, e: nat)
    requires i + n <= e <= |s|
    ensures s[i..e][..n] == s[i..i + n]
  {
    assert |s[i..e][..n]| == n == |s[i..i + n]|;
    forall k | 0 <= k < n ensures s[i..e][..n][k] == s[i..i + n][k] {
      assert s[i..e][..n][k] == s[i + k];
    }
  }

  /**
   * The pattern matches at `i` exactly when some URL-shaped string starts there, and then
   * its match is the one that runs up to whitespace or the end of the input.
   */
  lemma MatchEndCharacterized(s: string, i: nat, j: nat)
    requires i <= j <= |s|
    ensures MatchEnd(s, i) == Some(j) <==> IsUrlShaped(s[i..j]) && (j == |s| || IsSpace(s[j]))
  {
    if IsUrlShaped(s[i..j]) && (j == |s| || IsSpace(s[j])) {
      var u := s[i..j];
      if StartsWith(u, "https://") && |u| > 8 {
        assert s[i..i + 8] == u[..8];
        assert SchemeAt(s, i) == Some(8);
        RunEndIsFrom(s, i, 8, j);
      } else {
        assert s[i..i + 7] == u[..7];
        assert s[i + 4] == ':';
        assert SchemeAt(s, i) == Some(7);
        RunEndIsFrom(s, i, 7, j);
      }
    }
  }

  lemma RunEndIsFrom(s: string, i: nat, n: nat, j: nat)
    requires i + n < j <= |s|
    requires All(s[i..j], NotSpace)
    requires j == |s| || IsSpace(s[j])
    ensures RunEnd(s, i + n, NotSpace) == j
  {
    forall k | i + n <= k < j ensures NotSpace(s[k]) {
      assert s[k] == s[i..j][k - i];
    }
    RunEndIs(s, i + n, j, NotSpace);
  }

  /** A match never extends over whitespace, so two matches that overlap end together. */
  lemma OverlappingMatchesEndTogether(s: string, a: nat, b: nat, k: nat, e: nat)
    requires MatchEnd(s, a) == Some(b)
    requires a <= k < b
    requires MatchEnd(s, k) == Some(e)
    ensures e == b
  {
  }

  /**
   * The spans `(start, end)` of the leftmost, non-overlapping matches found by scanning
   * from `pos`: the successive results of the regular expression's global search.
   */
  function Spans(s: string, pos: nat): (r: seq<(nat, nat)>)
    ensures forall m :: 0 <= m < |r| ==> pos <= r[m].0 && MatchEnd(s, r[m].0) == Some(r[m].1)
    ensures forall m :: 0 < m < |r| ==> r[m - 1].1 <= r[m].0
    decreases |s| - pos
  {
    if pos >= |s| then []
    else
      match MatchEnd(s, pos)
      case Some(e) => [(pos, e)] + Spans(s, e)
      case None => Spans(s, pos + 1)
  }

  /** The matched strings, in order: the array `text.match(URL_REGEX)` when it is not null. */
  function AllMatches(s: string): (ms: seq<string>)
    ensures forall m :: 0 <= m < |ms| ==> IsUrlShaped(ms[m])
  {
    var sp := Spans(s, 0);
    seq(|sp|, m requires 0 <= m < |sp| => s[sp[m].0 .. sp[m].1])
  }

  /** `extractLastUrl`: the last match, or nothing when the pattern does not match at all. */
  function ExtractLastUrl(text: string): (r: Option<string>)
    ensures r.Some? ==> IsUrlShaped(r.value)
    ensures r.None? <==> Spans(text, 0) == []
  {
    var ms := AllMatches(text);
    if |ms| == 0 then None else Some(ms[|ms| - 1])
  }

  /** No match from `pos` on exactly when the pattern matches at no position from `pos` on. */
  lemma {:induction false} SpansEmpty(s: string, pos: nat)
    ensures Spans(s, pos) == [] <==> forall k: nat :: pos <= k ==> MatchEnd(s, k).None?
    decreases |s| - pos
  {
    if pos < |s| {
      match MatchEnd(s, pos)
      case Some(e) =>
      case None =>
        SpansEmpty(s, pos + 1);
    }
  }

  /**
   * Every match that starts before `pos` ends by `pos`: the state of the global search when
   * it resumes at `pos`.
   */
  ghost predicate Resumable(s: string, pos: nat) {
    forall k: nat :: k < pos && MatchEnd(s, k).Some? ==> MatchEnd(s, k).value <= pos
  }

  /** After a match from `pos` to `e`, the search may resume at `e`. */
  lemma ResumeAfterMatch(s: string, pos: nat, e: nat)
    requires Resumable(s, pos)
    requires MatchEnd(s, pos) == Some(e)
    ensures Resumable(s, e)
  {
    forall k: nat | k < e && MatchEnd(s, k).Some? ensures MatchEnd(s, k).value <= e {
      if pos <= k {
        OverlappingMatchesEndTogether(s, pos, e, k, MatchEnd(s, k).value);
      }
    }
  }

  /**
   * The last match of a search resumed at `pos` starts at the first position whose match
   * ends where it ends, and the pattern matches nowhere after it.
   */
  lemma {:induction false} LastSpan(s: string, pos: nat)
    requires Resumable(s, pos)
    requires Spans(s, pos) != []
    ensures var last := Spans(s, pos)[|Spans(s, pos)| - 1];
      IsLastMatch(s, last.0, last.1)
    decreases |s| - pos
  {
    var r := MatchEnd(s, pos);
    if r.Some? {
      var e := r.value;
      if Spans(s, e) == [] {
        SpansEmpty(s, e);
        LastSpanAtEnd(s, pos, e);
        LastOfCons((pos, e), Spans(s, e));
      } else {
        ResumeAfterMatch(s, pos, e);
        LastSpan(s, e);
        LastOfCons((pos, e), Spans(s, e));
      }
    } else {
      LastSpan(s, pos + 1);
    }
  }

  /** A match after which the pattern matches nowhere is the last match. */
  lemma LastSpanAtEnd(s: string, pos: nat, e: nat)
    requires Resumable(s, pos)
    requires MatchEnd(s, pos) == Some(e)
    requires forall k: nat :: e <= k ==> MatchEnd(s, k).None?
    ensures IsLastMatch(s, pos, e)
  {
  }

  lemma LastOfCons<T>(x: T, rest: seq<T>)
    ensures var t := [x] + rest; t[|t| - 1] == if rest == [] then x else rest[|rest| - 1]
  {
  }

  /**
   * The last match of the pattern in `s` is `s[i..j]`: the pattern matches at `i` up to `j`,
   * nowhere at or after `j`, and at no earlier position with a match that also ends at `j`
   * (such a position would have been found first by the left-to-right search).
   */
  ghost predicate IsLastMatch(s: string, i: nat, j: nat) {
    && MatchEnd(s, i) == Some(j)
    && (forall k: nat :: j <= k ==> MatchEnd(s, k).None?)
    && (forall k: nat :: k < i ==> MatchEnd(s, k) != Some(j))
  }

  /** At most one span is the last match. */
  lemma IsLastMatchUnique(s: string, i: nat, j: nat, i': nat, j': nat)
    requires IsLastMatch(s, i, j) && IsLastMatch(s, i', j')
    ensures i == i' && j == j'
  {
    assert i < j' && i' < j;
    if i <= i' {
      OverlappingMatchesEndTogether(s, i, j, i', j');
    } else {
      OverlappingMatchesEndTogether(s, i', j', i, j);
    }
  }

  /** `extractLastUrl` returns null exactly when no position starts `http://` or `https://` and a non-space. */
  lemma ExtractLastUrlNone(text: string)
    ensures ExtractLastUrl(text).None? <==> forall k: nat :: MatchEnd(text, k).None?
  {
    SpansEmpty(text, 0);
  }

  /** Null exactly when no substring of the text is URL-shaped. */
  lemma ExtractLastUrlNoneIffNoUrl(text: string)
    ensures ExtractLastUrl(text).None? <==>
      forall k: nat, j: nat :: k <= j <= |text| ==> !IsUrlShaped(text[k..j])
  {
    ExtractLastUrlNone(text);
    forall k: nat, j: nat | k <= j <= |text| && IsUrlShaped(text[k..j])
      ensures MatchEnd(text, k).Some?
    {
      ExtendUrl(text, k, j);
    }
    forall k: nat | MatchEnd(text, k).Some?
      ensures IsUrlShaped(text[k..MatchEnd(text, k).value])
    {
    }
  }

  /** A URL-shaped substring extends to the end of its non-whitespace run, where the pattern's match ends. */
  lemma ExtendUrl(s: string, k: nat, j: nat)
    requires k <= j <= |s|
    requires IsUrlShaped(s[k..j])
    ensures MatchEnd(s, k).Some?
  {
    var e := RunEnd(s, j, NotSpace);
    var u, v := s[k..j], s[k..e];
    var n := if StartsWith(u, "https://") && |u| > 8 then 8 else 7;
    assert v[..n] == u[..n] by {
      forall m | 0 <= m < n ensures v[..n][m] == u[..n][m] {
        assert v[m] == s[k + m] == u[m];
      }
    }
    forall m | 0 <= m < |v| ensures NotSpace(v[m]) {
      assert v[m] == s[k + m];
      if k + m < j {
        assert u[m] == s[k + m];
      }
    }
    assert IsUrlShaped(v);
    MatchEndCharacterized(s, k, e);
  }

  /** `extractLastUrl` returns `u` exactly when `u` is the last match, as `IsLastMatch` describes it. */
  lemma ExtractLastUrlIsLastMatch(text: string, u: string)
    ensures ExtractLastUrl(text) == Some(u) <==>
      exists i: nat, j: nat :: IsLastMatch(text, i, j) && u == text[i..j]
  {
    var sp := Spans(text, 0);
    if sp != [] {
      LastSpan(text, 0);
      var last := sp[|sp| - 1];
      forall i, j | IsLastMatch(text, i, j) ensures i == last.0 && j == last.1 {
        IsLastMatchUnique(text, i, j, last.0, last.1);
      }
    } else {
      SpansEmpty(text, 0);
    }
  }

  /** A returned URL is a substring of the input, starts with the scheme and holds no whitespace. */
  lemma ExtractLastUrlShape(text: string)
    requires ExtractLastUrl(text).Some?
    ensures IsUrlShaped(ExtractLastUrl(text).value)
    ensures exists i, j :: 0 <= i <= j <= |text| && ExtractLastUrl(text).value == text[i..j]
  {
    var sp := Spans(text, 0);
    var last := sp[|sp| - 1];
    assert ExtractLastUrl(text).value == text[last.0..last.1];
  }

  /** Every match has a colon right after its `http` or `https`. */
  lemma MatchHasColon(s: string, k: nat)
    requires MatchEnd(s, k).Some?
    ensures s[k + 4] == ':' || s[k + 5] == ':'
  {
    var e := MatchEnd(s, k).value;
    assert s[k..e][..7][4] == s[k + 4] && s[k..e][..8][5] == s[k + 5];
  }

  /** A fragment without a colon holds no URL. */
  lemma NoColonNoUrl(text: string)
    requires forall m :: 0 <= m < |text| ==> text[m] != ':'
    ensures ExtractLastUrl(text) == None
  {
    forall k: nat ensures MatchEnd(text, k).None? {
      if MatchEnd(text, k).Some? {
        MatchHasColon(text, k);
      }
    }
    ExtractLastUrlNone(text);
  }

  /** A match never spans whitespace. */
  lemma MatchAvoidsSpace(s: string, k: nat, m: nat)
    requires MatchEnd(s, k).Some?
    requires k <= m < MatchEnd(s, k).value
    ensures !IsSpace(s[m])
  {
    var e := MatchEnd(s, k).value;
    assert s[m] == s[k..e][m - k];
  }

  /** A fragment that ends with ` ` followed by a URL-shaped word yields that word. */
  lemma TrailingUrlIsLast(text: string, i: nat)
    requires 0 < i < |text| && IsSpace(text[i - 1])
    requires IsUrlShaped(text[i..])
    ensures ExtractLastUrl(text) == Some(text[i..])
  {
    assert text[i..|text|] == text[i..];
    MatchEndCharacterized(text, i, |text|);
    assert MatchEnd(text, i) == Some(|text|);
    forall k: nat | |text| <= k ensures MatchEnd(text, k).None? {
    }
    forall k: nat | k < i ensures MatchEnd(text, k) != Some(|text|) {
      if MatchEnd(text, k) == Some(|text|) {
        MatchAvoidsSpace(text, k, i - 1);
      }
    }
    assert IsLastMatch(text, i, |text|);
    ExtractLastUrlIsLastMatch(text, text[i..]);
  }

  /** A fragment that is one URL-shaped word yields itself. */
  lemma WholeUrl(text: string)
    requires IsUrlShaped(text)
    ensures ExtractLastUrl(text) == Some(text)
  {
    MatchEndCharacterized(text, 0, |text|);
    assert text[0..] == text;
    assert IsLastMatch(text, 0, |text|);
    ExtractLastUrlIsLastMatch(text, text);
  }
}
