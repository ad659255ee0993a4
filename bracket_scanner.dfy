/**
 * `parseFile`: one left-to-right pass over the file content that finds the top-level
 * `[...]` regions (nesting counted, backslash escapes honoured) and keeps, for each
 * region that closes, the last URL in its buffer.
 */
module BracketScanner {
  import opened Wrappers
  import UrlPicker

  /**
   * The scanner's four variables and its result list. `closed` is bookkeeping of the
   * model alone: the buffers of the top-level regions closed so far, in closing order.
   */
  datatype Scanner = Scanner(
    inside: bool,
    escape: bool,
    buffer: string,
    depth: int,
    results: seq<string>,
    closed: seq<string>)

  /** The state before the first character. */
  const Start := Scanner(false, false, "", 0, [], [])

  /**
   * One iteration of the scan loop on character `c`. A step either leaves the results and
   * the closed regions alone, or closes the current top-level region: it leaves the region,
   * records the buffer as closed and pushes the buffer's last URL, if any.
   */
  function Step(st: Scanner, c: char): (r: Scanner)
    ensures || (r.results == st.results && r.closed == st.closed)
            || (&& r.closed == st.closed + [st.buffer]
                && r.results == st.results + UrlOf(st.buffer)
                && !r.inside && r.depth == 0)
    ensures r.closed != st.closed ==> !st.escape && c == ']' && st.inside && st.depth == 1
  {
    if st.escape then
      st.(buffer := st.buffer + [c], escape := false)
    else if c == '\\' then
      st.(escape := true)
    else if c == '[' then
      if st.inside then st.(depth := st.depth + 1)
      else st.(inside := true, buffer := "", depth := 1)
    else if c == ']' && st.inside then
      if st.depth - 1 == 0 then
        st.(depth := 0, inside := false, closed := st.closed + [st.buffer],
            results := st.results + UrlOf(st.buffer))
      else st.(depth := st.depth - 1)
    else if st.inside then
      st.(buffer := st.buffer + [c])
    else
      st
  }

  /** What a closing region with buffer `b` pushes: its last URL, or nothing. */
  function UrlOf(b: string): (r: seq<string>)
    ensures |r| <= 1
    ensures |r| == 1 ==> UrlPicker.IsUrlShaped(r[0])
  {
    match UrlPicker.ExtractLastUrl(b)
    case Some(u) =>
      UrlPicker.ExtractLastUrlShape(b);
      [u]
    case None => []
  }

  /** The state after scanning `s` from `st`. */
  function Run(st: Scanner, s: string): Scanner
    decreases |s|
  {
    if s == [] then st else Run(Step(st, s[0]), s[1..])
  }

  /** The list `parseFile` returns for content it could read. */
  function Parse(content: string): (r: seq<string>)
    ensures |r| <= |Run(Start, content).closed|
    ensures forall m :: 0 <= m < |r| ==> UrlPicker.IsUrlShaped(r[m])
  {
    RunValid(Start, content);
    Run(Start, content).results
  }

  /** Scanning one character is one step. */
  lemma RunSingle(st: Scanner, c: char)
    ensures Run(st, [c]) == Step(st, c)
  {
    assert [c][1..] == [];
  }

  /** Scanning `a + b` is scanning `a`, then `b`. */
  lemma {:induction false} RunAppend(st: Scanner, a: string, b: string)
    ensures Run(st, a + b) == Run(Run(st, a), b)
    decreases |a|
  {
    if a != [] {
      assert (a + b)[1..] == a[1..] + b;
      RunAppend(Step(st, a[0]), a[1..], b);
    } else {
      assert a + b == b;
    }
  }

  /**
   * `parseFile` on the result of reading the file: nothing when the read failed, otherwise
   * the list the scan builds.
   */
  method ParseFile(read: Option<string>) returns (urls: Option<seq<string>>)
    ensures read.None? ==> urls == None
    ensures read.Some? ==> urls == Some(Parse(read.value))
  {
    if read.None? {
      return None;
    }
    var content := read.value;
    var results: seq<string> := [];
    var insideBrackets := false;
    var escapeNextChar := false;
    var bracketContent := "";
    var openBracketCount := 0;
    ghost var closed: seq<string> := [];
    var i := 0;
    while i < |content|
      invariant 0 <= i <= |content|
      invariant Run(Start, content[..i])
        == Scanner(insideBrackets, escapeNextChar, bracketContent, openBracketCount, results, closed)
    {
      var c := content[i];
      ghost var before := Scanner(insideBrackets, escapeNextChar, bracketContent, openBracketCount, results, closed);
      if escapeNextChar {
        bracketContent := bracketContent + [c];
        escapeNextChar := false;
      } else if c == '\\' {
        escapeNextChar := true;
      } else if c == '[' {
        if insideBrackets {
          openBracketCount := openBracketCount + 1;
        } else {
          insideBrackets := true;
          bracketContent := "";
          openBracketCount := 1;
        }
      } else if c == ']' && insideBrackets {
        openBracketCount := openBracketCount - 1;
        if openBracketCount == 0 {
          insideBrackets := false;
          closed := closed + [bracketContent];
          var lastUrl := UrlPicker.ExtractLastUrl(bracketContent);
          if lastUrl.Some? {
            results := results + [lastUrl.value];
          }
        }
      } else if insideBrackets {
        bracketContent := bracketContent + [c];
      }
      assert content[..i + 1] == content[..i] + [c];
      RunAppend(Start, content[..i], [c]);
      assert Run(before, [c]) == Step(before, c);
      i := i + 1;
    }
    assert content[..i] == content;
    urls := Some(results);
  }

  /** The URLs the closed regions contribute, in closing order: one per region that holds a URL. */
  function KeepUrls(regions: seq<string>): (r: seq<string>)
    ensures |r| <= |regions|
    ensures forall m :: 0 <= m < |r| ==> UrlPicker.IsUrlShaped(r[m])
  {
    if regions == [] then []
    else KeepUrls(regions[..|regions| - 1]) + UrlOf(regions[|regions| - 1])
  }

  /**
   * What every reachable state satisfies: the region flag is set exactly when the depth is
   * positive, the depth is zero outside a region, and the results are the URLs of the
   * regions closed so far.
   */
  predicate Valid(st: Scanner) {
    && (st.inside <==> st.depth >= 1)
    && (!st.inside ==> st.depth == 0)
    && st.results == KeepUrls(st.closed)
  }

  lemma StepValid(st: Scanner, c: char)
    requires Valid(st)
    ensures Valid(Step(st, c))
  {
    if !st.escape && c == ']' && st.inside && st.depth - 1 == 0 {
      KeepUrlsSnoc(st.closed, st.buffer);
    }
  }

  /** Closing one more region adds exactly that region's URL, if any. */
  lemma KeepUrlsSnoc(regions: seq<string>, b: string)
    ensures KeepUrls(regions + [b]) == KeepUrls(regions) + UrlOf(b)
  {
    var r := regions + [b];
    assert r[..|r| - 1] == regions;
  }

  lemma {:induction false} RunValid(st: Scanner, s: string)
    requires Valid(st)
    ensures Valid(Run(st, s))
    decreases |s|
  {
    if s != [] {
      StepValid(st, s[0]);
      RunValid(Step(st, s[0]), s[1..]);
    }
  }

  /**
   * After any content: inside a region exactly when the depth is at least one, depth zero
   * outside; the list returned is the last URL of each closed top-level region that has
   * one, in closing order, so it is no longer than the number of closed regions, and each
   * element is URL-shaped.
   */
  lemma ParseInvariant(content: string)
    ensures var st := Run(Start, content);
      && (st.inside <==> st.depth >= 1)
      && (!st.inside ==> st.depth == 0)
      && Parse(content) == KeepUrls(st.closed)
      && |Parse(content)| <= |st.closed|
      && forall m :: 0 <= m < |Parse(content)| ==> UrlPicker.IsUrlShaped(Parse(content)[m])
  {
    RunValid(Start, content);
  }

  /** Results and closed regions are only ever appended to: earlier entries never change. */
  lemma {:induction false} RunOnlyAppends(st: Scanner, s: string)
    ensures st.results <= Run(st, s).results
    ensures st.closed <= Run(st, s).closed
    decreases |s|
  {
    if s != [] {
      RunOnlyAppends(Step(st, s[0]), s[1..]);
    }
  }

  /** Text without `]` closes no region, so it adds nothing to the results. */
  lemma {:induction false} NoCloseNoResult(st: Scanner, s: string)
    requires forall k :: 0 <= k < |s| ==> s[k] != ']'
    ensures Run(st, s).results == st.results
    ensures Run(st, s).closed == st.closed
    decreases |s|
  {
    if s != [] {
      NoCloseNoResult(Step(st, s[0]), s[1..]);
    }
  }

  /**
   * Text during which the scan stays inside a region after every character adds nothing to
   * the results and closes no region, whatever nested pairs or escapes it holds: an
   * unterminated region at the end of the content contributes no entry.
   */
  lemma {:induction false} StaysInsideNoResult(st: Scanner, s: string)
    requires forall k :: 1 <= k <= |s| ==> Run(st, s[..k]).inside
    ensures Run(st, s).results == st.results
    ensures Run(st, s).closed == st.closed
    decreases |s|
  {
    if s != [] {
      assert s[..1] == [s[0]];
      RunSingle(st, s[0]);
      var st' := Step(st, s[0]);
      var t := s[1..];
      forall k | 1 <= k <= |t| ensures Run(st', t[..k]).inside {
        assert s[..k + 1] == [s[0]] + t[..k];
        RunAppend(st, [s[0]], t[..k]);
      }
      StaysInsideNoResult(st', t);
      assert s == [s[0]] + t;
      RunAppend(st, [s[0]], t);
    }
  }

  /** No bracket and no backslash. */
  predicate Plain(w: string) {
    forall k :: 0 <= k < |w| ==> w[k] != '[' && w[k] != ']' && w[k] != '\\'
  }

  /** Outside a region, text with no `[` and no backslash (stray `]` included) changes nothing. */
  lemma {:induction false} OutsideIgnored(st: Scanner, w: string)
    requires !st.inside && !st.escape
    requires forall k :: 0 <= k < |w| ==> w[k] != '[' && w[k] != '\\'
    ensures Run(st, w) == st
    decreases |w|
  {
    if w != [] {
      OutsideIgnored(Step(st, w[0]), w[1..]);
    }
  }

  /** Inside a region, plain text is appended to the buffer and nothing else changes. */
  lemma {:induction false} InsideAppends(st: Scanner, w: string)
    requires st.inside && !st.escape
    requires Plain(w)
    ensures Run(st, w) == st.(buffer := st.buffer + w)
    decreases |w|
  {
    if w != [] {
      InsideAppends(Step(st, w[0]), w[1..]);
      assert st.buffer + [w[0]] + w[1..] == st.buffer + w;
    }
  }

  /**
   * A backslash is dropped and the character after it, whatever it is, is appended to the
   * buffer without touching the region flag, the depth or the results.
   */
  lemma EscapedCharIsLiteral(st: Scanner, c: char)
    requires !st.escape
    ensures Run(st, ['\\', c]) == st.(buffer := st.buffer + [c])
  {
    assert ['\\', c][1..] == [c];
    RunSingle(Step(st, '\\'), c);
  }

  /** Inside a region a nested `[` or a non-final `]` only moves the depth; neither is buffered. */
  lemma NestedBracketsOnlyCount(st: Scanner)
    requires st.inside && !st.escape
    ensures Step(st, '[') == st.(depth := st.depth + 1)
    ensures st.depth > 1 ==> Step(st, ']') == st.(depth := st.depth - 1)
  {
  }

  /**
   * Outside a region, a bracketed region of plain text closes with that text as its
   * buffer and pushes the text's last URL, if any.
   */
  lemma PlainRegion(st: Scanner, w: string)
    requires !st.inside && !st.escape && st.depth == 0
    requires Plain(w)
    ensures Run(st, "[" + w + "]")
      == st.(buffer := w, closed := st.closed + [w], results := st.results + UrlOf(w))
  {
    var entered := Step(st, '[');
    RunAppend(st, "[", w);
    RunSingle(st, '[');
    InsideAppends(entered, w);
    assert "" + w == w;
    var mid := Run(st, "[" + w);
    assert mid == entered.(buffer := w);
    RunAppend(st, "[" + w, "]");
    RunSingle(mid, ']');
  }

  /**
   * A region whose plain content holds one escaped character `c` (a bracket or a
   * backslash included) stays open across it and buffers `c` literally.
   */
  lemma EscapeInRegion(st: Scanner, w1: string, c: char, w2: string)
    requires !st.inside && !st.escape && st.depth == 0
    requires Plain(w1) && Plain(w2)
    ensures Run(st, "[" + w1 + ['\\', c] + w2 + "]").closed == st.closed + [w1 + [c] + w2]
  {
    var entered := Step(st, '[');
    RunSingle(st, '[');
    InsideAppends(entered, w1);
    assert "" + w1 == w1;
    RunAppend(st, "[", w1);
    var s1 := Run(st, "[" + w1);
    EscapedCharIsLiteral(s1, c);
    RunAppend(st, "[" + w1, ['\\', c]);
    var s2 := Run(st, "[" + w1 + ['\\', c]);
    assert s2 == entered.(buffer := w1 + [c]);
    InsideAppends(s2, w2);
    RunAppend(st, "[" + w1 + ['\\', c], w2);
    var s3 := Run(st, "[" + w1 + ['\\', c] + w2);
    RunAppend(st, "[" + w1 + ['\\', c] + w2, "]");
    RunSingle(s3, ']');
  }

  /**
   * A region holding one nested pair closes only at the outer `]`, and its buffer is the
   * text around and inside the nested pair without the nested brackets.
   */
  lemma NestedRegion(st: Scanner, w1: string, w2: string, w3: string)
    requires !st.inside && !st.escape && st.depth == 0
    requires Plain(w1) && Plain(w2) && Plain(w3)
    ensures Run(st, "[" + w1 + "[" + w2 + "]" + w3 + "]").closed == st.closed + [w1 + w2 + w3]
  {
    var entered := Step(st, '[');
    RunSingle(st, '[');
    InsideAppends(entered, w1);
    assert "" + w1 == w1;
    RunAppend(st, "[", w1);
    var s1 := Run(st, "[" + w1);
    RunAppend(st, "[" + w1, "[");
    RunSingle(s1, '[');
    var s2 := Run(st, "[" + w1 + "[");
    assert s2 == entered.(buffer := w1, depth := 2);
    InsideAppends(s2, w2);
    RunAppend(st, "[" + w1 + "[", w2);
    var s3 := Run(st, "[" + w1 + "[" + w2);
    RunAppend(st, "[" + w1 + "[" + w2, "]");
    RunSingle(s3, ']');
    var s4 := Run(st, "[" + w1 + "[" + w2 + "]");
    assert s4 == entered.(buffer := w1 + w2);
    InsideAppends(s4, w3);
    RunAppend(st, "[" + w1 + "[" + w2 + "]", w3);
    var s5 := Run(st, "[" + w1 + "[" + w2 + "]" + w3);
    RunAppend(st, "[" + w1 + "[" + w2 + "]" + w3, "]");
    RunSingle(s5, ']');
  }

  /** Two plain regions separated by text outside any region yield their URLs in order. */
  lemma TwoPlainRegions(u1: string, gap: string, u2: string)
    requires Plain(u1) && Plain(u2)
    requires forall k :: 0 <= k < |gap| ==> gap[k] != '[' && gap[k] != '\\'
    ensures Parse(("[" + u1 + "]") + gap + ("[" + u2 + "]")) == UrlOf(u1) + UrlOf(u2)
  {
    PlainRegion(Start, u1);
    var s1 := Run(Start, "[" + u1 + "]");
    OutsideIgnored(s1, gap);
    PlainRegion(s1, u2);
    RunAppend(Start, "[" + u1 + "]", gap);
    RunAppend(Start, ("[" + u1 + "]") + gap, "[" + u2 + "]");
  }

  /** Two regions holding one URL each, separated by text outside any region, yield both URLs in order. */
  lemma TwoUrlRegions(content: string, u1: string, gap: string, u2: string)
    requires content == ("[" + u1 + "]") + gap + ("[" + u2 + "]")
    requires Plain(u1) && Plain(u2)
    requires UrlPicker.IsUrlShaped(u1) && UrlPicker.IsUrlShaped(u2)
    requires forall k :: 0 <= k < |gap| ==> gap[k] != '[' && gap[k] != '\\'
    ensures Parse(content) == [u1, u2]
  {
    UrlPicker.WholeUrl(u1);
    UrlPicker.WholeUrl(u2);
    TwoPlainRegions(u1, gap, u2);
  }

  /** A region with a URL and a region without one yield just the URL. */
  lemma UrlRegionThenTextRegion(content: string, u: string, gap: string, w: string)
    requires content == ("[" + u + "]") + gap + ("[" + w + "]")
    requires Plain(u) && Plain(w) && UrlPicker.IsUrlShaped(u)
    requires forall k :: 0 <= k < |w| ==> w[k] != ':'
    requires forall k :: 0 <= k < |gap| ==> gap[k] != '[' && gap[k] != '\\'
    ensures Parse(content) == [u]
  {
    UrlPicker.WholeUrl(u);
    UrlPicker.NoColonNoUrl(w);
    TwoPlainRegions(u, gap, w);
  }
}
