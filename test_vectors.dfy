/**
 * Concrete inputs and outputs: the values the `extractLastUrl`, `parseFile` and successful
 * `fetchPageContent` unit tests check, the parse of the integration test's file, and a few
 * small examples of escaping, nesting, empty content and unterminated regions. The failed
 * read and failed fetch tests are the contracts of `ParseFile` and `FetchPageContent`.
 *
 * Where a lemma takes strings as parameters fixed by `requires x == "..."` rather than
 * writing the literals into its `ensures`, it is to keep the verifier from evaluating the
 * scanners on the literal text character by character; the statement is the same.
 */
module TestVectors {
  import opened Wrappers
  import Text
  import UrlPicker
  import opened BracketScanner
  import EmailMatch
  import PageFetcher

  /** Of several URLs the last one wins. */
  lemma LastOfTwoUrls()
    ensures UrlPicker.ExtractLastUrl("This is a test with multiple URLs http://example.com and http://test.com")
      == Some("http://test.com")
  {
    var t := "This is a test with multiple URLs http://example.com and http://test.com";
    var u := "http://test.com";
    assert t[|t| - 15..] == u;
    assert Text.StartsWith(u, "http://") && Text.All(u, Text.NotSpace);
    UrlPicker.TrailingUrlIsLast(t, |t| - 15);
  }

  /** Text without a URL yields nothing. */
  lemma NoUrl()
    ensures UrlPicker.ExtractLastUrl("This is a test with no URLs") == None
  {
    UrlPicker.NoColonNoUrl("This is a test with no URLs");
  }

  /** The escape example: `[a\\]b]` is one region whose buffer is `a]b`. */
  lemma EscapedBracketExample(content: string)
    requires content == "[a\\]b]"
    ensures Run(Start, content).closed == ["a]b"]
  {
    assert content == "[" + "a" + ['\\', ']'] + "b" + "]";
    EscapeInRegion(Start, "a", ']', "b");
    assert "a" + [']'] + "b" == "a]b";
  }

  /** The nesting example: `[a[b]c]` is one region whose buffer is `abc`. */
  lemma NestedBracketExample(content: string)
    requires content == "[a[b]c]"
    ensures Run(Start, content).closed == ["abc"]
  {
    assert content == "[" + "a" + "[" + "b" + "]" + "c" + "]";
    NestedRegion(Start, "a", "b", "c");
    assert "a" + "b" + "c" == "abc";
  }

  /** The two-region example: both URLs, in order. */
  lemma ParseTwoRegions(u1: string, u2: string)
    requires u1 == "http://example.com" && u2 == "http://test.com"
    ensures Parse("[" + u1 + "] some text [" + u2 + "]") == [u1, u2]
  {
    var gap := " some text ";
    assert "[" + u1 + "] some text [" + u2 + "]" == ("[" + u1 + "]") + gap + ("[" + u2 + "]");
    assert UrlPicker.IsUrlShaped(u1) && UrlPicker.IsUrlShaped(u2) by {
      assert Text.StartsWith(u1, "http://") && Text.StartsWith(u2, "http://");
    }
    assert Plain(u1) && Plain(u2);
    TwoUrlRegions("[" + u1 + "] some text [" + u2 + "]", u1, gap, u2);
  }

  /** The integration example: the region without a URL contributes nothing. */
  lemma ParseUrlAndText(u: string, w: string)
    requires u == "http://example.com" && w == "Another text"
    ensures Parse("[" + u + "] [" + w + "]") == [u]
  {
    var gap := " ";
    assert "[" + u + "] [" + w + "]" == ("[" + u + "]") + gap + ("[" + w + "]");
    assert UrlPicker.IsUrlShaped(u) by {
      assert Text.StartsWith(u, "http://");
    }
    assert Plain(u) && Plain(w);
    UrlRegionThenTextRegion("[" + u + "] [" + w + "]", u, gap, w);
  }

  /** Empty content yields the empty list (a list, not the failed-read `None`). */
  lemma EmptyContentExample()
    ensures Parse("") == []
  {
  }

  /** An unterminated region produces nothing. */
  lemma UnterminatedExample(content: string)
    requires content == "[http://example.com"
    ensures Parse(content) == []
  {
    assert forall k :: 0 <= k < |content| ==> content[k] != ']';
    NoCloseNoResult(Start, content);
  }

  /**
   * The rendered text of the unit test's page, the title followed by `Email: ` and the
   * address: the address is found, not the words before it.
   */
  lemma FirstEmailExample(title: string, email: string)
    requires title == "Test Page" && email == "test@example.com"
    ensures EmailMatch.FirstEmail(title + "Email: " + email) == Some(email)
  {
    var pre := title + "Email: ";
    assert pre == "Test PageEmail: ";
    assert forall k :: 0 <= k < |pre| ==> pre[k] != '@';
    assert pre[|pre| - 1] == ' ';
    var local, domain, tld := "test", "example", "com";
    assert email == local + "@" + domain + "." + tld;
    EmailMatch.PartsSplit(local, domain, tld);
    EmailMatch.FirstEmailAfterSeparator(pre, email, 4, 12);
  }

  /** The page of the unit test: title "Test Page" and one address in the body. */
  lemma TestPageRecord(hmac: PageFetcher.Hmac, secret: string, url: string, title: string, email: string)
    requires url == "http://example.com" && title == "Test Page" && email == "test@example.com"
    ensures PageFetcher.BuildRecord(url, PageFetcher.Page(Some(title), title + "Email: " + email), hmac, secret)
      == PageFetcher.PageRecord(url, Some(title), Some(PageFetcher.Sha256(hmac, secret, email)))
  {
    FirstEmailExample(title, email);
  }
}
