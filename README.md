# URL extraction from bracketed text: a Dafny model

This project models the deterministic core of a small TypeScript tool (`src/task.ts`). The tool reads a text
file and finds every top-level `[...]` region. For each region it keeps the last URL the region
contains. Then it fetches each URL and prints a record with the page title and a keyed hash of
the first email address on the page.

The model covers three pieces:

- **Bracket scanner** (`parseFile`, module `BracketScanner`). The source's `for` loop becomes
  the method `ParseFile`. It has a `while` loop and the source's four variables
  (`insideBrackets`, `escapeNextChar`, `bracketContent`, `openBracketCount`) plus `results`.
  The method is proved against `Parse`, which folds one function, `Step`, over the content.
  `Step` is one iteration of the loop body. The lemmas about `Run`/`Parse` state what the scan
  guarantees. The file read is an input `Option<string>`: `None` is a failed read, and it maps
  to `undefined`.
- **URL picker** (`extractLastUrl` with `URL_REGEX = /https?:\/\/[^\s]+/g`, module `UrlPicker`).
  The global regular-expression search is written out as a scanner. At each position it tries
  `https://`, then `http://`, followed by a maximal non-empty run of non-whitespace. On a match
  it resumes after the match; otherwise it advances by one. `ExtractLastUrl` returns the last
  match. Lemmas characterise it without reference to the scan order. `IsLastMatch` states the
  characterisation: the match ends at `j`, nothing matches at or after `j`, and no earlier
  position has a match that also ends at `j`.
- **Result record** (the record-building part of `fetchPageContent`, modules `EmailMatch` and
  `PageFetcher`). The first match of `[a-zA-Z0-9._-]+@[a-zA-Z0-9._-]+\.[a-zA-Z0-9._-]+` is also
  an explicit scanner, including the backtracking split at the last usable dot. The record is
  `{url, title, email?}`. Its `email` is `hmac(secret, firstMatch)`. HMAC-SHA256 is a function-typed parameter
  `hmac(key, data)`. When that function is hex encoded, as `digest('hex')` makes it, the field
  is never the raw address (`DigestIsNotAddress`).

`TestVectors` proves the values that these tests check:

- the two `extractLastUrl` tests;
- the successful `parseFile` test;
- the successful `fetchPageContent` test;
- the parse of the integration test's file content.

The two failure tests, a failed read and a failed fetch, follow from the contracts of `ParseFile` and `FetchPageContent`. The `sha256` test and the integration test's checks on printed output are not proved: HMAC is a parameter, and output is left out. `TestVectors` also proves a few small examples of escaping, nesting, empty content and unterminated regions that no test exercises.

Three details of the code are easy to misread:

- The scheme is matched case-sensitively, because the regular expression has no `i` flag.
- Inside a region, a nested `[`, a `]` and an unescaped backslash are never appended to the
  buffer. Only an escaped character or an ordinary character is appended (src/task.ts:57-73).
- The escaped character is appended even outside a region. This is harmless because opening a
  region resets the buffer; `PlainRegion` shows the old buffer plays no part.

Whitespace is the exact set JavaScript's `\s` matches (`Text.IsSpace`).

## Model

| member | source | states |
|---|---|---|
| `BracketScanner.ParseFile` | src/task.ts:39-77 | A failed read gives `None`, which is distinct from `Some([])`. Otherwise the loop over the content, with the source's five variables, returns exactly `Parse(content)`. |
| `BracketScanner.Step` | src/task.ts:57-73 | One iteration of the loop body either leaves the results and closed regions alone, or closes the current top-level region. Closing leaves the region with depth 0, records the buffer and pushes the buffer's last URL, if any. Only an unescaped `]` at depth 1 inside a region closes one. |
| `BracketScanner.Parse` | src/task.ts:50-76 | The list returned for readable content is no longer than the number of closed top-level regions, and every element is URL-shaped. |
| `BracketScanner.ParseInvariant` | src/task.ts:50-74 | After any content: inside a region iff depth >= 1, and depth 0 outside. The list is the last URL of each closed top-level region that has one, in closing order. So it is no longer than the number of closed regions, and every element is URL-shaped. |
| `BracketScanner.StepValid` | src/task.ts:57-73 | One loop iteration keeps the flag/depth relation and keeps results equal to the URLs of the closed regions. |
| `BracketScanner.KeepUrlsSnoc` | src/task.ts:66-69 | Closing one more region appends exactly that region's URL, if any, to the results. |
| `BracketScanner.RunValid` | src/task.ts:56-74 | The whole loop keeps that invariant. |
| `BracketScanner.KeepUrls` | src/task.ts:66-70 | The URLs pushed for a list of closed regions: at most one per region, each URL-shaped. |
| `BracketScanner.UrlOf` | src/task.ts:68-69 | A closing region pushes at most one element, and it is URL-shaped. |
| `BracketScanner.RunOnlyAppends` | src/task.ts:50-69 | Results and closed regions are only appended to; earlier entries never change. |
| `BracketScanner.NoCloseNoResult` | src/task.ts:64-74 | Text without `]` adds no result and closes no region. |
| `BracketScanner.StaysInsideNoResult` | src/task.ts:62-74 | Text during which the scan is inside a region after every character adds no result and closes no region. Nested pairs and escapes included, an unterminated trailing region contributes nothing. |
| `BracketScanner.OutsideIgnored` | src/task.ts:62-73 | Outside a region, text without `[` or backslash changes nothing, including a stray `]`. |
| `BracketScanner.InsideAppends` | src/task.ts:71-73 | Inside a region, text with no bracket or backslash is appended to the buffer, and nothing else changes. |
| `BracketScanner.EscapedCharIsLiteral` | src/task.ts:57-61 | A backslash is dropped. The next character, whatever it is, is appended to the buffer. Flag, depth and results are untouched. |
| `BracketScanner.NestedBracketsOnlyCount` | src/task.ts:62-65 | Inside a region, a nested `[` only increments the depth. A non-final `]` only decrements it. Neither is buffered. |
| `BracketScanner.PlainRegion` | src/task.ts:62-72 | Outside a region, `[w]` with plain `w` closes with buffer `w` and pushes `w`'s last URL, if any. The old buffer plays no part. |
| `BracketScanner.EscapeInRegion` | src/task.ts:57-72 | An escaped character inside a region keeps the region open and is buffered literally. |
| `BracketScanner.NestedRegion` | src/task.ts:62-72 | A nested pair does not close the region. Its brackets are dropped from the buffer. |
| `BracketScanner.TwoPlainRegions` | src/task.ts:56-74 | Two plain regions separated by outside text push their URLs in order. |
| `BracketScanner.TwoUrlRegions` | src/task.ts:56-74 | Two regions that each hold exactly one URL yield both URLs, in order. |
| `BracketScanner.UrlRegionThenTextRegion` | src/task.ts:66-70 | After a region with one URL, a region whose text has no colon contributes nothing. |
| `BracketScanner.RunAppend` | src/task.ts:56 | `Run`, the loop over a whole string, composes: scanning `a + b` is scanning `a` and then `b`. |
| `UrlPicker.SchemeAt` | src/task.ts:9 | `https?://` is recognised at a position with length 7 or 8, within the input. |
| `UrlPicker.MatchEnd` | src/task.ts:9 | A match at `i` is URL-shaped: it has the scheme, at least one more character and no whitespace. It ends at whitespace or at the end of the input. |
| `UrlPicker.MatchEndCharacterized` | src/task.ts:9 | Both directions: the pattern matches at `i` up to `j` iff `s[i..j]` satisfies `IsUrlShaped` and `j` is the end or whitespace. `IsUrlShaped` means: starts with `http://` or `https://`, has at least one more character and has no whitespace. |
| `UrlPicker.Spans` | src/task.ts:9-30 | The global search yields in-order, non-overlapping spans that start at or after the start of the search. Each span is the pattern's match at its start. |
| `UrlPicker.AllMatches` | src/task.ts:30 | Every element of `text.match(URL_REGEX)` is URL-shaped. |
| `UrlPicker.SpansEmpty` | src/task.ts:30 | The search finds nothing iff the pattern matches at no position. |
| `UrlPicker.LastSpan` | src/task.ts:30-31 | The last span found satisfies `IsLastMatch`. |
| `UrlPicker.ExtractLastUrl` | src/task.ts:29-32 | A non-null result is URL-shaped. The result is null iff the global search finds no match. |
| `UrlPicker.ExtractLastUrlNone` | src/task.ts:29-32 | Null iff no position starts `http://` or `https://` followed by a non-whitespace character. |
| `UrlPicker.ExtractLastUrlNoneIffNoUrl` | src/task.ts:29-32 | Null iff no substring of the text is URL-shaped. |
| `UrlPicker.ExtendUrl` | src/task.ts:9 | A URL-shaped substring starting at `k` means the greedy pattern matches at `k`. |
| `UrlPicker.ExtractLastUrlIsLastMatch` | src/task.ts:29-32 | Both directions: the result is `u` iff `u` is the last match as `IsLastMatch` describes it. |
| `UrlPicker.IsLastMatchUnique` | src/task.ts:29-32 | At most one span is the last match. |
| `UrlPicker.ExtractLastUrlShape` | src/task.ts:29-32 | A non-null result is a substring of the input, starts with the scheme and has no whitespace. |
| `UrlPicker.OverlappingMatchesEndTogether` | src/task.ts:9 | Two overlapping matches end at the same place. |
| `UrlPicker.ResumeAfterMatch` | src/task.ts:9 | After a match, the search may resume at its end. |
| `UrlPicker.NoColonNoUrl` | src/task.ts:9-32 | A fragment without `:` has no URL. |
| `UrlPicker.WholeUrl` | src/task.ts:29-32 | A fragment that is one URL-shaped word yields itself. |
| `UrlPicker.TrailingUrlIsLast` | src/task.ts:29-32 | A URL-shaped word after the last whitespace is the result. |
| `EmailMatch.LastDot` | src/task.ts:90 | Finds the last `.` in a range, or reports that there is none: the split that backtracking settles on. |
| `EmailMatch.EmailMatchAtSound` | src/task.ts:90 | A match that `EmailMatchAt` finds at a position is email-shaped, `local@domain.tld` with non-empty parts of the class. It is maximal. |
| `EmailMatch.EmailMatchAtComplete` | src/task.ts:90 | When an email-shaped substring starts at `i`, `EmailMatchAt` finds a match at `i`. |
| `EmailMatch.FirstSpan` | src/task.ts:90-91 | The leftmost matching position at or after the start of the search, or no match anywhere after it. |
| `EmailMatch.FirstEmail` | src/task.ts:91 | A first match, when there is one, is email-shaped. |
| `EmailMatch.FirstEmailCharacterized` | src/task.ts:90-91 | No match iff no substring is email-shaped. A match is an email-shaped, maximal substring at the leftmost position where one starts. |
| `EmailMatch.FirstEmailAfterSeparator` | src/task.ts:90-91 | Text without `@` that ends in a separator, then one address, yields that address. |
| `EmailMatch.NoMatchBeforeSeparator` | src/task.ts:90 | No match starts in text that has no `@` and ends in a separator. |
| `EmailMatch.MatchToEnd` | src/task.ts:90 | An address that runs to the end matches in full. |
| `PageFetcher.BuildRecord` | src/task.ts:22-100 | `url` is the input URL. `title` is the parsed title, or `""`. `email` is present iff the pattern matched. It is then `sha256(firstMatch)` (lines 22-24), the keyed digest `hmac(secret, firstMatch)` under the configured secret. |
| `PageFetcher.SecretKeyFallback` | src/task.ts:8 | The key is `IM_SECRET` with the empty string as fallback: an unset variable gives the empty key, and a set value (the empty string included) is the key. |
| `PageFetcher.FetchPageContent` | src/task.ts:82-105 | No record iff the request or parse failed. Otherwise the record is `BuildRecord`'s. |
| `PageFetcher.EmailPresentIffAddressInText` | src/task.ts:90-100 | `email` is absent iff no substring of the text is email-shaped. When present, it is the digest of an email-shaped substring that ends at the end of the text or at a character outside the class, and no email-shaped substring starts before that one. |
| `PageFetcher.DigestIsNotAddress` | src/task.ts:23-99 | With a hex-encoded digest (`digest('hex')`), the email field never equals the first address. It is not email-shaped at all, since every address contains `@`. |
| `PageFetcher.RecordSeesOnlyDigest` | src/task.ts:94-100 | The record depends on the address only through its digest. |
| `PageFetcher.NoTitleNoEmail` | src/task.ts:89-100 | No title element and no `@` give title `""` and no email field. |
| `TestVectors.LastOfTwoUrls` | tests/task.test.ts:24-27 | `...http://example.com and http://test.com` gives `http://test.com`. |
| `TestVectors.NoUrl` | tests/task.test.ts:29-32 | Text without a URL gives null. |
| `TestVectors.EscapedBracketExample` | src/task.ts:57-72 | `[a\]b]` is one region with buffer `a]b`. |
| `TestVectors.NestedBracketExample` | src/task.ts:62-72 | `[a[b]c]` is one region with buffer `abc`. |
| `TestVectors.ParseTwoRegions` | tests/task.test.ts:42-49 | `[http://example.com] some text [http://test.com]` gives both URLs, in order. |
| `TestVectors.ParseUrlAndText` | tests/integration.test.ts:14 | `[http://example.com] [Another text]` gives a one-element list. |
| `TestVectors.EmptyContentExample` | src/task.ts:50-76 | Empty content gives `[]`. |
| `TestVectors.UnterminatedExample` | src/task.ts:56-76 | An unterminated region gives `[]`. |
| `TestVectors.FirstEmailExample` | tests/task.test.ts:85-99 | The title `Test Page`, then `Email: `, then `test@example.com` (the test page's rendered text) gives that address as the first match. |
| `TestVectors.TestPageRecord` | tests/task.test.ts:85-99 | Under any secret, the test page gives `{url, title: "Test Page", email: sha256("test@example.com")}`. |

## Left out

- File reading and `path.resolve` (src/task.ts:40-48) are I/O. The read's outcome is the input `Option<string>` of `ParseFile`.
- The HTTP request (`axios.get`) and the HTML parse (`node-html-parser`) are foreign libraries. Their outcome is `FetchPageContent`'s `Option<Page>`: the title element's text, if any, and the rendered text. The model does not compute the rendered text from HTML.
- HMAC-SHA256 (`crypto.createHmac`) is a foreign cryptographic call. It is the parameter `hmac(key, data)`. `Sha256` applies it to the configured secret, and `SecretKey` gives that secret from the optional `IM_SECRET` value. Nothing about the digest is assumed except, in `DigestIsNotAddress`, that it is hex encoded. Without a model of HMAC the model cannot show that the digest depends on the key or on the address.
- Printing the record or the error (`console.log`/`console.error`) is left out. So are `main()`, standard-input handling, `process.exit` and the one-second delays between requests (src/task.ts:102-172). These are side effects and asynchronous plumbing. `FetchPageContent` returns the record it would print.
- Characters are Unicode scalar values. The source iterates code points in `parseFile`, and its regular expressions work on UTF-16 code units. These agree on every character class used here (`\s` contains no astral character). Unpaired surrogates are not modelled.
- `BracketScanner.ParseFile`: `if (lastUrl)` is modelled as "a URL was found". A match is never the empty string, so the truthiness test cannot reject a found URL.
