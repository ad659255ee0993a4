/**
 * The record-building part of `fetchPageContent`. The HTTP request and the HTML parse are
 * outside the model: their outcome arrives as a `Page` (or as nothing when either failed),
 * and HMAC-SHA256 arrives as a function of key and data.
 */
module PageFetcher {
  import opened Wrappers
  import EmailMatch

  /** What the HTML parser yields: the text of the first `<title>` element, if any, and the rendered text. */
  datatype Page = Page(titleText: Option<string>, text: string)

  /** `ResultType`: the fetched URL, its title and the keyed hash of its first email address. */
  datatype PageRecord = PageRecord(url: string, title: Option<string>, email: Option<string>)

  /** A keyed digest `hmac(key, data)`, hex encoded. */
  type Hmac = (string, string) -> string

  /** `IM_SECRET`, or the empty key when the variable is unset or empty. */
  function SecretKey(env: Option<string>): string {
    env.GetOr("")
  }

  /** A character `digest('hex')` emits: a lower-case hexadecimal digit. */
  predicate IsHexDigit(c: char) {
    ('0' <= c <= '9') || ('a' <= c <= 'f')
  }

  /** A hex-encoded digest: nothing but hexadecimal digits. */
  predicate IsHexDigest(h: string) {
    forall m :: 0 <= m < |h| ==> IsHexDigit(h[m])
  }

  /**
   * When the keyed digest is hex encoded, as `digest('hex')` makes it, the email field never
   * holds the address itself, nor any address at all: every address contains `@`, which no
   * hex digest does.
   */
  lemma DigestIsNotAddress(url: string, page: Page, hmac: Hmac, secret: string)
    requires forall k: string, d: string :: IsHexDigest(hmac(k, d))
    ensures var r := BuildRecord(url, page, hmac, secret);
      && (r.email.Some? ==> r.email.value != EmailMatch.FirstEmail(page.text).value)
      && (r.email.Some? ==> !EmailMatch.IsEmailShaped(r.email.value))
  {
    var first := EmailMatch.FirstEmail(page.text);
    if first.Some? {
      var e := first.value;
      var a: nat, d: nat :| EmailMatch.EmailSplit(e, a, d);
      assert e[a] == '@';
      assert IsHexDigest(hmac(secret, e));
    }
  }

  /** An unset and an empty `IM_SECRET` both give the empty key; any other value is the key. */
  lemma SecretKeyFallback(env: Option<string>)
    ensures env.None? ==> SecretKey(env) == ""
    ensures env.Some? ==> SecretKey(env) == env.value
  {
  }

  /** `sha256`: the digest of `data` under the configured secret. */
  function Sha256(hmac: Hmac, secret: string, data: string): string {
    hmac(secret, data)
  }

  /**
   * The record built from a fetched and parsed page: the URL as given, the title (the
   * empty string when there is none), and the digest of the first email address, present
   * only when the text contains one.
   */
  function BuildRecord(url: string, page: Page, hmac: Hmac, secret: string): (r: PageRecord)
    ensures r.url == url
    ensures r.title == Some(page.titleText.GetOr(""))
    ensures r.email.Some? <==> EmailMatch.FirstEmail(page.text).Some?
    ensures r.email.Some? ==> r.email.value == hmac(secret, EmailMatch.FirstEmail(page.text).value)
  {
    var pageTitle := page.titleText.GetOr("");
    var firstEmail := EmailMatch.FirstEmail(page.text);
    PageRecord(
      url,
      Some(pageTitle),
      match firstEmail
      case Some(e) => Some(Sha256(hmac, secret, e))
      case None => None)
  }

  /**
   * `fetchPageContent`: the record it reports for `url`, or nothing when the request or
   * the parse failed (`response` is `None`).
   */
  function FetchPageContent(url: string, response: Option<Page>, hmac: Hmac, secret: string): (r: Option<PageRecord>)
    ensures r.None? <==> response.None?
    ensures r.Some? ==> r.value == BuildRecord(url, response.value, hmac, secret)
  {
    match response
    case None => None
    case Some(page) => Some(BuildRecord(url, page, hmac, secret))
  }

  /**
   * The email field is set exactly when the rendered text contains an address, and then
   * holds the digest of the leftmost one.
   */
  lemma EmailPresentIffAddressInText(url: string, page: Page, hmac: Hmac, secret: string)
    ensures var r := BuildRecord(url, page, hmac, secret);
      (r.email.None? <==> forall i: nat, j: nat :: i <= j <= |page.text| ==> !EmailMatch.IsEmailShaped(page.text[i..j]))
      && (r.email.Some? ==>
            (exists i: nat, j: nat :: i < j <= |page.text| && EmailMatch.IsEmailShaped(page.text[i..j])
               && r.email.value == hmac(secret, page.text[i..j])
               && (j == |page.text| || !EmailMatch.IsWordChar(page.text[j]))
               && forall k: nat, l: nat :: k < i && k <= l <= |page.text| ==>
                    !EmailMatch.IsEmailShaped(page.text[k..l])))
  {
    EmailMatch.FirstEmailCharacterized(page.text);
  }

  /**
   * The record depends on the address only through its digest: pages whose first
   * addresses have the same digest give the same record.
   */
  lemma RecordSeesOnlyDigest(url: string, p1: Page, p2: Page, hmac: Hmac, secret: string)
    requires p1.titleText.GetOr("") == p2.titleText.GetOr("")
    requires EmailMatch.FirstEmail(p1.text).Some? <==> EmailMatch.FirstEmail(p2.text).Some?
    requires EmailMatch.FirstEmail(p1.text).Some? ==>
      hmac(secret, EmailMatch.FirstEmail(p1.text).value) == hmac(secret, EmailMatch.FirstEmail(p2.text).value)
    ensures BuildRecord(url, p1, hmac, secret) == BuildRecord(url, p2, hmac, secret)
  {
  }

  /** A page without a title element and without an address gives an empty title and no email. */
  lemma NoTitleNoEmail(url: string, text: string, hmac: Hmac, secret: string)
    requires forall k :: 0 <= k < |text| ==> text[k] != '@'
    ensures BuildRecord(url, Page(None, text), hmac, secret) == PageRecord(url, Some(""), None)
  {
    EmailMatch.FirstEmailCharacterized(text);
  }
}
