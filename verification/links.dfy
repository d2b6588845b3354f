/** The two link normalisers: `clean_url` of the listing crawler and
    `clean_website_link` of the detail crawler. Query parsing and
    percent-decoding are a parameter, not modelled character by character. */
module Links {
  import opened Basics
  import opened Text

  /** What `parse_qs(urlparse(u).query)[key][0]` gives: an exception from
      the parser, no such parameter, or the first (already decoded once) value. */
  datatype QueryValue = Raised | NoParam | FirstValue(value: string)

  /** The standard-library URL routines the normalisers call. */
  datatype UrlCodec = UrlCodec(
    firstQueryValue: (string, string) -> QueryValue,  // url, parameter name
    unquote: string -> string)                        // percent-decoding

  /** Two facts of the real routines the model relies on: `parse_qs` drops
      parameters with blank values, and `unquote` never turns a non-empty
      string into the empty one. */
  ghost predicate Faithful(codec: UrlCodec) {
    && (forall u, k :: codec.firstQueryValue(u, k).FirstValue? ==> codec.firstQueryValue(u, k).value != "")
    && (forall s :: s != "" ==> codec.unquote(s) != "")
  }

  const AdRedirectMarker: string := "adredir"
  const BizRedirectMarker: string := "biz_redir"
  const YelpOrigin: string := "https://www.yelp.com"

  /** `if not raw_url`: None and the empty string are both falsy. */
  predicate Blank(raw: Option<string>) {
    raw.None? || raw.value == ""
  }

  /** The decoded redirect target hidden in an ad link, if any. A parse
      exception counts as "none": `clean_url` swallows it and falls through. */
  function AdTarget(codec: UrlCodec, u: string): Option<string> {
    if Contains(u, AdRedirectMarker) then
      match codec.firstQueryValue(u, "redirect_url")
      case FirstValue(v) => Some(codec.unquote(v))
      case _ => None
    else None
  }

  /** `clean_url`: sentinel for a blank link, the decoded `redirect_url` of an
      ad link, the Yelp origin in front of a site-relative link, otherwise
      the link itself. */
  function CleanUrl(codec: UrlCodec, raw: Option<string>): (r: string)
    ensures Blank(raw) ==> r == NotAvailable
    ensures !Blank(raw) && Contains(raw.value, AdRedirectMarker)
              && codec.firstQueryValue(raw.value, "redirect_url").FirstValue?
            ==> r == codec.unquote(codec.firstQueryValue(raw.value, "redirect_url").value)
    ensures !Blank(raw) && AdTarget(codec, raw.value).None? && StartsWith(raw.value, "/")
            ==> r == YelpOrigin + raw.value
    ensures !Blank(raw) && AdTarget(codec, raw.value).None? && !StartsWith(raw.value, "/")
            ==> r == raw.value
  {
    if Blank(raw) then NotAvailable
    else
      match AdTarget(codec, raw.value)
      case Some(target) => target
      case None =>
        if StartsWith(raw.value, "/") then YelpOrigin + raw.value else raw.value
  }

  /** `clean_website_link`: sentinel for a blank link, the decoded `url`
      parameter of a business redirect, otherwise the raw link, untouched
      even when it is site-relative. */
  function CleanWebsiteLink(codec: UrlCodec, raw: Option<string>): (r: string)
    ensures Blank(raw) ==> r == NotAvailable
    ensures !Blank(raw) && Contains(raw.value, BizRedirectMarker)
              && codec.firstQueryValue(raw.value, "url").FirstValue?
            ==> r == codec.unquote(codec.firstQueryValue(raw.value, "url").value)
    ensures !Blank(raw) && !(Contains(raw.value, BizRedirectMarker)
                             && codec.firstQueryValue(raw.value, "url").FirstValue?)
            ==> r == raw.value
  {
    if Blank(raw) then NotAvailable
    else if Contains(raw.value, BizRedirectMarker) then
      match codec.firstQueryValue(raw.value, "url")
      case FirstValue(v) => codec.unquote(v)
      case _ => raw.value
    else raw.value
  }

  /** With the real parsing routines a cleaned link is never empty, so it can
      always serve as a de-duplication key. */
  lemma CleanUrlNonEmpty(codec: UrlCodec, raw: Option<string>)
    requires Faithful(codec)
    ensures CleanUrl(codec, raw) != ""
  {
    if !Blank(raw) && Contains(raw.value, AdRedirectMarker) {
      var q := codec.firstQueryValue(raw.value, "redirect_url");
      if q.FirstValue? {
        assert q.value != "";
      }
    }
  }

  /** The sentinel is left alone by a second cleaning. */
  lemma SentinelIsClean(codec: UrlCodec)
    ensures CleanUrl(codec, Some(NotAvailable)) == NotAvailable
  {
    CharAbsent(NotAvailable, AdRedirectMarker, 0);
    assert NotAvailable[0] == 'N';
  }

  lemma MarkerHasNoSlash()
    ensures '/' !in AdRedirectMarker
  {
  }

  /** Prefixing the origin to a site-relative link cannot create an ad marker. */
  lemma OriginAddsNoMarker(u: string)
    requires StartsWith(u, "/") && !Contains(u, AdRedirectMarker)
    ensures !Contains(YelpOrigin + u, AdRedirectMarker)
  {
    CharAbsent(YelpOrigin, AdRedirectMarker, 0);
    MarkerHasNoSlash();
    StartsWithFirst(u, "/");
    ContainsAcrossSeparator(YelpOrigin, u, AdRedirectMarker, '/');
  }

  /** A site-relative link made absolute is left alone by a second cleaning. */
  lemma AbsolutisedIsClean(codec: UrlCodec, u: string)
    requires StartsWith(u, "/") && !Contains(u, AdRedirectMarker)
    ensures CleanUrl(codec, Some(YelpOrigin + u)) == YelpOrigin + u
  {
    var r := YelpOrigin + u;
    OriginAddsNoMarker(u);
    assert AdTarget(codec, r).None?;
    assert !StartsWith(r, "/") by {
      assert r[0] == 'h';
    }
  }

  /** Cleaning is idempotent on links without an ad marker: a canonical link
      is a fixed point of `clean_url`. */
  lemma CleanUrlIdempotent(codec: UrlCodec, raw: Option<string>)
    requires Blank(raw) || !Contains(raw.value, AdRedirectMarker)
    ensures CleanUrl(codec, Some(CleanUrl(codec, raw))) == CleanUrl(codec, raw)
  {
    if Blank(raw) {
      SentinelIsClean(codec);
    } else if StartsWith(raw.value, "/") {
      AbsolutisedIsClean(codec, raw.value);
    }
  }

  /** The two normalisers agree on every link that carries neither redirect
      marker and is not site-relative; on a site-relative link only
      `clean_url` adds the origin. */
  lemma NormalisersAgreeOnPlainLinks(codec: UrlCodec, u: string)
    requires u != ""
    requires !Contains(u, AdRedirectMarker) && !Contains(u, BizRedirectMarker)
    ensures StartsWith(u, "/") ==>
              CleanWebsiteLink(codec, Some(u)) == u && CleanUrl(codec, Some(u)) == YelpOrigin + u
    ensures !StartsWith(u, "/") ==> CleanWebsiteLink(codec, Some(u)) == CleanUrl(codec, Some(u)) == u
  {
  }
}
