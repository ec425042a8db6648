/** The dashboard's URL validators. `urlparse` is the parameter `parse`:
    it answers the scheme, the hostname (`None` when the URL has none) and
    the path, or `None` where Python raises. */
module Validators {
  import opened Base
  import opened Text

  /** The parts of a parsed URL the validators read. */
  datatype ParsedUrl = ParsedUrl(scheme: string, hostname: Option<string>, path: string)

  /** A validator's answer: whether the URL passes, and the message why
      not. */
  datatype Verdict = Verdict(valid: bool, message: string)

  /** `_X_DOMAINS`. */
  const XDomains: set<string> :=
    {"x.com", "twitter.com", "www.x.com", "www.twitter.com", "mobile.x.com", "mobile.twitter.com"}

  /** `_DANGEROUS_SCHEMES`. */
  const DangerousSchemes: set<string> := {"javascript", "data", "vbscript", "file"}

  /** `_MEDIA_DOMAINS`. */
  const MediaDomains: set<string> :=
    {"twimg.com", "video.twimg.com", "pbs.twimg.com", "twitter.com", "x.com", "abs.twimg.com"}

  const MaxUrlLength: nat := 500

  /** `parsed.hostname` is truthy. */
  predicate HasHost(p: ParsedUrl) {
    p.hostname.Some? && p.hostname.value != ""
  }

  /** The lowered scheme is `https`. */
  predicate IsHttps(p: ParsedUrl) {
    Lower(p.scheme) == "https"
  }

  // ------------------------------------------------------------ validate_x_url

  /** Everything `validate_x_url` demands of a URL, as one conjunction. */
  predicate XUrlAcceptable(url: string, parse: string -> Option<ParsedUrl>) {
    var u := Strip(url);
    && u != ""
    && |u| <= MaxUrlLength
    && parse(u).Some?
    && IsHttps(parse(u).value)
    && HasHost(parse(u).value)
    && Lower(parse(u).value.hostname.value) in XDomains
    && Contains(Lower(parse(u).value.path), "/status/")
  }

  /** The checks of `validate_x_url` after parsing, in order. */
  function XCheck(p: ParsedUrl): (r: Verdict)
    ensures r.valid <==> r.message == ""
    ensures r.valid <==>
      IsHttps(p) && HasHost(p) && Lower(p.hostname.value) in XDomains && Contains(Lower(p.path), "/status/")
    ensures !IsHttps(p) ==> r.message == "URL must use HTTPS"
    ensures IsHttps(p) && !HasHost(p) ==> r.message == "Invalid URL: no hostname"
    ensures IsHttps(p) && HasHost(p) && Lower(p.hostname.value) !in XDomains ==>
      r.message == "URL must be from x.com or twitter.com (got " + p.hostname.value + ")"
    ensures IsHttps(p) && HasHost(p) && Lower(p.hostname.value) in XDomains && !Contains(Lower(p.path), "/status/") ==>
      r.message == "URL must point to a tweet/thread status URL"
  {
    if !IsHttps(p) then Verdict(false, "URL must use HTTPS")
    else if !HasHost(p) then Verdict(false, "Invalid URL: no hostname")
    else if Lower(p.hostname.value) !in XDomains then
      Verdict(false, "URL must be from x.com or twitter.com (got " + p.hostname.value + ")")
    else if !Contains(Lower(p.path), "/status/") then Verdict(false, "URL must point to a tweet/thread status URL")
    else Verdict(true, "")
  }

  /** `validate_x_url`: the first failing check names the message, and the
      URL passes exactly when every check does. */
  function ValidateXUrl(url: string, parse: string -> Option<ParsedUrl>): (r: Verdict)
    ensures r.valid <==> XUrlAcceptable(url, parse)
    ensures r.valid <==> r.message == ""
    ensures IsBlank(url) ==> r.message == "URL is required"
    ensures !IsBlank(url) && |Strip(url)| > MaxUrlLength ==> r.message == "URL is too long (max 500 characters)"
    ensures !IsBlank(url) && |Strip(url)| <= MaxUrlLength && parse(Strip(url)).None? ==>
      r.message == "Invalid URL format"
    ensures !IsBlank(url) && |Strip(url)| <= MaxUrlLength && parse(Strip(url)).Some? ==>
      r == XCheck(parse(Strip(url)).value)
  {
    if IsBlank(url) then Verdict(false, "URL is required")
    else
      var u := Strip(url);
      if |u| > MaxUrlLength then Verdict(false, "URL is too long (max 500 characters)")
      else match parse(u)
        case None => Verdict(false, "Invalid URL format")
        case Some(p) => XCheck(p)
  }

  /** Only the lowered scheme, the lowered hostname and the lowered path
      matter for the verdict. */
  lemma XCheckIgnoresCase(p: ParsedUrl, q: ParsedUrl)
    requires Lower(p.scheme) == Lower(q.scheme) && Lower(p.path) == Lower(q.path)
    requires HasHost(p) <==> HasHost(q)
    requires HasHost(p) ==> Lower(p.hostname.value) == Lower(q.hostname.value)
    ensures XCheck(p).valid == XCheck(q).valid
  {
  }

  // --------------------------------------------------------- validate_safe_url

  /** The checks of `validate_safe_url` after parsing: a dangerous scheme
      first, then https, then a hostname. */
  function SafeCheck(p: ParsedUrl): (r: Verdict)
    ensures r.valid <==> r.message == ""
    ensures r.valid <==> IsHttps(p) && HasHost(p)
    ensures Lower(p.scheme) in DangerousSchemes ==> r.message == "Dangerous URL scheme: " + p.scheme
    ensures Lower(p.scheme) !in DangerousSchemes && !IsHttps(p) ==> r.message == "URL must use HTTPS"
    ensures IsHttps(p) && !HasHost(p) ==> r.message == "Invalid URL: no hostname"
  {
    if Lower(p.scheme) in DangerousSchemes then Verdict(false, "Dangerous URL scheme: " + p.scheme)
    else if !IsHttps(p) then Verdict(false, "URL must use HTTPS")
    else if !HasHost(p) then Verdict(false, "Invalid URL: no hostname")
    else Verdict(true, "")
  }

  /** `validate_safe_url`: a non-blank URL that parses, uses https and has
      a hostname. */
  function ValidateSafeUrl(url: string, parse: string -> Option<ParsedUrl>): (r: Verdict)
    ensures r.valid <==> r.message == ""
    ensures r.valid <==>
      !IsBlank(url) && parse(Strip(url)).Some? && IsHttps(parse(Strip(url)).value) && HasHost(parse(Strip(url)).value)
    ensures IsBlank(url) ==> r.message == "URL is required"
    ensures !IsBlank(url) && parse(Strip(url)).None? ==> r.message == "Invalid URL format"
    ensures !IsBlank(url) && parse(Strip(url)).Some? ==> r == SafeCheck(parse(Strip(url)).value)
  {
    if IsBlank(url) then Verdict(false, "URL is required")
    else match parse(Strip(url))
      case None => Verdict(false, "Invalid URL format")
      case Some(p) => SafeCheck(p)
  }

  /** A URL accepted as an X status URL is also safe to render. */
  lemma XUrlIsSafe(url: string, parse: string -> Option<ParsedUrl>)
    requires ValidateXUrl(url, parse).valid
    ensures ValidateSafeUrl(url, parse).valid
  {
  }

  /** No dangerous scheme is ever accepted, whatever its case. */
  lemma DangerousNeverSafe(url: string, parse: string -> Option<ParsedUrl>)
    requires !IsBlank(url) && parse(Strip(url)).Some? && Lower(parse(Strip(url)).value.scheme) in DangerousSchemes
    ensures !ValidateSafeUrl(url, parse).valid
    ensures StartsWith(ValidateSafeUrl(url, parse).message, "Dangerous URL scheme: ")
  {
  }

  // ----------------------------------------------------- validate_media_domain

  /** `hostname == domain or hostname.endswith('.' + domain)`. */
  predicate HostMatches(host: string, domain: string) {
    host == domain || EndsWith(host, "." + domain)
  }

  /** The lowered hostname is a media domain or a subdomain of one. Python
      visits the set in some order and stops at the first match; the
      answer does not depend on the order. */
  predicate MediaHost(host: string) {
    exists d :: d in MediaDomains && HostMatches(host, d)
  }

  /** The checks of `validate_media_domain` after parsing. */
  function MediaCheck(p: ParsedUrl): (r: Verdict)
    ensures r.valid <==> r.message == ""
    ensures r.valid <==> IsHttps(p) && HasHost(p) && MediaHost(Lower(p.hostname.value))
    ensures !IsHttps(p) ==> r.message == "Media URL must use HTTPS"
    ensures IsHttps(p) && !HasHost(p) ==> r.message == "Invalid URL: no hostname"
    ensures IsHttps(p) && HasHost(p) && !MediaHost(Lower(p.hostname.value)) ==>
      r.message == "Domain not allowed for media download: " + Lower(p.hostname.value)
  {
    if !IsHttps(p) then Verdict(false, "Media URL must use HTTPS")
    else if !HasHost(p) then Verdict(false, "Invalid URL: no hostname")
    else
      var host := Lower(p.hostname.value);
      if MediaHost(host) then Verdict(true, "")
      else Verdict(false, "Domain not allowed for media download: " + host)
  }

  /** `validate_media_domain`: unlike the other two it parses the URL
      without stripping it and sets no length limit. */
  function ValidateMediaDomain(url: string, parse: string -> Option<ParsedUrl>): (r: Verdict)
    ensures r.valid <==> r.message == ""
    ensures r.valid <==>
      !IsBlank(url) && parse(url).Some? && IsHttps(parse(url).value) && HasHost(parse(url).value)
      && MediaHost(Lower(parse(url).value.hostname.value))
    ensures IsBlank(url) ==> r.message == "URL is required"
    ensures !IsBlank(url) && parse(url).None? ==> r.message == "Invalid URL format"
    ensures !IsBlank(url) && parse(url).Some? ==> r == MediaCheck(parse(url).value)
  {
    if IsBlank(url) then Verdict(false, "URL is required")
    else match parse(url)
      case None => Verdict(false, "Invalid URL format")
      case Some(p) => MediaCheck(p)
  }

  /** A subdomain of a media domain passes. */
  lemma MediaSubdomainPasses()
    ensures MediaCheck(ParsedUrl("https", Some("a.pbs.twimg.com"), "/x.jpg")).valid
  {
    var h := "a.pbs.twimg.com";
    assert Lower("https") == "https";
    assert Lower(h) == h;
    assert "pbs.twimg.com" in MediaDomains;
    assert h[|h| - |".pbs.twimg.com"|..] == ".pbs.twimg.com";
    assert HostMatches(h, "pbs.twimg.com");
  }

  /** A host that ends in a media domain's letters without the dot is
      refused. */
  lemma MediaSuffixNeedsDot()
    ensures !MediaCheck(ParsedUrl("https", Some("notx.com"), "/a")).valid
  {
    var h := "notx.com";
    assert Lower(h) == h;
    forall d | d in MediaDomains
      ensures !HostMatches(h, d)
    {
      assert h[3] == 'x' && h[2] == 't';
    }
  }
}
