/** Pure helpers of the dashboard: HTML escaping, CSS class sanitising,
    source badges, the media summary of a tweet and status rendering.
    `json.loads` is the parameter `decode`. */
module DashboardHelpers {
  import opened Base
  import opened Text
  import opened JsonValue
  import opened Models

  // ---------------------------------------------------------------- safe_html

  /** `html.escape` of one character (with `quote=True`). */
  function EscapeChar(c: char): string {
    if c == '&' then "&amp;"
    else if c == '<' then "&lt;"
    else if c == '>' then "&gt;"
    else if c == '"' then "&quot;"
    else if c == '\'' then "&#x27;"
    else [c]
  }

  /** The characters `safe_html` never lets through. */
  predicate Markup(c: char) {
    c == '<' || c == '>' || c == '"' || c == '\''
  }

  /** `safe_html`: each character escaped in turn. */
  function SafeHtml(s: string): (r: string)
    ensures forall i :: 0 <= i < |r| ==> !Markup(r[i])
    ensures |r| >= |s|
    decreases |s|
  {
    if |s| == 0 then "" else EscapeChar(s[0]) + SafeHtml(s[1..])
  }

  /** The inverse of `html.escape` on the five entities it writes. */
  function Unescape(t: string): string
    decreases |t|
  {
    if |t| == 0 then ""
    else if StartsWith(t, "&amp;") then "&" + Unescape(t[5..])
    else if StartsWith(t, "&lt;") then "<" + Unescape(t[4..])
    else if StartsWith(t, "&gt;") then ">" + Unescape(t[4..])
    else if StartsWith(t, "&quot;") then "\"" + Unescape(t[6..])
    else if StartsWith(t, "&#x27;") then "'" + Unescape(t[6..])
    else [t[0]] + Unescape(t[1..])
  }

  /** Unescaping an entity followed by `rest` gives its character, then `rest` unescaped. */
  lemma UnescapeEntity(c: char, e: string, rest: string)
    requires (c, e) in {('&', "&amp;"), ('<', "&lt;"), ('>', "&gt;"), ('"', "&quot;"), ('\'', "&#x27;")}
    ensures Unescape(e + rest) == [c] + Unescape(rest)
  {
    var t := e + rest;
    assert t[..|e|] == e && t[|e|..] == rest && t[1] == e[1];
  }

  lemma UnescapePlain(c: char, rest: string)
    requires c != '&'
    ensures Unescape([c] + rest) == [c] + Unescape(rest)
  {
    var t := [c] + rest;
    assert t[0] == c && t[1..] == rest;
    StartsWithHead(t, "&amp;");
    StartsWithHead(t, "&lt;");
    StartsWithHead(t, "&gt;");
    StartsWithHead(t, "&quot;");
    StartsWithHead(t, "&#x27;");
  }

  /** A text starting with `p` starts with `p`'s first character. */
  lemma StartsWithHead(t: string, p: string)
    requires |p| > 0
    ensures StartsWith(t, p) ==> |t| > 0 && t[0] == p[0]
  {
    if StartsWith(t, p) {
      assert t[..|p|][0] == t[0];
    }
  }

  lemma UnescapeStep(c: char, rest: string)
    ensures Unescape(EscapeChar(c) + rest) == [c] + Unescape(rest)
  {
    if c == '&' || c == '<' || c == '>' || c == '"' || c == '\'' {
      UnescapeEntity(c, EscapeChar(c), rest);
    } else {
      UnescapePlain(c, rest);
    }
  }

  /** Escaping loses nothing: unescaping gives the original text back. */
  lemma {:induction false} SafeHtmlRoundTrip(s: string)
    ensures Unescape(SafeHtml(s)) == s
    decreases |s|
  {
    if |s| > 0 {
      UnescapeStep(s[0], SafeHtml(s[1..]));
      SafeHtmlRoundTrip(s[1..]);
    }
  }

  // ----------------------------------------------------------- safe_css_class

  /** The regex class `[a-zA-Z0-9_-]`. */
  predicate CssChar(c: char) {
    IsAsciiLetter(c) || IsAsciiDigit(c) || c == '_' || c == '-'
  }

  /** `safe_css_class`: every other character deleted, order kept. */
  function SafeCssClass(cls: string): (r: string)
    ensures forall i :: 0 <= i < |r| ==> CssChar(r[i])
    ensures Subsequence(r, cls)
    ensures |r| == CountIf(cls, CssChar)
  {
    FilterSubsequence(cls, CssChar);
    CountIfIsFilterLength(cls, CssChar);
    Filter(cls, CssChar)
  }

  /** A class made only of allowed characters is kept as it is. */
  lemma {:induction false} SafeCssKeepsClean(s: string)
    requires forall i :: 0 <= i < |s| ==> CssChar(s[i])
    ensures SafeCssClass(s) == s
    decreases |s|
  {
    if |s| > 0 {
      SafeCssKeepsClean(s[1..]);
    }
  }

  /** Sanitising twice is sanitising once. */
  lemma SafeCssIdempotent(s: string)
    ensures SafeCssClass(SafeCssClass(s)) == SafeCssClass(s)
  {
    SafeCssKeepsClean(SafeCssClass(s));
  }

  // --------------------------------------------------- get_source_badge_class

  /** `_SOURCE_BADGE_MAP`. */
  const SourceBadges: map<string, string> := map[
    "Yahoo Finance" := "source-yahoo-finance",
    "WSJ" := "source-wsj",
    "TechCrunch" := "source-techcrunch",
    "Bloomberg" := "source-bloomberg",
    "MarketWatch" := "source-marketwatch",
    "Manual" := "source-manual",
    "X" := "source-x"]

  /** Every badge class is already a clean CSS class. */
  lemma BadgesClean(name: string)
    requires name in SourceBadges
    ensures forall i :: 0 <= i < |SourceBadges[name]| ==> CssChar(SourceBadges[name][i])
  {
  }

  /** `get_source_badge_class`: the mapped class of a known name (matched
      case-sensitively), else `source-manual`, sanitised. */
  function SourceBadgeClass(name: string): (r: string)
    ensures name in SourceBadges ==> r == SourceBadges[name]
    ensures name !in SourceBadges ==> r == "source-manual"
    ensures forall i :: 0 <= i < |r| ==> CssChar(r[i])
  {
    var cls := if name in SourceBadges then SourceBadges[name] else "source-manual";
    BadgesClean(if name in SourceBadges then name else "Manual");
    SafeCssKeepsClean(cls);
    SafeCssClass(cls)
  }

  /** Every trend source has a badge of its own; only the manual one
      shares the fallback class. */
  lemma BadgeForEverySource(s: TrendSource)
    ensures SourceValue(s) in SourceBadges
    ensures SourceBadgeClass(SourceValue(s)) == "source-manual" <==> s == Manual
  {
    match s
    case XTwitter => assert SourceBadges["X"] == "source-x";
    case YahooFinance => assert SourceBadges["Yahoo Finance"] == "source-yahoo-finance";
    case Wsj => assert SourceBadges["WSJ"] == "source-wsj";
    case TechCrunch => assert SourceBadges["TechCrunch"] == "source-techcrunch";
    case Bloomberg => assert SourceBadges["Bloomberg"] == "source-bloomberg";
    case MarketWatch => assert SourceBadges["MarketWatch"] == "source-marketwatch";
    case Manual => assert SourceBadges["Manual"] == "source-manual";
  }

  // --------------------------------------------------------- parse_media_info

  /** The item has `"type": t`. */
  predicate HasType(item: Json, t: string)
    requires item.Obj?
  {
    Get(item.fields, "type") == Some(Str(t))
  }

  /** `any(m.get('type') == t for m in items)`: `None` when the scan meets
      an item without `.get` before it finds a match. */
  function AnyType(items: seq<Json>, t: string): (r: Option<bool>)
    ensures r.Some? && r.value <==> exists i :: (0 <= i < |items| && items[i].Obj? && HasType(items[i], t) &&
      forall j :: 0 <= j < i ==> items[j].Obj?)
    ensures (forall i :: 0 <= i < |items| ==> items[i].Obj?) ==> r.Some?
    decreases |items|
  {
    if |items| == 0 then Some(false)
    else if !items[0].Obj? then None
    else if HasType(items[0], t) then Some(true)
    else
      var r := AnyType(items[1..], t);
      assert r.Some? && r.value ==> exists i :: (0 <= i < |items| && items[i].Obj? && HasType(items[i], t) &&
        forall j :: 0 <= j < i ==> items[j].Obj?) by {
        if r.Some? && r.value {
          var i :| (0 <= i < |items[1..]| && items[1..][i].Obj? && HasType(items[1..][i], t) &&
            forall j :: 0 <= j < i ==> items[1..][j].Obj?);
          assert forall j :: 1 <= j < i + 1 ==> items[j] == items[1..][j - 1];
        }
      }
      r
  }

  /** `parse_media_info`: the count and label of a `media_paths` value.
      Anything that is not a list gives `(0, "")`, as every exception
      path does. */
  function ParseMediaInfo(raw: Option<string>, decode: string -> Option<Json>): (r: (nat, string))
    ensures r.1 == "" || r.1 == "Video" || r.1 == "Image"
    ensures r.1 != "" ==> r.0 > 0
    ensures raw.None? || raw == Some("") ==> r == (0, "")
    ensures raw.Some? && decode(raw.value).Some? && !decode(raw.value).value.Arr? ==> r == (0, "")
    ensures raw.Some? && raw.value != "" && decode(raw.value).Some? && decode(raw.value).value.Arr? ==>
      var items := decode(raw.value).value.items;
      (forall i :: 0 <= i < |items| ==> items[i].Obj?) ==>
        && r.0 == |items|
        && (r.1 == "Video" <==> exists i :: 0 <= i < |items| && HasType(items[i], "video"))
        && (r.1 == "Image" <==> (exists i :: 0 <= i < |items| && HasType(items[i], "photo")) &&
                                 forall i :: 0 <= i < |items| ==> !HasType(items[i], "video"))
  {
    if raw.None? || raw.value == "" then (0, "")
    else match decode(raw.value)
      case None => (0, "")
      case Some(v) =>
        if !v.Arr? then (0, "")
        else
          var video := AnyType(v.items, "video");
          var photo := AnyType(v.items, "photo");
          if video.None? || photo.None? then (0, "")
          else (|v.items|, if video.value then "Video" else if photo.value then "Image" else "")
  }

  /** The scans stop at their first match, so an item without `.get`
      after both matches goes unnoticed: a video, a photo and then a
      number still count three items. */
  lemma ShortCircuitCountsTrailingItem(raw: string, decode: string -> Option<Json>)
    requires raw != ""
    requires decode(raw) == Some(Arr([Obj([("type", Str("video"))]), Obj([("type", Str("photo"))]), Num(5)]))
    ensures ParseMediaInfo(Some(raw), decode) == (3, "Video")
  {
    var items := [Obj([("type", Str("video"))]), Obj([("type", Str("photo"))]), Num(5)];
    assert HasType(items[0], "video");
    assert !HasType(items[0], "photo");
    assert items[1..][0] == items[1];
    assert HasType(items[1], "photo");
  }

  /** A number before any match is noticed and the whole answer is
      `(0, "")`. */
  lemma LeadingNonObjectFails(raw: string, decode: string -> Option<Json>, rest: seq<Json>)
    requires raw != ""
    requires decode(raw) == Some(Arr([Num(1)] + rest))
    ensures ParseMediaInfo(Some(raw), decode) == (0, "")
  {
  }

  // -------------------------------------------------------- format_status_str

  /** What `format_status_str` is given: something with a `.value`
      attribute, or anything else with its `str()`. */
  datatype StatusArg = WithValue(value: string) | Plain(text: string)

  /** `format_status_str`. */
  function FormatStatusStr(status: StatusArg): (r: string)
    ensures status.WithValue? ==> r == status.value
    ensures status.Plain? ==> r == status.text
  {
    match status
    case WithValue(v) => v
    case Plain(t) => t
  }

  /** A tweet status renders to a value that names it again. */
  lemma FormatStatusIdentifies(s: TweetStatus)
    ensures StatusFromValue(FormatStatusStr(WithValue(StatusValue(s)))) == Some(s)
  {
    StatusValuesIdentify(s);
  }
}
