/** The pure slices of the X scraper: the network route handler's media
    filter, the choice of a tweet's media URL, the parsing of trend
    cards and the collection of tweet URLs from a search page. The
    browser is replaced by what it hands these slices: the text of each
    element, each link's `href`, the intercepted URLs. */
module Scraper {
  import opened Base
  import opened Text
  import ContentGen

  // ---------------------------------------------------------- route handler

  /** The route handler keeps HLS playlists and anything named video
      (case-sensitive, unlike the media downloader). */
  predicate MediaRequest(url: string) {
    Contains(url, ".m3u8") || Contains(url, "video")
  }

  /** `route_handler` over the requests of one page, in order. */
  function Intercept(intercepted: seq<string>, requests: seq<string>): (r: seq<string>)
    ensures r == intercepted + Filter(requests, MediaRequest)
    decreases |requests|
  {
    if |requests| == 0 then intercepted
    else
      var next := if MediaRequest(requests[0]) then intercepted + [requests[0]] else intercepted;
      FilterInto(intercepted, requests, MediaRequest);
      Intercept(next, requests[1..])
  }

  lemma ContainsNonEmpty(s: string, p: string)
    requires |p| > 0 && Contains(s, p)
    ensures |s| > 0
  {
    var i :| OccursAt(s, p, i);
  }

  /** Every intercepted URL is a media request, so none is empty. */
  lemma InterceptedNonEmpty(requests: seq<string>)
    ensures forall u :: u in Intercept([], requests) ==> MediaRequest(u) && u != ""
  {
    forall u | u in Intercept([], requests) ensures MediaRequest(u) && u != "" {
      if Contains(u, ".m3u8") { ContainsNonEmpty(u, ".m3u8"); } else { ContainsNonEmpty(u, "video"); }
    }
  }

  // ----------------------------------------------------------- media choice

  /** Python's `a <= b` on strings: code-point lexicographic order. */
  predicate LexLe(a: string, b: string)
    decreases |a|
  {
    |a| == 0 || (|b| > 0 && (a[0] < b[0] || (a[0] == b[0] && LexLe(a[1..], b[1..]))))
  }

  lemma {:induction false} LexTotal(a: string, b: string)
    ensures LexLe(a, b) || LexLe(b, a)
    decreases |a|
  {
    if |a| > 0 && |b| > 0 && a[0] == b[0] {
      LexTotal(a[1..], b[1..]);
    }
  }

  lemma {:induction false} LexTrans(a: string, b: string, c: string)
    requires LexLe(a, b) && LexLe(b, c)
    ensures LexLe(a, c)
    decreases |a|
  {
    if |a| > 0 && a[0] == b[0] && b[0] == c[0] {
      LexTrans(a[1..], b[1..], c[1..]);
    }
  }

  lemma {:induction false} LexAntisym(a: string, b: string)
    requires LexLe(a, b) && LexLe(b, a)
    ensures a == b
    decreases |a|
  {
    if |a| > 0 {
      LexAntisym(a[1..], b[1..]);
      assert a == [a[0]] + a[1..] && b == [b[0]] + b[1..];
    }
  }

  lemma {:induction false} LexRefl(a: string)
    ensures LexLe(a, a)
    decreases |a|
  {
    if |a| > 0 {
      LexRefl(a[1..]);
    }
  }

  /** `sorted(urls, reverse=True)[0]`: the greatest URL. */
  function Greatest(urls: seq<string>): (r: string)
    requires |urls| > 0
    ensures r in urls
    ensures forall u :: u in urls ==> LexLe(u, r)
    decreases |urls|
  {
    if |urls| == 1 then
      LexRefl(urls[0]);
      urls[0]
    else
      var m := Greatest(urls[1..]);
      assert forall u :: u in urls ==> u == urls[0] || u in urls[1..];
      LexTotal(urls[0], m);
      if LexLe(m, urls[0]) then
        LexRefl(urls[0]);
        forall u | u in urls[1..] ensures LexLe(u, urls[0]) {
          LexTrans(u, m, urls[0]);
        }
        urls[0]
      else
        assert LexLe(urls[0], m);
        m
  }

  /** The greatest URL is the only one every other is below. */
  lemma GreatestUnique(urls: seq<string>, g: string)
    requires |urls| > 0 && g in urls && forall u :: u in urls ==> LexLe(u, g)
    ensures g == Greatest(urls)
  {
    LexAntisym(g, Greatest(urls));
  }

  /** The DOM fallback: no photo element (or the lookup raised), or a
      photo element and its `src` attribute, possibly missing. */
  datatype DomImage = NoImage | ImageSrc(src: Option<string>)

  predicate IsPlaylist(url: string) { Contains(url, ".m3u8") }

  /** The intercepted URL picked before the DOM is looked at: the
      greatest playlist, else the first URL. */
  function Chosen(intercepted: seq<string>): (r: Option<string>)
    ensures r.Some? <==> |intercepted| > 0
    ensures r.Some? ==> r.value in intercepted
  {
    if |intercepted| == 0 then None
    else
      var playlists := Filter(intercepted, IsPlaylist);
      if |playlists| > 0 then Some(Greatest(playlists)) else Some(intercepted[0])
  }

  /** The media URL `get_tweet_content` stores: the greatest intercepted
      playlist, else the first intercepted URL, and the DOM photo only
      when that left nothing. */
  function ChooseMedia(intercepted: seq<string>, dom: DomImage): (r: Option<string>)
    ensures (exists u :: u in intercepted && IsPlaylist(u)) ==>
      && r.Some? && r.value in intercepted && IsPlaylist(r.value)
      && forall u :: u in intercepted && IsPlaylist(u) ==> LexLe(u, r.value)
    ensures |intercepted| > 0 && intercepted[0] != "" && (forall u :: u in intercepted ==> !IsPlaylist(u)) ==>
      r == Some(intercepted[0])
    ensures |intercepted| == 0 ==> r == (if dom.ImageSrc? then dom.src else None)
  {
    var chosen := Chosen(intercepted);
    if chosen.Some? && chosen.value != "" then chosen
    else if dom.ImageSrc? then dom.src
    else chosen
  }

  /** With the route handler filling the list, the DOM photo is looked
      at only when no request was intercepted. */
  lemma InterceptedWinsOverDom(requests: seq<string>, dom1: DomImage, dom2: DomImage)
    requires |Intercept([], requests)| > 0
    ensures ChooseMedia(Intercept([], requests), dom1) == ChooseMedia(Intercept([], requests), dom2)
  {
    InterceptedNonEmpty(requests);
    DomIgnored(Intercept([], requests), dom1);
    DomIgnored(Intercept([], requests), dom2);
  }

  /** Intercepted URLs that are all non-empty leave the DOM unread. */
  lemma DomIgnored(urls: seq<string>, dom: DomImage)
    requires |urls| > 0 && forall u :: u in urls ==> u != ""
    ensures ChooseMedia(urls, dom) == Chosen(urls)
  {
  }

  // ----------------------------------------------------------- trend cards

  /** A trending topic as `get_trending_topics` reports it (the scrape
      time is left out). */
  datatype ScrapedTrend = ScrapedTrend(title: string, description: string, category: string)

  lemma NoNewline(x: string)
    requires !Contains(x, "\n")
    ensures '\n' !in x
  {
    if '\n' in x {
      var k :| 0 <= k < |x| && x[k] == '\n';
      assert x[k..k + 1] == "\n";
      assert OccursAt(x, "\n", k);
    }
  }

  /** The non-blank stripped lines of an element's text. */
  function Lines(text: string): (r: seq<string>)
    ensures forall i :: 0 <= i < |r| ==> ContentGen.Trimmed(r[i]) && '\n' !in r[i]
    ensures r == Filter(ContentGen.StripEach(SplitOn(text, "\n")), ContentGen.NonBlank)
  {
    var r := ContentGen.SplitStripped(text, "\n");
    forall i | 0 <= i < |r| ensures '\n' !in r[i] {
      NoNewline(r[i]);
    }
    r
  }

  /** One trend card: category, title and the rest as the description;
      a single line is the title of a "Trending" card. `None` is the
      `IndexError` of a card without text. */
  function ParseTrend(text: string): (r: Option<ScrapedTrend>)
    ensures r.None? <==> |Lines(text)| == 0
    ensures r.Some? ==> var lines := Lines(text);
      && (|lines| == 1 ==> r.value == ScrapedTrend(lines[0], "", "Trending"))
      && (|lines| >= 2 ==> r.value.category == lines[0] && r.value.title == lines[1]
                           && r.value.description == Join(" ", lines[2..]))
  {
    var lines := Lines(text);
    if |lines| == 0 then None
    else Some(ScrapedTrend(
      if |lines| > 1 then lines[1] else lines[0],
      if |lines| > 2 then Join(" ", lines[2..]) else "",
      if |lines| > 1 then lines[0] else "Trending"))
  }

  lemma {:induction false} KeepTrimmed(lines: seq<string>)
    requires forall i :: 0 <= i < |lines| ==> ContentGen.Trimmed(lines[i])
    ensures ContentGen.KeepStripped(lines) == lines
    decreases |lines|
  {
    if |lines| > 0 {
      ContentGen.StripKeeps(lines[0]);
      KeepTrimmed(lines[1..]);
      ContentGen.KeepStrippedCons(lines[0], lines[1..]);
      assert lines == [lines[0]] + lines[1..];
    }
  }

  /** A card whose text is its category, title and details on lines of
      their own parses back into them. */
  lemma ParseTrendRoundTrip(lines: seq<string>)
    requires |lines| >= 2
    requires forall i :: 0 <= i < |lines| ==> ContentGen.Trimmed(lines[i]) && '\n' !in lines[i]
    ensures ParseTrend(Join("\n", lines)) == Some(ScrapedTrend(lines[1], Join(" ", lines[2..]), lines[0]))
  {
    Text.SplitJoin(lines, '\n');
    assert [('\n' as char)] == "\n";
    KeepTrimmed(lines);
  }

  /** The values present, in order. */
  function Somes<T>(xs: seq<Option<T>>): (r: seq<T>)
    ensures |r| <= |xs|
    decreases |xs|
  {
    if |xs| == 0 then [] else (if xs[0].Some? then [xs[0].value] else []) + Somes(xs[1..])
  }

  /** How many values are present. */
  function SomeCount<T>(xs: seq<Option<T>>): nat
    decreases |xs|
  {
    if |xs| == 0 then 0 else (if xs[0].Some? then 1 else 0) + SomeCount(xs[1..])
  }

  lemma {:induction false} SomeCountAppend<T>(a: seq<Option<T>>, b: seq<Option<T>>)
    ensures SomeCount(a + b) == SomeCount(a) + SomeCount(b)
    decreases |a|
  {
    if |a| > 0 {
      assert (a + b)[1..] == a[1..] + b;
      SomeCountAppend(a[1..], b);
    } else {
      assert a + b == b;
    }
  }

  /** The value at position `i` lands after the values before it. */
  lemma {:induction false} SomesOrder<T>(xs: seq<Option<T>>, i: nat)
    requires i < |xs| && xs[i].Some?
    ensures SomeCount(xs[..i]) < |Somes(xs)| && Somes(xs)[SomeCount(xs[..i])] == xs[i].value
    decreases i
  {
    if i > 0 {
      SomesOrder(xs[1..], i - 1);
      assert xs[..i] == [xs[0]] + xs[1..][..i - 1];
      SomeCountAppend([xs[0]], xs[1..][..i - 1]);
    } else {
      assert xs[..0] == [];
    }
  }

  lemma {:induction false} SomesCount<T>(xs: seq<Option<T>>)
    ensures |Somes(xs)| == SomeCount(xs)
    decreases |xs|
  {
    if |xs| > 0 {
      SomesCount(xs[1..]);
    }
  }

  /** One element: `None` when its text could not be read or it has none. */
  function ParseElement(e: Option<string>): Option<ScrapedTrend> {
    if e.None? then None else ParseTrend(e.value)
  }

  /** `get_trending_topics`' loop over the examined elements: the ones
      that fail are skipped, the others keep page order. */
  function ParseTrends(elements: seq<Option<string>>): (r: seq<ScrapedTrend>)
    ensures |r| <= |elements|
    ensures |r| == SomeCount(seq(|elements|, i requires 0 <= i < |elements| => ParseElement(elements[i])))
    ensures forall i :: 0 <= i < |elements| && ParseElement(elements[i]).Some? ==>
      var parsed := seq(|elements|, i requires 0 <= i < |elements| => ParseElement(elements[i]));
      var k := SomeCount(parsed[..i]);
      k < |r| && r[k] == ParseElement(elements[i]).value
  {
    var parsed := seq(|elements|, i requires 0 <= i < |elements| => ParseElement(elements[i]));
    SomesCount(parsed);
    forall i | 0 <= i < |elements| && ParseElement(elements[i]).Some?
      ensures SomeCount(parsed[..i]) < |Somes(parsed)| && Somes(parsed)[SomeCount(parsed[..i])] == ParseElement(elements[i]).value
    {
      SomesOrder(parsed, i);
    }
    Somes(parsed)
  }

  /** The page's trends and the new interaction count; `None` when the
      page failed to load, which re-raises and counts nothing. */
  function GetTrendingTopics(page: Option<seq<Option<string>>>, limit: int, interactions: int)
    : (r: Option<(seq<ScrapedTrend>, int)>)
    ensures page.None? <==> r.None?
    ensures r.Some? ==> r.value.1 == interactions + 1
    ensures r.Some? && limit >= 0 ==> |r.value.0| <= limit
    ensures r.Some? ==> r.value.0 == ParseTrends(PyTake(page.value, limit))
  {
    if page.None? then None
    else Some((ParseTrends(PyTake(page.value, limit)), interactions + 1))
  }

  // ------------------------------------------------------------ tweet URLs

  /** A link to a tweet. */
  predicate StatusHref(href: Option<string>) {
    href.Some? && href.value != "" && Contains(href.value, "/status/")
  }

  /** A relative link made absolute on x.com. */
  function FullUrl(href: string): string {
    if StartsWith(href, "/") then "https://x.com" + href else href
  }

  /** `u` is the absolute URL of one of the tweet links. */
  predicate FromLinks(u: string, hrefs: seq<Option<string>>) {
    exists i :: 0 <= i < |hrefs| && StatusHref(hrefs[i]) && u == FullUrl(hrefs[i].value)
  }

  /** The collection loop over the examined links: new URLs are added in
      order until `limit` are held. */
  function CollectUrls(hrefs: seq<Option<string>>, limit: int, acc: seq<string>): (r: seq<string>)
    requires Distinct(acc) && (|acc| < limit || |acc| == 0)
    ensures Distinct(r) && |acc| <= |r| && r[..|acc|] == acc
    ensures forall u :: u in r && u !in acc ==> FromLinks(u, hrefs)
    ensures limit >= 1 ==> |r| <= limit
    ensures limit < 1 ==> |r| <= 1
    ensures |r| < limit ==> forall i :: 0 <= i < |hrefs| && StatusHref(hrefs[i]) ==> FullUrl(hrefs[i].value) in r
    decreases |hrefs|
  {
    if |hrefs| == 0 then acc
    else if !StatusHref(hrefs[0]) then
      var r := CollectUrls(hrefs[1..], limit, acc);
      FromLinksTail(r, acc, acc, hrefs);
      r
    else
      var url := FullUrl(hrefs[0].value);
      var next := if url in acc then acc else acc + [url];
      FromLinksHead(acc, next, hrefs);
      if |next| >= limit then
        next
      else
        var r := CollectUrls(hrefs[1..], limit, next);
        PrefixOfPrefix(r, next, acc);
        FromLinksTail(r, acc, next, hrefs);
        HeldAfterHead(r, next, hrefs, limit);
        r
  }

  /** Adding the first link's URL to what was held. */
  lemma FromLinksHead(acc: seq<string>, next: seq<string>, hrefs: seq<Option<string>>)
    requires |hrefs| > 0 && StatusHref(hrefs[0])
    requires next == if FullUrl(hrefs[0].value) in acc then acc else acc + [FullUrl(hrefs[0].value)]
    ensures next[..|acc|] == acc && |acc| <= |next| <= |acc| + 1
    ensures FullUrl(hrefs[0].value) in next
    ensures forall u :: u in next && u !in acc ==> FromLinks(u, hrefs)
  {
    assert FromLinks(FullUrl(hrefs[0].value), hrefs) by {
      assert StatusHref(hrefs[0]);
    }
  }

  /** URLs from the later links come from the links. */
  lemma FromLinksTail(r: seq<string>, acc: seq<string>, next: seq<string>, hrefs: seq<Option<string>>)
    requires |hrefs| > 0
    requires forall u :: u in r && u !in next ==> FromLinks(u, hrefs[1..])
    requires forall u :: u in next && u !in acc ==> FromLinks(u, hrefs)
    ensures forall u :: u in r && u !in acc ==> FromLinks(u, hrefs)
  {
    forall u | u in r && u !in acc && u !in next
      ensures FromLinks(u, hrefs)
    {
      var i :| 0 <= i < |hrefs[1..]| && StatusHref(hrefs[1..][i]) && u == FullUrl(hrefs[1..][i].value);
      assert hrefs[i + 1] == hrefs[1..][i];
    }
  }

  lemma PrefixOfPrefix<T>(r: seq<T>, next: seq<T>, acc: seq<T>)
    requires |acc| <= |next| <= |r| && r[..|next|] == next && next[..|acc|] == acc
    ensures r[..|acc|] == acc
  {
    assert r[..|next|][..|acc|] == r[..|acc|];
  }

  /** When the later links left room, the first link's URL is held too. */
  lemma HeldAfterHead(r: seq<string>, next: seq<string>, hrefs: seq<Option<string>>, limit: int)
    requires |hrefs| > 0 && StatusHref(hrefs[0]) && FullUrl(hrefs[0].value) in next
    requires |next| <= |r| && r[..|next|] == next
    requires |r| < limit ==>
      forall i :: 0 <= i < |hrefs[1..]| && StatusHref(hrefs[1..][i]) ==> FullUrl(hrefs[1..][i].value) in r
    ensures |r| < limit ==> forall i :: 0 <= i < |hrefs| && StatusHref(hrefs[i]) ==> FullUrl(hrefs[i].value) in r
  {
    var j :| 0 <= j < |next| && next[j] == FullUrl(hrefs[0].value);
    assert r[..|next|][j] == r[j];
    if |r| < limit {
      forall i | 0 < i < |hrefs| && StatusHref(hrefs[i])
        ensures FullUrl(hrefs[i].value) in r
      {
        assert hrefs[1..][i - 1] == hrefs[i];
      }
    }
  }

  /** `search_tweets_by_topic`: the tweet URLs of the first `2·limit`
      results and the new interaction count; a page that failed to load
      gives no URLs and counts nothing. */
  function SearchTweetUrls(page: Option<seq<Option<string>>>, limit: int, interactions: int)
    : (r: (seq<string>, int))
    ensures page.None? ==> r == ([], interactions)
    ensures page.Some? ==> r.1 == interactions + 1
    ensures Distinct(r.0)
    ensures limit >= 1 ==> |r.0| <= limit
    ensures page.Some? ==> forall u :: u in r.0 ==>
      exists i :: 0 <= i < |PyTake(page.value, limit * 2)| && StatusHref(page.value[i]) && u == FullUrl(page.value[i].value)
    ensures page.Some? && |r.0| < limit ==>
      forall i :: 0 <= i < |PyTake(page.value, limit * 2)| && StatusHref(page.value[i]) ==>
        FullUrl(page.value[i].value) in r.0
  {
    if page.None? then ([], interactions)
    else
      var examined := PyTake(page.value, limit * 2);
      var r := CollectUrls(examined, limit, []);
      assert forall i :: 0 <= i < |examined| ==> examined[i] == page.value[i];
      (r, interactions + 1)
  }
}
