/** `AutoPipeline`: the two-phase trend-to-post autopilot. Phase A saves
    the fetched articles as trends, drops titles already queued as tweets
    and keeps one candidate per topic cluster; Phase B generates a post
    for each confirmed trend and queues the first valid variant as a
    tweet. The news scraper's ranked articles are an input, its
    `STOPWORDS` set is a parameter, `generate_post` is a parameter
    answering either its variants or the exception it raised, and the md5
    source hash and the uuid batch id are parameters. */
module AutoPipeline {
  import opened Base
  import opened Text
  import opened JsonValue
  import opened Models
  import Hebrew
  import ContentGen
  import SummaryGenerator
  import Retry

  // ------------------------------------------------------------ title keywords

  /** The regex class `[A-Za-z0-9']`. */
  predicate KeywordChar(c: char) {
    IsAsciiLetter(c) || IsAsciiDigit(c) || c == '\''
  }

  /** `_title_keywords`: the runs of keyword characters of the lowered
      title that are longer than two characters and not stopwords. */
  function TitleKeywords(title: string, stopwords: set<string>): (r: set<string>)
    ensures forall w :: w in r ==> w in Tokens(Lower(title), KeywordChar)
    ensures forall w :: w in r ==> |w| > 2 && w !in stopwords && Lower(w) == w
    ensures forall w :: w in r ==> forall j :: 0 <= j < |w| ==> KeywordChar(w[j])
    ensures forall k :: 0 <= k < |Tokens(Lower(title), KeywordChar)| ==>
      var w := Tokens(Lower(title), KeywordChar)[k];
      (w in r <==> |w| > 2 && w !in stopwords)
  {
    TokensAreLowerKeywords(Lower(title));
    set w | w in Tokens(Lower(title), KeywordChar) && w !in stopwords && |w| > 2
  }

  /** A token of a lowered text is lower-case and made of keyword
      characters. */
  lemma TokensAreLowerKeywords(low: string)
    requires Lower(low) == low
    ensures forall w :: w in Tokens(low, KeywordChar) ==>
      Lower(w) == w && forall j :: 0 <= j < |w| ==> KeywordChar(w[j])
  {
    var toks := Tokens(low, KeywordChar);
    TokensChars(low, KeywordChar);
    TokensWellFormed(low, KeywordChar);
    forall w | w in toks
      ensures Lower(w) == w
    {
      var k :| 0 <= k < |toks| && toks[k] == w;
      forall j | 0 <= j < |w|
        ensures LowerChar(w[j]) == w[j]
      {
        assert w[j] in low;
        var m :| 0 <= m < |low| && low[m] == w[j];
        assert Lower(low)[m] == LowerChar(low[m]);
      }
    }
  }

  /** Titles that differ only in ASCII case have the same keywords. */
  lemma TitleKeywordsIgnoreCase(a: string, b: string, stopwords: set<string>)
    requires Lower(a) == Lower(b)
    ensures TitleKeywords(a, stopwords) == TitleKeywords(b, stopwords)
  {
  }

  // ------------------------------------------------------------- diversity

  /** Jaccard similarity above 0.4, by cross-multiplication. Only two
      non-empty keyword sets are ever compared: a candidate without
      keywords is taken without a check, and a selected one without
      keywords is passed over. */
  predicate Similar(a: set<string>, b: set<string>) {
    a != {} && b != {} && 5 * |a * b| > 2 * |a + b|
  }

  /** One of the candidates chosen so far is on the same topic as a
      candidate with keywords `k`. */
  predicate SimilarToChosen(k: set<string>, chosen: seq<Candidate>, kw: Candidate -> set<string>) {
    exists j :: 0 <= j < |chosen| && Similar(k, kw(chosen[j]))
  }

  /** No candidate is on the same topic as one chosen before it. */
  predicate Spread(s: seq<Candidate>, kw: Candidate -> set<string>) {
    forall i, j :: 0 <= i < j < |s| ==> !Similar(kw(s[j]), kw(s[i]))
  }

  /** `x` was taken, or something taken is on its topic. */
  predicate Covered(x: Candidate, s: seq<Candidate>, kw: Candidate -> set<string>) {
    x in s || SimilarToChosen(kw(x), s, kw)
  }

  /** An enriched candidate of `fetch_and_rank`. */
  datatype Candidate = Candidate(trendId: int, title: string, description: string, summary: string,
                                 source: string, url: string, score: int, keywords: seq<string>,
                                 category: string)

  lemma CoveredGrows(x: Candidate, chosen: seq<Candidate>, r: seq<Candidate>, kw: Candidate -> set<string>)
    requires |chosen| <= |r| && r[..|chosen|] == chosen
    requires Covered(x, chosen, kw)
    ensures Covered(x, r, kw)
  {
    if x in chosen {
      var i :| 0 <= i < |chosen| && chosen[i] == x;
      assert r[i] == x;
    } else {
      var j :| 0 <= j < |chosen| && Similar(kw(x), kw(chosen[j]));
      assert r[j] == chosen[j];
    }
  }

  /** The loop of `_diversify_candidates` from the candidates still to
      visit, with `chosen` taken so far: a candidate is taken unless it is
      on the topic of one already taken, and the loop stops as soon as
      `topN` are taken (after the first one when `topN` is not positive). */
  function Pick(cands: seq<Candidate>, topN: int, kw: Candidate -> set<string>, chosen: seq<Candidate>)
    : (r: seq<Candidate>)
    requires |chosen| < Max(topN, 1)
    requires Spread(chosen, kw)
    ensures |chosen| <= |r| <= Max(topN, 1)
    ensures r[..|chosen|] == chosen
    ensures Subsequence(r[|chosen|..], cands)
    ensures Spread(r, kw)
    ensures |cands| > 0 && !SimilarToChosen(kw(cands[0]), chosen, kw) ==> |r| > |chosen| && r[|chosen|] == cands[0]
    ensures |r| < topN ==> forall x :: x in cands ==> Covered(x, r, kw)
    decreases |cands|
  {
    if |cands| == 0 then chosen
    else
      var c := cands[0];
      if SimilarToChosen(kw(c), chosen, kw) then
        var r := Pick(cands[1..], topN, kw, chosen);
        assert Subsequence(r[|chosen|..], cands);
        assert |r| < topN ==> Covered(c, r, kw) by {
          if |r| < topN {
            CoveredGrows(c, chosen, r, kw);
          }
        }
        r
      else
        var next := chosen + [c];
        assert Spread(next, kw);
        if |next| >= topN then
          assert next[|chosen|..] == [c];
          next
        else
          var r := Pick(cands[1..], topN, kw, next);
          assert r[..|chosen|] == next[..|chosen|];
          assert r[|chosen|] == c by {
            assert r[..|next|][|chosen|] == r[|chosen|];
          }
          assert r[|chosen|..] == [c] + r[|next|..] by {
            var u := r[|chosen|..];
            assert u[0] == c && u[1..] == r[|next|..];
          }
          assert |r| < topN ==> Covered(c, r, kw) by {
            if |r| < topN {
              assert r[|chosen|] == c;
            }
          }
          r
  }

  /** The keywords of a candidate's title. */
  function TitleKw(stopwords: set<string>): (kw: Candidate -> set<string>)
    ensures forall c :: kw(c) == TitleKeywords(c.title, stopwords)
  {
    (c: Candidate) => TitleKeywords(c.title, stopwords)
  }

  /** `_diversify_candidates`: a list no longer than `topN` is kept as it
      is; otherwise the greedy pass keeps an order-preserving selection
      that starts with the first candidate, holds at most `topN` of them
      (one when `topN` is not positive), never takes a candidate on the
      topic of an earlier one, and, when it ends short of `topN`, passes
      over only candidates on the topic of one it took. */
  function Diversify(cands: seq<Candidate>, topN: int, stopwords: set<string>): (r: seq<Candidate>)
    ensures |cands| <= topN ==> r == cands
    ensures Subsequence(r, cands)
    ensures |cands| > 0 ==> |r| > 0 && r[0] == cands[0]
    ensures |cands| > topN ==> |r| <= Max(topN, 1)
    ensures |cands| > topN ==> Spread(r, TitleKw(stopwords))
    ensures |cands| > topN && |r| < topN ==> forall x :: x in cands ==> Covered(x, r, TitleKw(stopwords))
  {
    if |cands| <= topN then
      PrefixSubsequence(cands, cands);
      cands
    else
      var r := Pick(cands, topN, TitleKw(stopwords), []);
      assert r[0..] == r;
      r
  }

  /** A list with no two candidates on one topic loses nothing but its
      tail: the first `topN` are kept. */
  lemma {:induction false} PickSpread(cands: seq<Candidate>, topN: int, kw: Candidate -> set<string>,
                                      chosen: seq<Candidate>)
    requires |chosen| < topN <= |chosen| + |cands|
    requires Spread(chosen, kw) && Spread(chosen + cands, kw)
    ensures Pick(cands, topN, kw, chosen) == (chosen + cands)[..topN]
    decreases |cands|
  {
    var all := chosen + cands;
    var c := cands[0];
    assert all[|chosen|] == c;
    assert !SimilarToChosen(kw(c), chosen, kw) by {
      forall j | 0 <= j < |chosen|
        ensures !Similar(kw(c), kw(chosen[j]))
      {
        assert all[j] == chosen[j];
      }
    }
    var next := chosen + [c];
    assert Spread(next, kw) by {
      forall i, j | 0 <= i < j < |next|
        ensures !Similar(kw(next[j]), kw(next[i]))
      {
        assert all[i] == next[i] && all[j] == next[j];
      }
    }
    if |next| >= topN {
      assert next == all[..topN];
    } else {
      assert next + cands[1..] == all;
      PickSpread(cands[1..], topN, kw, next);
    }
  }

  /** Candidates on pairwise different topics pass through up to `topN`. */
  lemma DiversifySpread(cands: seq<Candidate>, topN: int, stopwords: set<string>)
    requires Spread(cands, TitleKw(stopwords))
    requires 1 <= topN
    ensures Diversify(cands, topN, stopwords) == cands[..Min(topN, |cands|)]
  {
    if |cands| > topN {
      assert [] + cands == cands;
      assert Spread([], TitleKw(stopwords));
      PickSpread(cands, topN, TitleKw(stopwords), []);
    }
  }

  /** With `topN` zero or less, a non-empty list still yields its first
      candidate. */
  lemma DiversifyNonPositive(cands: seq<Candidate>, topN: int, stopwords: set<string>)
    requires |cands| > 0 && topN <= 0
    ensures Diversify(cands, topN, stopwords) == [cands[0]]
  {
  }

  // --------------------------------------------------------------- Phase A

  /** An article as the news scraper ranks it; `None` stands for a key the
      article does not carry. */
  datatype Article = Article(title: string, description: Option<string>, source: string,
                             url: Option<string>, score: int, keywords: seq<string>,
                             category: Option<string>)

  /** The five source names with a trend source of their own. */
  const MappedSources: seq<TrendSource> := [YahooFinance, Wsj, TechCrunch, Bloomberg, MarketWatch]

  /** `SOURCE_MAP.get(name, TrendSource.MANUAL)`. */
  function SourceMap(name: string): (r: TrendSource)
    ensures r != XTwitter
    ensures r != Manual ==> r in MappedSources && SourceValue(r) == name
    ensures forall s :: s in MappedSources && SourceValue(s) == name ==> r == s
  {
    if name == "Yahoo Finance" then YahooFinance
    else if name == "WSJ" then Wsj
    else if name == "TechCrunch" then TechCrunch
    else if name == "Bloomberg" then Bloomberg
    else if name == "MarketWatch" then MarketWatch
    else Manual
  }

  /** Some stored trend has this title. */
  predicate HasTitle(table: seq<Trend>, title: string) {
    exists i :: 0 <= i < |table| && table[i].title == title
  }

  /** The largest id in the table, 0 for an empty one. */
  function MaxTrendId(table: seq<Trend>): (m: int)
    ensures forall i :: 0 <= i < |table| ==> table[i].id <= m
    ensures |table| == 0 ==> m == 0
  {
    if |table| == 0 then 0 else Max(table[|table| - 1].id, MaxTrendId(table[..|table| - 1]))
  }

  /** The trend row saved for a new article: the description cut to 500
      characters, the url or "", the mapped source, and the column
      defaults for everything else. */
  function NewTrend(a: Article, id: int, now: int): Trend {
    Trend(id, a.title, Some(PyTake(a.description.GetOr(""), 500)), Some(a.url.GetOr("")), None, Null,
          1, None, SourceMap(a.source), now)
  }

  /** Row `i` is a trend saved from one of the articles, with a title no
      earlier row has and an id above every earlier one. */
  predicate SavedRow(r: seq<Trend>, i: int, articles: seq<Article>, now: int)
    requires 0 <= i < |r|
  {
    && !HasTitle(r[..i], r[i].title)
    && r[i].id > MaxTrendId(r[..i])
    && exists k :: 0 <= k < |articles| && r[i] == NewTrend(articles[k], r[i].id, now)
  }

  /** The first article saved, when its title is new. */
  function SaveOne(table: seq<Trend>, a: Article, now: int): (r: seq<Trend>)
    ensures HasTitle(table, a.title) ==> r == table
    ensures !HasTitle(table, a.title) ==> r == table + [NewTrend(a, MaxTrendId(table) + 1, now)]
    ensures HasTitle(r, a.title)
  {
    if HasTitle(table, a.title) then table
    else
      var r := table + [NewTrend(a, MaxTrendId(table) + 1, now)];
      assert r[|table|].title == a.title;
      r
  }

  /** Step 2 of `fetch_and_rank`: each article whose title is not stored
      yet, counting the ones just saved, is appended as a trend; its id is
      the one SQLite gives an integer primary key, one more than the
      largest. */
  function SaveNewTrends(table: seq<Trend>, articles: seq<Article>, now: int): (r: seq<Trend>)
    ensures |table| <= |r| <= |table| + |articles| && r[..|table|] == table
    ensures forall k :: 0 <= k < |articles| ==> HasTitle(r, articles[k].title)
    ensures forall i :: |table| <= i < |r| ==> SavedRow(r, i, articles, now)
    decreases |articles|
  {
    if |articles| == 0 then table
    else
      var next := SaveOne(table, articles[0], now);
      var r := SaveNewTrends(next, articles[1..], now);
      SaveTitlesStep(table, articles, next, r);
      SaveRowsStep(table, articles, now, next, r);
      r
  }

  lemma SaveTitlesStep(table: seq<Trend>, articles: seq<Article>, next: seq<Trend>, r: seq<Trend>)
    requires |articles| > 0 && HasTitle(next, articles[0].title)
    requires |table| <= |next| <= |table| + 1 && next[..|table|] == table
    requires |next| <= |r| && r[..|next|] == next
    requires forall k :: 0 <= k < |articles[1..]| ==> HasTitle(r, articles[1..][k].title)
    ensures r[..|table|] == table
    ensures forall k :: 0 <= k < |articles| ==> HasTitle(r, articles[k].title)
  {
    assert r[..|table|] == r[..|next|][..|table|];
    assert HasTitle(r, articles[0].title) by {
      var i :| 0 <= i < |next| && next[i].title == articles[0].title;
      assert r[i] == next[i];
    }
    forall k | 1 <= k < |articles|
      ensures HasTitle(r, articles[k].title)
    {
      assert articles[1..][k - 1] == articles[k];
    }
  }

  lemma SaveRowsStep(table: seq<Trend>, articles: seq<Article>, now: int, next: seq<Trend>, r: seq<Trend>)
    requires |articles| > 0 && next == SaveOne(table, articles[0], now)
    requires |next| <= |r| && r[..|next|] == next
    requires forall i :: |next| <= i < |r| ==> SavedRow(r, i, articles[1..], now)
    ensures forall i :: |table| <= i < |r| ==> SavedRow(r, i, articles, now)
  {
    forall i | |table| <= i < |r|
      ensures SavedRow(r, i, articles, now)
    {
      if i < |next| {
        assert i == |table| && r[..i] == table && r[i] == next[i];
        assert r[i] == NewTrend(articles[0], r[i].id, now);
      } else {
        assert SavedRow(r, i, articles[1..], now);
        var k :| 0 <= k < |articles[1..]| && r[i] == NewTrend(articles[1..][k], r[i].id, now);
        assert articles[1..][k] == articles[k + 1];
      }
    }
  }

  /** No two trends share a title. */
  predicate UniqueTitles(table: seq<Trend>) {
    forall i, j :: 0 <= i < j < |table| ==> table[i].title != table[j].title
  }

  /** Saving keeps titles unique, and every saved id is fresh. */
  lemma SaveKeepsTitlesUnique(table: seq<Trend>, articles: seq<Article>, now: int)
    requires UniqueTitles(table)
    ensures UniqueTitles(SaveNewTrends(table, articles, now))
    ensures forall i, j :: 0 <= i < |table| <= j < |SaveNewTrends(table, articles, now)| ==>
      table[i].id != SaveNewTrends(table, articles, now)[j].id
  {
    var r := SaveNewTrends(table, articles, now);
    forall i, j | 0 <= i < j < |r|
      ensures r[i].title != r[j].title
    {
      if j >= |table| {
        assert SavedRow(r, j, articles, now);
        assert r[..j][i] == r[i];
      } else {
        assert r[i] == table[i] && r[j] == table[j];
      }
    }
    forall i, j | 0 <= i < |table| <= j < |r|
      ensures table[i].id != r[j].id
    {
      assert SavedRow(r, j, articles, now);
      assert r[..j][i] == table[i];
    }
  }

  /** The titles already used as a tweet's `trend_topic`. */
  function QueuedTitles(tweets: seq<Tweet>): (r: set<string>)
    ensures forall x :: x in r <==> exists i :: 0 <= i < |tweets| && tweets[i].trendTopic == Some(x)
  {
    set i | 0 <= i < |tweets| && tweets[i].trendTopic.Some? :: tweets[i].trendTopic.value
  }

  /** The candidate built from an article and its stored trend. */
  function CandidateFrom(a: Article, t: Trend): Candidate {
    Candidate(t.id, t.title, t.description.GetOr(""), t.summary.GetOr(""), a.source, t.articleUrl.GetOr(""),
              a.score, a.keywords, a.category.GetOr("Unknown"))
  }

  /** The article can become a candidate: its title is not queued and is
      stored. */
  predicate Eligible(a: Article, table: seq<Trend>, queued: set<string>) {
    a.title !in queued && HasTitle(table, a.title)
  }

  /** The candidate was built from one of the articles and a stored trend
      with the article's title. */
  predicate FromArticle(c: Candidate, articles: seq<Article>, table: seq<Trend>) {
    exists k, t :: 0 <= k < |articles| && 0 <= t < |table| &&
      table[t].title == articles[k].title && c == CandidateFrom(articles[k], table[t])
  }

  lemma FromArticleTail(rest: seq<Candidate>, articles: seq<Article>, table: seq<Trend>)
    requires |articles| > 0
    requires forall i :: 0 <= i < |rest| ==> FromArticle(rest[i], articles[1..], table)
    ensures forall i :: 0 <= i < |rest| ==> FromArticle(rest[i], articles, table)
  {
    forall i | 0 <= i < |rest|
      ensures FromArticle(rest[i], articles, table)
    {
      var k, t :| 0 <= k < |articles[1..]| && 0 <= t < |table| &&
        articles[1..][k].title == table[t].title && rest[i] == CandidateFrom(articles[1..][k], table[t]);
      assert articles[1..][k] == articles[k + 1];
    }
  }

  /** Step 3 of `fetch_and_rank`: in article order, the articles whose
      title is not queued, each enriched from the first stored trend with
      its title. */
  function RankCandidates(articles: seq<Article>, table: seq<Trend>, queued: set<string>): (r: seq<Candidate>)
    ensures |r| == CountIf(articles, (a: Article) => Eligible(a, table, queued))
    ensures forall i :: 0 <= i < |r| ==> r[i].title !in queued && HasTitle(table, r[i].title)
    ensures forall i :: 0 <= i < |r| ==> FromArticle(r[i], articles, table)
    decreases |articles|
  {
    if |articles| == 0 then []
    else
      var a := articles[0];
      var rest := RankCandidates(articles[1..], table, queued);
      var found := FindIndex(table, (t: Trend) => t.title == a.title);
      RankStep(articles, table, queued, rest, found);
      if a.title in queued || found.None? then rest
      else [CandidateFrom(a, table[found.value])] + rest
  }

  /** One article in front of the candidates of the rest: it adds a
      candidate exactly when it is eligible. */
  lemma RankStep(articles: seq<Article>, table: seq<Trend>, queued: set<string>, rest: seq<Candidate>, found: Option<nat>)
    requires |articles| > 0
    requires |rest| == CountIf(articles[1..], (a: Article) => Eligible(a, table, queued))
    requires forall i :: 0 <= i < |rest| ==> rest[i].title !in queued && HasTitle(table, rest[i].title)
    requires forall i :: 0 <= i < |rest| ==> FromArticle(rest[i], articles[1..], table)
    requires found.Some? ==> found.value < |table| && table[found.value].title == articles[0].title
    requires found.None? ==> forall i :: 0 <= i < |table| ==> table[i].title != articles[0].title
    ensures var r := if articles[0].title in queued || found.None? then rest
                     else [CandidateFrom(articles[0], table[found.value])] + rest;
      && |r| == CountIf(articles, (a: Article) => Eligible(a, table, queued))
      && (forall i :: 0 <= i < |r| ==> r[i].title !in queued && HasTitle(table, r[i].title))
      && (forall i :: 0 <= i < |r| ==> FromArticle(r[i], articles, table))
  {
    FromArticleTail(rest, articles, table);
    CountEligibleHead(articles, table, queued, found);
    if !(articles[0].title in queued || found.None?) {
      RankKept(articles, table, queued, rest, found.value);
    }
  }

  /** The first article counts exactly when it is not queued and a stored
      trend has its title. */
  lemma CountEligibleHead(articles: seq<Article>, table: seq<Trend>, queued: set<string>, found: Option<nat>)
    requires |articles| > 0
    requires found.Some? ==> found.value < |table| && table[found.value].title == articles[0].title
    requires found.None? ==> forall i :: 0 <= i < |table| ==> table[i].title != articles[0].title
    ensures CountIf(articles, (a: Article) => Eligible(a, table, queued))
      == (if articles[0].title in queued || found.None? then 0 else 1)
         + CountIf(articles[1..], (a: Article) => Eligible(a, table, queued))
  {
  }

  /** An eligible first article puts its candidate in front. */
  lemma RankKept(articles: seq<Article>, table: seq<Trend>, queued: set<string>, rest: seq<Candidate>, t: nat)
    requires |articles| > 0 && t < |table| && table[t].title == articles[0].title && articles[0].title !in queued
    requires forall i :: 0 <= i < |rest| ==> rest[i].title !in queued && HasTitle(table, rest[i].title)
    requires forall i :: 0 <= i < |rest| ==> FromArticle(rest[i], articles, table)
    ensures var r := [CandidateFrom(articles[0], table[t])] + rest;
      && (forall i :: 0 <= i < |r| ==> r[i].title !in queued && HasTitle(table, r[i].title))
      && (forall i :: 0 <= i < |r| ==> FromArticle(r[i], articles, table))
  {
    var c := CandidateFrom(articles[0], table[t]);
    assert HasTitle(table, c.title) by {
      assert table[t].title == c.title;
    }
    assert FromArticle(c, articles, table) by {
      assert table[t].title == articles[0].title && c == CandidateFrom(articles[0], table[t]);
    }
    var r := [c] + rest;
    assert forall i :: 1 <= i < |r| ==> r[i] == rest[i - 1];
  }

  /** Steps 2 and 3 of `fetch_and_rank` followed by the diversity filter:
      the trend table after saving and the candidates. */
  function FetchAndRank(table: seq<Trend>, tweets: seq<Tweet>, articles: seq<Article>, topN: int,
                        now: int, stopwords: set<string>): (r: (seq<Trend>, seq<Candidate>))
    ensures r.0 == SaveNewTrends(table, articles, now)
    ensures forall i :: 0 <= i < |r.1| ==> r.1[i].title !in QueuedTitles(tweets) && HasTitle(r.0, r.1[i].title)
    ensures forall i :: 0 <= i < |r.1| ==> forall j :: 0 <= j < |tweets| ==> tweets[j].trendTopic != Some(r.1[i].title)
    ensures var n := CountIf(articles, (a: Article) => a.title !in QueuedTitles(tweets));
      (n <= topN ==> |r.1| == n) && (n > topN ==> |r.1| <= Max(topN, 1)) && (n > 0 ==> |r.1| > 0)
  {
    var saved := SaveNewTrends(table, articles, now);
    var all := RankCandidates(articles, saved, QueuedTitles(tweets));
    var r := Diversify(all, topN, stopwords);
    RankedFacts(saved, tweets, articles, all, r, topN);
    (saved, r)
  }

  /** The diversified candidates of the saved table: not queued, stored,
      and as many as the articles not queued, up to the cap. */
  lemma RankedFacts(saved: seq<Trend>, tweets: seq<Tweet>, articles: seq<Article>, all: seq<Candidate>,
                    r: seq<Candidate>, topN: int)
    requires forall k :: 0 <= k < |articles| ==> HasTitle(saved, articles[k].title)
    requires |all| == CountIf(articles, (a: Article) => Eligible(a, saved, QueuedTitles(tweets)))
    requires forall i :: 0 <= i < |all| ==> all[i].title !in QueuedTitles(tweets) && HasTitle(saved, all[i].title)
    requires |all| <= topN ==> r == all
    requires Subsequence(r, all)
    requires |all| > 0 ==> |r| > 0
    requires |all| > topN ==> |r| <= Max(topN, 1)
    ensures forall i :: 0 <= i < |r| ==> r[i].title !in QueuedTitles(tweets) && HasTitle(saved, r[i].title)
    ensures forall i :: 0 <= i < |r| ==> forall j :: 0 <= j < |tweets| ==> tweets[j].trendTopic != Some(r[i].title)
    ensures var n := CountIf(articles, (a: Article) => a.title !in QueuedTitles(tweets));
      (n <= topN ==> |r| == n) && (n > topN ==> |r| <= Max(topN, 1)) && (n > 0 ==> |r| > 0)
  {
    var queued := QueuedTitles(tweets);
    EligibleAfterSave(articles, saved, queued);
    KeptTitles(r, all, saved, queued);
    NotQueuedAnywhere(r, tweets);
  }

  /** What holds of every candidate's title holds of those kept. */
  lemma KeptTitles(r: seq<Candidate>, all: seq<Candidate>, table: seq<Trend>, queued: set<string>)
    requires Subsequence(r, all)
    requires forall i :: 0 <= i < |all| ==> all[i].title !in queued && HasTitle(table, all[i].title)
    ensures forall i :: 0 <= i < |r| ==> r[i].title !in queued && HasTitle(table, r[i].title)
  {
    forall i | 0 <= i < |r|
      ensures r[i].title !in queued && HasTitle(table, r[i].title)
    {
      SubsequenceIn(r, all, r[i]);
    }
  }

  /** A title that is not queued is no tweet's trend topic. */
  lemma NotQueuedAnywhere(r: seq<Candidate>, tweets: seq<Tweet>)
    requires forall i :: 0 <= i < |r| ==> r[i].title !in QueuedTitles(tweets)
    ensures forall i :: 0 <= i < |r| ==> forall j :: 0 <= j < |tweets| ==> tweets[j].trendTopic != Some(r[i].title)
  {
  }

  /** Once every article's title is stored, being eligible is just not
      being queued. */
  lemma {:induction false} EligibleAfterSave(articles: seq<Article>, table: seq<Trend>, queued: set<string>)
    requires forall k :: 0 <= k < |articles| ==> HasTitle(table, articles[k].title)
    ensures CountIf(articles, (a: Article) => Eligible(a, table, queued))
         == CountIf(articles, (a: Article) => a.title !in queued)
    decreases |articles|
  {
    if |articles| > 0 {
      assert HasTitle(table, articles[0].title);
      EligibleAfterSave(articles[1..], table, queued);
    }
  }

  // --------------------------------------------------------------- Phase B

  /** What `generate_post` did for one source text: its variants, or the
      message of the exception it raised. */
  datatype Generation = Generated(variants: seq<ContentGen.Variant>) | GenerationRaised(message: string)

  /** One entry of `generate_for_confirmed`'s result. */
  datatype PipelineResult = PipelineResult(trendId: int, trendTitle: string, variants: seq<ContentGen.Variant>,
                                           tweetId: Option<int>, batchId: string)

  /** Python's `a or b` on optional text. */
  function OrText(a: Option<string>, b: string): string {
    if a.Some? && a.value != "" then a.value else b
  }

  /** The source text a trend is written from: the title, a blank line,
      and the description, else the summary, else nothing. */
  function SourceText(t: Trend): (r: string)
    ensures StartsWith(r, t.title + "\n\n")
    ensures t.description.Some? && t.description.value != "" ==> r == t.title + "\n\n" + t.description.value
  {
    t.title + "\n\n" + OrText(t.description, OrText(t.summary, ""))
  }

  /** The tweet's `source_url`: the trend's article url, or a
      pipeline-specific stand-in. */
  function SourceUrl(t: Trend): (r: string)
    ensures t.articleUrl.Some? && t.articleUrl.value != "" ==> r == t.articleUrl.value
    ensures !(t.articleUrl.Some? && t.articleUrl.value != "") ==> StartsWith(r, "pipeline_")
  {
    OrText(t.articleUrl, "pipeline_" + IntToString(t.id))
  }

  /** The single variant standing for a failed generation. Its dict has no
      quality or source hash; here they are zero and empty. */
  function ErrorVariants(angle: string, e: string): (r: seq<ContentGen.Variant>)
    ensures |r| == 1 && !r[0].isValidHebrew && r[0].charCount == 0
    ensures r[0].angle == angle && r[0].caption == angle && StartsWith(r[0].content, "Error: ")
  {
    [ContentGen.Variant(angle, angle, "Error: " + e, 0, false, Hebrew.Quality(0, 0, 0, 0), "")]
  }

  /** The variants for a source text, the error variant standing in for an
      exception. */
  function VariantsFor(text: string, numVariants: int, angle: string,
                      generate: (string, int, seq<string>) -> Generation): (r: seq<ContentGen.Variant>)
    ensures generate(text, numVariants, [angle]).Generated? ==> r == generate(text, numVariants, [angle]).variants
    ensures generate(text, numVariants, [angle]).GenerationRaised? ==>
      r == ErrorVariants(angle, generate(text, numVariants, [angle]).message)
  {
    match generate(text, numVariants, [angle])
    case Generated(vs) => vs
    case GenerationRaised(e) => ErrorVariants(angle, e)
  }

  /** The first variant exists and is valid Hebrew. */
  predicate Queueable(vs: seq<ContentGen.Variant>) {
    |vs| > 0 && vs[0].isValidHebrew
  }

  /** The generation metadata stored with a pipeline tweet. */
  function Metadata(best: ContentGen.Variant, sourceHash: string): Json {
    Obj([("angle", Str(best.angle)), ("label", Str(best.caption)), ("source_hash", Str(sourceHash)),
         ("pipeline", Bool(true))])
  }

  /** The largest tweet id, 0 for an empty table. */
  function MaxTweetId(tweets: seq<Tweet>): (m: int)
    ensures forall i :: 0 <= i < |tweets| ==> tweets[i].id <= m
  {
    if |tweets| == 0 then 0 else Max(tweets[|tweets| - 1].id, MaxTweetId(tweets[..|tweets| - 1]))
  }

  /** Some tweet has this source url. */
  predicate HasUrl(tweets: seq<Tweet>, url: string) {
    exists i :: 0 <= i < |tweets| && tweets[i].sourceUrl == url
  }

  /** Some tweet has this id. */
  predicate HasTweetId(tweets: seq<Tweet>, id: int) {
    exists i :: 0 <= i < |tweets| && tweets[i].id == id
  }

  /** The tweet queued for a trend. */
  function PipelineTweet(id: int, trend: Trend, text: string, best: ContentGen.Variant, batchId: string,
                         sourceHash: string, now: int): Tweet {
    Tweet(id, SourceUrl(trend), text, Some(best.content), None, None, "generation", Some(trend.title),
          Processed, None, None, now, now, Some(Metadata(best, sourceHash)), Some(batchId))
  }

  /** Row `i` was added by batch `batchId`: a PROCESSED generation of the
      batch, with a source url no earlier row has and an id above every
      earlier one. */
  predicate AddedRow(ts: seq<Tweet>, i: int, batchId: string)
    requires 0 <= i < |ts|
  {
    && !HasUrl(ts[..i], ts[i].sourceUrl)
    && ts[i].id > MaxTweetId(ts[..i])
    && ts[i].status == Processed && ts[i].contentType == "generation"
    && ts[i].pipelineBatchId == Some(batchId)
  }

  /** `after` is `before` with rows of batch `batchId` appended. */
  predicate Grows(before: seq<Tweet>, after: seq<Tweet>, batchId: string) {
    && |before| <= |after| && after[..|before|] == before
    && forall i :: |before| <= i < |after| ==> AddedRow(after, i, batchId)
  }

  lemma GrowsTrans(a: seq<Tweet>, b: seq<Tweet>, c: seq<Tweet>, batchId: string)
    requires Grows(a, b, batchId) && Grows(b, c, batchId)
    ensures Grows(a, c, batchId)
  {
    assert c[..|a|] == c[..|b|][..|a|];
    forall i | |a| <= i < |c|
      ensures AddedRow(c, i, batchId)
    {
      if i < |b| {
        assert AddedRow(b, i, batchId);
        assert c[..i] == b[..i] && c[i] == b[i];
      }
    }
  }

  /** Storing the tweet for a trend's first variant: when a tweet with its
      source url exists nothing changes and that tweet's id is answered;
      otherwise the new tweet is appended with the next id. */
  function QueueTweet(tweets: seq<Tweet>, trend: Trend, text: string, best: ContentGen.Variant, batchId: string,
                      sourceHash: string, now: int): (r: (seq<Tweet>, int))
    ensures HasUrl(tweets, SourceUrl(trend)) ==> r.0 == tweets
    ensures !HasUrl(tweets, SourceUrl(trend)) ==>
      r.0 == tweets + [PipelineTweet(MaxTweetId(tweets) + 1, trend, text, best, batchId, sourceHash, now)]
    ensures exists i :: 0 <= i < |r.0| && r.0[i].id == r.1 && r.0[i].sourceUrl == SourceUrl(trend)
    ensures Grows(tweets, r.0, batchId)
  {
    var url := SourceUrl(trend);
    match FindIndex(tweets, (w: Tweet) => w.sourceUrl == url)
    case Some(j) =>
      assert tweets[..|tweets|] == tweets;
      (tweets, tweets[j].id)
    case None =>
      var w := PipelineTweet(MaxTweetId(tweets) + 1, trend, text, best, batchId, sourceHash, now);
      var next := tweets + [w];
      assert next[..|tweets|] == tweets && next[|tweets|] == w;
      assert AddedRow(next, |tweets|, batchId);
      (next, w.id)
  }

  /** Each result belongs to batch `batchId` and reports a tweet of `ts`
      exactly when its first variant is valid Hebrew. */
  predicate Reports(rs: seq<PipelineResult>, ts: seq<Tweet>, batchId: string) {
    forall k :: 0 <= k < |rs| ==>
      && rs[k].batchId == batchId
      && (rs[k].tweetId.Some? <==> Queueable(rs[k].variants))
      && (rs[k].tweetId.Some? ==> HasTweetId(ts, rs[k].tweetId.value))
  }

  /** The trend a found id names. */
  function TrendOf(trends: seq<Trend>, id: int): Trend
    requires SummaryGenerator.FindTrend(trends, id).Some?
  {
    trends[SummaryGenerator.FindTrend(trends, id).value]
  }

  /** One trend id of `generate_for_confirmed`: a missing trend gives no
      result and changes nothing. Otherwise the result carries the trend,
      its variants and the batch, and reports a tweet exactly when the
      first variant is valid Hebrew, that tweet being stored as
      `QueueTweet` does. */
  function ConfirmOne(trends: seq<Trend>, tweets: seq<Tweet>, id: int, angle: string, numVariants: int,
                      generate: (string, int, seq<string>) -> Generation, batchId: string,
                      hashOf: string -> string, now: int): (r: (seq<Tweet>, Option<PipelineResult>))
    ensures SummaryGenerator.FindTrend(trends, id).None? ==> r == (tweets, None)
    ensures SummaryGenerator.FindTrend(trends, id).Some? ==>
      var trend := TrendOf(trends, id);
      var vs := VariantsFor(SourceText(trend), numVariants, angle, generate);
      && r.1.Some?
      && r.1.value.trendId == id && r.1.value.trendTitle == trend.title
      && r.1.value.variants == vs && r.1.value.batchId == batchId
      && (!Queueable(vs) ==> r.0 == tweets && r.1.value.tweetId.None?)
      && (Queueable(vs) ==>
            && r.1.value.tweetId.Some?
            && (r.0, r.1.value.tweetId.value)
               == QueueTweet(tweets, trend, SourceText(trend), vs[0], batchId, hashOf(SourceText(trend)), now))
    ensures Grows(tweets, r.0, batchId)
    ensures r.1.Some? ==> Reports([r.1.value], r.0, batchId)
  {
    match SummaryGenerator.FindTrend(trends, id)
    case None =>
      assert tweets[..|tweets|] == tweets;
      (tweets, None)
    case Some(t) =>
      var trend := trends[t];
      var text := SourceText(trend);
      var vs := VariantsFor(text, numVariants, angle, generate);
      if !Queueable(vs) then
        assert tweets[..|tweets|] == tweets;
        (tweets, Some(PipelineResult(id, trend.title, vs, None, batchId)))
      else
        var q := QueueTweet(tweets, trend, text, vs[0], batchId, hashOf(text), now);
        (q.0, Some(PipelineResult(id, trend.title, vs, Some(q.1), batchId)))
  }

  /** The trend found for a result's id. */
  predicate HasTrend(trends: seq<Trend>, id: int) {
    SummaryGenerator.FindTrend(trends, id).Some?
  }

  /** The trend ids of the results, in order. */
  function ResultIds(rs: seq<PipelineResult>): (r: seq<int>)
    ensures |r| == |rs|
    ensures forall i :: 0 <= i < |rs| ==> r[i] == rs[i].trendId
  {
    if |rs| == 0 then [] else [rs[0].trendId] + ResultIds(rs[1..])
  }

  lemma ReportsStep(first: Option<PipelineResult>, rest: seq<PipelineResult>, mid: seq<Tweet>,
                    last: seq<Tweet>, batchId: string)
    requires first.Some? ==> Reports([first.value], mid, batchId)
    requires Reports(rest, last, batchId)
    requires |mid| <= |last| && last[..|mid|] == mid
    ensures Reports(if first.Some? then [first.value] + rest else rest, last, batchId)
  {
    if first.Some? {
      var rs := [first.value] + rest;
      forall k | 0 <= k < |rs|
        ensures rs[k].batchId == batchId && (rs[k].tweetId.Some? <==> Queueable(rs[k].variants))
        ensures rs[k].tweetId.Some? ==> HasTweetId(last, rs[k].tweetId.value)
      {
        if k == 0 {
          if first.value.tweetId.Some? {
            assert [first.value][0] == first.value;
            assert HasTweetId(mid, first.value.tweetId.value);
            var i :| 0 <= i < |mid| && mid[i].id == first.value.tweetId.value;
            assert last[i] == mid[i];
          }
        } else {
          assert rs[k] == rest[k - 1];
        }
      }
    }
  }

  /** `generate_for_confirmed`: one result per trend id that exists, in
      order, all of one batch, each reporting a stored tweet exactly when
      its first variant is valid Hebrew; the tweet table only grows, by
      PROCESSED generations of the batch whose source urls are new. */
  function GenerateForConfirmed(trends: seq<Trend>, tweets: seq<Tweet>, trendIds: seq<int>, angle: string,
                                numVariants: int, generate: (string, int, seq<string>) -> Generation,
                                batchId: string, hashOf: string -> string, now: int)
    : (r: (seq<Tweet>, seq<PipelineResult>))
    ensures ResultIds(r.1) == Filter(trendIds, (id: int) => HasTrend(trends, id))
    ensures Reports(r.1, r.0, batchId)
    ensures Grows(tweets, r.0, batchId)
    decreases |trendIds|
  {
    if |trendIds| == 0 then
      assert tweets[..|tweets|] == tweets;
      (tweets, [])
    else
      var one := ConfirmOne(trends, tweets, trendIds[0], angle, numVariants, generate, batchId, hashOf, now);
      var rest := GenerateForConfirmed(trends, one.0, trendIds[1..], angle, numVariants, generate, batchId, hashOf, now);
      var results := if one.1.Some? then [one.1.value] + rest.1 else rest.1;
      GrowsTrans(tweets, one.0, rest.0, batchId);
      ReportsStep(one.1, rest.1, one.0, rest.0, batchId);
      assert one.1.Some? ==> results[1..] == rest.1;
      (rest.0, results)
  }

  /** The first variant generated for a found trend is valid Hebrew. */
  predicate Wanted(trends: seq<Trend>, id: int, angle: string, numVariants: int,
                   generate: (string, int, seq<string>) -> Generation)
  {
    HasTrend(trends, id) && Queueable(VariantsFor(SourceText(TrendOf(trends, id)), numVariants, angle, generate))
  }

  /** After a run, every trend whose first variant was valid has a tweet
      with its source url. */
  lemma {:induction false} GenerateQueuesWanted(trends: seq<Trend>, tweets: seq<Tweet>, trendIds: seq<int>, angle: string,
                                                numVariants: int, generate: (string, int, seq<string>) -> Generation,
                                                batchId: string, hashOf: string -> string, now: int)
    ensures forall k :: 0 <= k < |trendIds| && Wanted(trends, trendIds[k], angle, numVariants, generate) ==>
      HasUrl(GenerateForConfirmed(trends, tweets, trendIds, angle, numVariants, generate, batchId, hashOf, now).0,
             SourceUrl(TrendOf(trends, trendIds[k])))
    decreases |trendIds|
  {
    if |trendIds| > 0 {
      var one := ConfirmOne(trends, tweets, trendIds[0], angle, numVariants, generate, batchId, hashOf, now);
      var r := GenerateForConfirmed(trends, tweets, trendIds, angle, numVariants, generate, batchId, hashOf, now);
      GenerateQueuesWanted(trends, one.0, trendIds[1..], angle, numVariants, generate, batchId, hashOf, now);
      forall k | 0 <= k < |trendIds| && Wanted(trends, trendIds[k], angle, numVariants, generate)
        ensures HasUrl(r.0, SourceUrl(TrendOf(trends, trendIds[k])))
      {
        if k == 0 {
          var i :| 0 <= i < |one.0| && one.0[i].sourceUrl == SourceUrl(TrendOf(trends, trendIds[0]));
          assert r.0[i] == one.0[i];
        } else {
          assert trendIds[1..][k - 1] == trendIds[k];
        }
      }
    }
  }

  /** A run over a table where every wanted trend already has its tweet
      inserts nothing. */
  lemma {:induction false} RerunAddsNoTweets(trends: seq<Trend>, tweets: seq<Tweet>, trendIds: seq<int>, angle: string,
                                             numVariants: int, generate: (string, int, seq<string>) -> Generation,
                                             batchId: string, hashOf: string -> string, now: int)
    requires forall k :: 0 <= k < |trendIds| && Wanted(trends, trendIds[k], angle, numVariants, generate) ==>
      HasUrl(tweets, SourceUrl(TrendOf(trends, trendIds[k])))
    ensures GenerateForConfirmed(trends, tweets, trendIds, angle, numVariants, generate, batchId, hashOf, now).0 == tweets
    decreases |trendIds|
  {
    if |trendIds| > 0 {
      assert forall k :: 0 <= k < |trendIds[1..]| ==> trendIds[1..][k] == trendIds[k + 1];
      RerunAddsNoTweets(trends, tweets, trendIds[1..], angle, numVariants, generate, batchId, hashOf, now);
    }
  }

  /** Confirming the same trends twice with the same generation adds no
      tweet the second time. */
  lemma ConfirmTwiceNoDuplicates(trends: seq<Trend>, tweets: seq<Tweet>, trendIds: seq<int>, angle: string,
                                 numVariants: int, generate: (string, int, seq<string>) -> Generation,
                                 batchId: string, batchId2: string, hashOf: string -> string, now: int, now2: int)
    ensures var first := GenerateForConfirmed(trends, tweets, trendIds, angle, numVariants, generate, batchId, hashOf, now).0;
      GenerateForConfirmed(trends, first, trendIds, angle, numVariants, generate, batchId2, hashOf, now2).0 == first
  {
    var first := GenerateForConfirmed(trends, tweets, trendIds, angle, numVariants, generate, batchId, hashOf, now).0;
    GenerateQueuesWanted(trends, tweets, trendIds, angle, numVariants, generate, batchId, hashOf, now);
    RerunAddsNoTweets(trends, first, trendIds, angle, numVariants, generate, batchId2, hashOf, now2);
  }

  /** A raised generation is reported as the single error variant, and no
      tweet is queued for it. */
  lemma GenerationErrorQueuesNothing(trends: seq<Trend>, tweets: seq<Tweet>, id: int, angle: string,
                                     numVariants: int, generate: (string, int, seq<string>) -> Generation,
                                     batchId: string, hashOf: string -> string, now: int)
    requires HasTrend(trends, id)
    requires generate(SourceText(TrendOf(trends, id)), numVariants, [angle]).GenerationRaised?
    ensures var r := ConfirmOne(trends, tweets, id, angle, numVariants, generate, batchId, hashOf, now);
      && r.0 == tweets && r.1.Some? && r.1.value.tweetId.None?
      && |r.1.value.variants| == 1 && StartsWith(r.1.value.variants[0].content, "Error: ")
      && !r.1.value.variants[0].isValidHebrew
  {
  }

  /** An angle name outside `ANGLES` selects nothing. */
  lemma NoAngleSelected(numVariants: int, angle: string)
    requires forall a :: a in ContentGen.Angles ==> a.name != angle
    ensures ContentGen.SelectAngles(numVariants, Some([angle])) == []
  {
    var sel := ContentGen.SelectAngles(numVariants, Some([angle]));
    if |sel| > 0 {
      SubsequenceIn(sel, ContentGen.Angles, sel[0]);
      assert false;
    }
  }

  lemma EmptySelectionEmptyPost(text: string, numVariants: int, names: seq<string>, replies: seq<Retry.Reply>,
                                alpha: char -> bool, sourceHash: string)
    requires ContentGen.SelectAngles(numVariants, Some(names)) == []
    ensures ContentGen.GeneratePost(text, numVariants, Some(names), replies, alpha, sourceHash) == []
  {
  }

  /** Phase B over `generate_post` itself: an angle name outside `ANGLES`
      yields empty variant lists, so no tweet is ever inserted. */
  lemma UnknownAngleQueuesNothing(trends: seq<Trend>, tweets: seq<Tweet>, trendIds: seq<int>, angle: string,
                                  numVariants: int, replies: seq<Retry.Reply>, alpha: char -> bool,
                                  batchId: string, hashOf: string -> string, now: int)
    requires forall a :: a in ContentGen.Angles ==> a.name != angle
    ensures var generate := (text: string, n: int, names: seq<string>) =>
        Generated(ContentGen.GeneratePost(text, n, Some(names), replies, alpha, hashOf(text)));
      var r := GenerateForConfirmed(trends, tweets, trendIds, angle, numVariants, generate, batchId, hashOf, now);
      r.0 == tweets
  {
    var generate := (text: string, n: int, names: seq<string>) =>
      Generated(ContentGen.GeneratePost(text, n, Some(names), replies, alpha, hashOf(text)));
    NoAngleSelected(numVariants, angle);
    forall text: string
      ensures VariantsFor(text, numVariants, angle, generate) == []
    {
      EmptySelectionEmptyPost(text, numVariants, [angle], replies, alpha, hashOf(text));
    }
    RerunAddsNoTweets(trends, tweets, trendIds, angle, numVariants, generate, batchId, hashOf, now);
  }
}
