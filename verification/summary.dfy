/** `SummaryGenerator`: keyword extraction from trend titles, the keyword
    payload normaliser, source counting and related-trend detection by
    keyword overlap, the per-trend update and the summary backfill. The
    completion call is a parameter answering the outcome of
    `call_with_retry`; `json.loads` is the parameter `decode` and Python's
    `str()` of a JSON list or object is the parameter `repr`. */
module SummaryGenerator {
  import opened Base
  import opened Text
  import opened JsonValue
  import opened Models
  import Retry

  /** `STOPWORDS`. */
  const Stopwords: set<string> := {
    "the", "a", "an", "and", "or", "but", "in", "on", "at", "to", "for",
    "of", "with", "by", "from", "up", "about", "into", "through", "during",
    "is", "are", "was", "were", "be", "been", "being", "have", "has", "had",
    "do", "does", "did", "will", "would", "could", "should", "may", "might",
    "can", "as", "this", "that", "these", "those", "it", "its", "their",
    "his", "her", "our", "your", "my", "all", "some", "any", "no", "not",
    "what", "which", "who", "when", "where", "why", "how"
  }

  // ------------------------------------------------------- keyword extraction

  /** The regex class `\w`: a letter or digit (`alnum`, Python's
      `str.isalnum`) or the underscore. */
  function WordChar(alnum: char -> bool): char -> bool {
    (c: char) => alnum(c) || c == '_'
  }

  /** Order-preserving removal of repeats: each element is kept at its
      first occurrence, exactly as a loop with a `seen` set does. */
  function Dedup(s: seq<string>): (r: seq<string>)
    ensures Distinct(r)
    ensures forall x :: x in r <==> x in s
    ensures |r| <= |s|
    decreases |s|
  {
    if |s| == 0 then []
    else
      var init := s[..|s| - 1];
      var last := s[|s| - 1];
      assert s == init + [last];
      var d := Dedup(init);
      if last in init then d else d + [last]
  }

  /** Index of the first occurrence of `x` in `s`. */
  function FirstIndexOf(s: seq<string>, x: string): (r: nat)
    requires x in s
    ensures r < |s| && s[r] == x
    ensures forall j :: 0 <= j < r ==> s[j] != x
  {
    if s[0] == x then 0 else 1 + FirstIndexOf(s[1..], x)
  }

  lemma {:induction false} FirstIndexInPrefix(s: seq<string>, t: seq<string>, x: string)
    requires x in s
    ensures FirstIndexOf(s + t, x) == FirstIndexOf(s, x)
    decreases |s|
  {
    if s[0] != x {
      assert (s + t)[1..] == s[1..] + t;
      FirstIndexInPrefix(s[1..], t, x);
    }
  }

  /** The kept elements appear in the order of their first occurrences. */
  lemma {:induction false} DedupFirstOccurrenceOrder(s: seq<string>)
    ensures forall i, j :: 0 <= i < j < |Dedup(s)| ==>
      FirstIndexOf(s, Dedup(s)[i]) < FirstIndexOf(s, Dedup(s)[j])
    decreases |s|
  {
    if |s| > 0 {
      var init := s[..|s| - 1];
      DedupFirstOccurrenceOrder(init);
      FirstIndexKept(s, init);
      if s[|s| - 1] in init {
        OrderRepeatedLast(s, init);
      } else {
        FirstIndexLast(s, init);
        OrderNewLast(s, init);
      }
    }
  }

  /** Occurrences before the last element are found in the prefix. */
  lemma FirstIndexKept(s: seq<string>, init: seq<string>)
    requires |s| > 0 && init == s[..|s| - 1]
    ensures forall x :: x in init ==> FirstIndexOf(s, x) == FirstIndexOf(init, x)
  {
    assert s == init + [s[|s| - 1]];
    forall x | x in init
      ensures FirstIndexOf(s, x) == FirstIndexOf(init, x)
    {
      FirstIndexInPrefix(init, [s[|s| - 1]], x);
    }
  }

  /** A last element seen nowhere before first occurs last. */
  lemma FirstIndexLast(s: seq<string>, init: seq<string>)
    requires |s| > 0 && init == s[..|s| - 1] && s[|s| - 1] !in init
    ensures FirstIndexOf(s, s[|s| - 1]) == |s| - 1
  {
  }

  /** A repeated last element adds nothing, so the order is the prefix's. */
  lemma OrderRepeatedLast(s: seq<string>, init: seq<string>)
    requires |s| > 0 && init == s[..|s| - 1] && s[|s| - 1] in init
    requires forall i, j :: 0 <= i < j < |Dedup(init)| ==>
      FirstIndexOf(init, Dedup(init)[i]) < FirstIndexOf(init, Dedup(init)[j])
    requires forall x :: x in init ==> FirstIndexOf(s, x) == FirstIndexOf(init, x)
    ensures forall i, j :: 0 <= i < j < |Dedup(s)| ==> FirstIndexOf(s, Dedup(s)[i]) < FirstIndexOf(s, Dedup(s)[j])
  {
    var d := Dedup(init);
    assert Dedup(s) == d;
    assert forall i :: 0 <= i < |d| ==> d[i] in init;
  }

  /** A new last element goes after everything kept before it. */
  lemma OrderNewLast(s: seq<string>, init: seq<string>)
    requires |s| > 0 && init == s[..|s| - 1] && s[|s| - 1] !in init
    requires forall i, j :: 0 <= i < j < |Dedup(init)| ==>
      FirstIndexOf(init, Dedup(init)[i]) < FirstIndexOf(init, Dedup(init)[j])
    requires forall x :: x in init ==> FirstIndexOf(s, x) == FirstIndexOf(init, x)
    requires FirstIndexOf(s, s[|s| - 1]) == |s| - 1
    ensures forall i, j :: 0 <= i < j < |Dedup(s)| ==> FirstIndexOf(s, Dedup(s)[i]) < FirstIndexOf(s, Dedup(s)[j])
  {
    var d := Dedup(init);
    var r := d + [s[|s| - 1]];
    assert Dedup(s) == r;
    forall i, j | 0 <= i < j < |r|
      ensures FirstIndexOf(s, r[i]) < FirstIndexOf(s, r[j])
    {
      assert r[i] == d[i] && d[i] in init;
      if j < |d| {
        assert r[j] == d[j] && d[j] in init;
      }
    }
  }

  /** A sequence without repeats is its own deduplication. */
  lemma {:induction false} DedupDistinct(s: seq<string>)
    requires Distinct(s)
    ensures Dedup(s) == s
    decreases |s|
  {
    if |s| > 0 {
      var init := s[..|s| - 1];
      assert s == init + [s[|s| - 1]];
      assert Distinct(init);
      DedupDistinct(init);
    }
  }

  predicate IsKeyword(w: string) {
    w !in Stopwords && |w| > 2
  }

  /** `extract_keywords`: the distinct words of the lowered title, longer
      than two characters and not stopwords, in first-occurrence order. */
  function ExtractKeywords(title: string, alnum: char -> bool): (r: seq<string>)
    ensures Distinct(r)
    ensures forall w :: w in r <==> w in Tokens(Lower(title), WordChar(alnum)) && IsKeyword(w)
    ensures |title| == 0 ==> r == []
  {
    Dedup(Filter(Tokens(Lower(title), WordChar(alnum)), IsKeyword))
  }

  /** Every keyword is lower-case, longer than two characters and made of
      word characters. */
  lemma KeywordIsLowerWord(title: string, alnum: char -> bool, w: string)
    requires w in ExtractKeywords(title, alnum)
    ensures Lower(w) == w && |w| > 2
    ensures forall j :: 0 <= j < |w| ==> WordChar(alnum)(w[j])
  {
    var low := Lower(title);
    var toks := Tokens(low, WordChar(alnum));
    TokensChars(low, WordChar(alnum));
    TokensWellFormed(low, WordChar(alnum));
    var k :| 0 <= k < |toks| && toks[k] == w;
    forall j | 0 <= j < |w|
      ensures LowerChar(w[j]) == w[j]
    {
      assert w[j] in low;
      var m :| 0 <= m < |low| && low[m] == w[j];
    }
  }

  // ---------------------------------------------------------- keyword payload

  /** Python truthiness of a decoded JSON value. */
  predicate Falsy(v: Json) {
    v == Null || v == Bool(false) || v == Num(0) || v == Str("") || v == Arr([]) || v == Obj([])
  }

  /** The list a keyword payload holds: a list as is, text decoding to a
      list, and nothing for anything else. */
  function PayloadItems(raw: Json, decode: string -> Option<Json>): seq<Json> {
    if Falsy(raw) then []
    else match raw
      case Arr(xs) => xs
      case Str(s) => (match decode(s) case Some(Arr(xs)) => xs case _ => [])
      case _ => []
  }

  /** Python's `str()` of a decoded value. */
  function PyStr(v: Json, repr: Json -> string): string {
    match v
    case Str(s) => s
    case Num(n) => IntToString(n)
    case Bool(b) => if b then "True" else "False"
    case Null => "None"
    case _ => repr(v)
  }

  function Normalize(v: Json, repr: Json -> string): string {
    Lower(Strip(PyStr(v, repr)))
  }

  /** The non-blank normal forms of the items. */
  function NormalizedSet(items: seq<Json>, norm: Json -> string): (r: set<string>)
    ensures "" !in r
    ensures forall w :: w in r <==> exists v :: v in items && w == norm(v) && w != ""
  {
    set v | v in items && norm(v) != "" :: norm(v)
  }

  /** `_keywords_set`: the stripped, lowered, non-blank texts of the
      payload's items. */
  function KeywordsSet(raw: Json, decode: string -> Option<Json>, repr: Json -> string): (r: set<string>)
    ensures Falsy(raw) ==> r == {}
    ensures "" !in r
    ensures forall w :: w in r <==> exists v :: v in PayloadItems(raw, decode) && w == Normalize(v, repr) && w != ""
  {
    NormalizedSet(PayloadItems(raw, decode), (v: Json) => Normalize(v, repr))
  }

  /** Keywords as `process_trend` stores them: a JSON list of strings. */
  function KeywordsPayload(ws: seq<string>): (r: Json)
    ensures r.Arr? && |r.items| == |ws|
    ensures forall k :: 0 <= k < |ws| ==> r.items[k] == Str(ws[k])
  {
    Arr(seq(|ws|, k requires 0 <= k < |ws| => Str(ws[k])))
  }

  /** A lower-case word with no whitespace at either end normalises to
      itself. */
  lemma NormalizeKeyword(w: string, repr: Json -> string)
    requires |w| > 0 && !IsSpace(w[0]) && !IsSpace(w[|w| - 1]) && Lower(w) == w
    ensures Normalize(Str(w), repr) == w
  {
    assert LStrip(w) == w;
    assert RStrip(w) == w;
  }

  /** Texts that are already normal form the set of themselves. */
  lemma NormalizedTexts(ws: seq<string>, items: seq<Json>, norm: Json -> string)
    requires |items| == |ws| && forall k :: 0 <= k < |ws| ==> items[k] == Str(ws[k])
    requires forall k :: 0 <= k < |ws| ==> ws[k] != "" && norm(Str(ws[k])) == ws[k]
    ensures NormalizedSet(items, norm) == set w | w in ws
  {
    forall w | w in NormalizedSet(items, norm)
      ensures w in ws
    {
      var v :| v in items && w == norm(v);
      var k :| 0 <= k < |ws| && items[k] == v;
    }
    forall w | w in ws
      ensures w in NormalizedSet(items, norm)
    {
      var k :| 0 <= k < |ws| && ws[k] == w;
      assert items[k] == Str(w);
    }
  }

  /** A stored list of texts that are already normal reads back as the
      set of its texts. */
  lemma KeywordsSetOfPayload(ws: seq<string>, decode: string -> Option<Json>, repr: Json -> string)
    requires forall k :: 0 <= k < |ws| ==> ws[k] != "" && Normalize(Str(ws[k]), repr) == ws[k]
    ensures KeywordsSet(KeywordsPayload(ws), decode, repr) == set w | w in ws
  {
    var p := KeywordsPayload(ws);
    if |ws| > 0 {
      assert p.items[0] == Str(ws[0]);
      assert !Falsy(p);
    }
    assert PayloadItems(p, decode) == p.items;
    NormalizedTexts(ws, p.items, (v: Json) => Normalize(v, repr));
  }

  /** Stored keywords read back as exactly the set of extracted keywords,
      given that no letter or digit is whitespace (true of Python's
      `isalnum`). */
  lemma KeywordsRoundTrip(title: string, alnum: char -> bool, decode: string -> Option<Json>, repr: Json -> string)
    requires forall c :: alnum(c) ==> !IsSpace(c)
    ensures var ws := ExtractKeywords(title, alnum);
      KeywordsSet(KeywordsPayload(ws), decode, repr) == set w | w in ws
  {
    var ws := ExtractKeywords(title, alnum);
    forall k | 0 <= k < |ws|
      ensures ws[k] != "" && Normalize(Str(ws[k]), repr) == ws[k]
    {
      var w := ws[k];
      KeywordIsLowerWord(title, alnum, w);
      assert WordChar(alnum)(w[0]) && WordChar(alnum)(w[|w| - 1]);
      NormalizeKeyword(w, repr);
    }
    KeywordsSetOfPayload(ws, decode, repr);
  }

  // -------------------------------------------------------- overlap analysis

  /** A candidate row of `_get_candidate_rows`: id, source, keywords. */
  datatype Candidate = Candidate(id: int, source: TrendSource, keywords: Json)

  const WindowSeconds := 7 * 86400

  function CandidateOf(t: Trend): Candidate { Candidate(t.id, t.source, t.keywords) }

  /** Another trend with keywords, discovered within seven days either
      side of `trend`. */
  predicate InWindow(t: Trend, trend: Trend) {
    && t.id != trend.id && t.keywords != Null
    && trend.discoveredAt - WindowSeconds <= t.discoveredAt <= trend.discoveredAt + WindowSeconds
  }

  /** `_get_candidate_rows`: other trends with keywords, discovered within
      seven days either side of the trend, in table order. */
  function Candidates(table: seq<Trend>, trend: Trend): (r: seq<Candidate>)
    ensures |r| <= |table|
    ensures forall c :: c in r <==> (exists t :: t in table && c == CandidateOf(t) && InWindow(t, trend))
    decreases |table|
  {
    if |table| == 0 then []
    else
      var t := table[0];
      var rest := Candidates(table[1..], trend);
      assert forall u :: u in table <==> u == t || u in table[1..];
      if InWindow(t, trend) then [CandidateOf(t)] + rest
      else rest
  }

  /** The candidate shares at least `n` keywords with `kw`. */
  predicate Overlaps(kw: set<string>, c: Candidate, n: int, decode: string -> Option<Json>, repr: Json -> string) {
    |kw * KeywordsSet(c.keywords, decode, repr)| >= n
  }

  /** The sources of the rows `keep` accepts. */
  function SourcesWhere(rows: seq<Candidate>, keep: Candidate -> bool): (r: set<string>)
    ensures |r| <= |rows|
    ensures forall s :: s in r <==> exists k :: 0 <= k < |rows| && keep(rows[k]) && SourceValue(rows[k].source) == s
    decreases |rows|
  {
    if |rows| == 0 then {}
    else
      var rest := SourcesWhere(rows[1..], keep);
      assert forall k :: 1 <= k < |rows| ==> rows[k] == rows[1..][k - 1];
      if keep(rows[0]) then {SourceValue(rows[0].source)} + rest else rest
  }

  function CandidateIds(rows: seq<Candidate>): seq<int> {
    seq(|rows|, k requires 0 <= k < |rows| => rows[k].id)
  }

  /** The ids of the rows `keep` accepts, in row order. */
  function IdsWhere(rows: seq<Candidate>, keep: Candidate -> bool): (r: seq<int>)
    ensures |r| <= |rows|
    ensures forall x :: x in r <==> exists k :: 0 <= k < |rows| && keep(rows[k]) && rows[k].id == x
    ensures Subsequence(r, CandidateIds(rows))
    decreases |rows|
  {
    if |rows| == 0 then []
    else
      var rest := IdsWhere(rows[1..], keep);
      assert forall k :: 1 <= k < |rows| ==> rows[k] == rows[1..][k - 1];
      assert CandidateIds(rows)[1..] == CandidateIds(rows[1..]);
      if keep(rows[0]) then
        var r := [rows[0].id] + rest;
        assert r[1..] == rest;
        r
      else rest
  }

  /** `calculate_source_count`: the trend's own source plus the sources of
      the candidates, other than the trend itself, telling the same story
      (two shared keywords); 1 when the trend has no keywords. */
  function SourceCount(trend: Trend, rows: seq<Candidate>, decode: string -> Option<Json>,
                       repr: Json -> string): (r: nat)
    ensures KeywordsSet(trend.keywords, decode, repr) == {} ==> r == 1
    ensures 1 <= r <= |rows| + 1
    ensures KeywordsSet(trend.keywords, decode, repr) != {} ==>
      r == |{SourceValue(trend.source)} + SourcesWhere(rows, (c: Candidate) => c.id != trend.id
                                          && Overlaps(KeywordsSet(trend.keywords, decode, repr), c, 2, decode, repr))|
  {
    var kw := KeywordsSet(trend.keywords, decode, repr);
    if kw == {} then 1
    else
      var related := {SourceValue(trend.source)}
        + SourcesWhere(rows, (c: Candidate) => c.id != trend.id && Overlaps(kw, c, 2, decode, repr));
      assert SourceValue(trend.source) in related;
      |related|
  }

  /** `find_related_trends`: the ids of the candidates sharing at least
      `minOverlap` keywords, in row order; nothing for a trend without
      keywords. */
  function FindRelatedTrends(trend: Trend, rows: seq<Candidate>, minOverlap: int,
                             decode: string -> Option<Json>, repr: Json -> string): (r: seq<int>)
    ensures KeywordsSet(trend.keywords, decode, repr) == {} ==> r == []
    ensures |r| <= |rows|
    ensures Subsequence(r, CandidateIds(rows))
    ensures forall x :: x in r <==> (KeywordsSet(trend.keywords, decode, repr) != {}
      && exists k :: 0 <= k < |rows| && rows[k].id == x
           && Overlaps(KeywordsSet(trend.keywords, decode, repr), rows[k], minOverlap, decode, repr))
  {
    var kw := KeywordsSet(trend.keywords, decode, repr);
    if kw == {} then [] else IdsWhere(rows, (c: Candidate) => Overlaps(kw, c, minOverlap, decode, repr))
  }

  /** With distinct candidate ids, the source count is the number of
      distinct sources among the trend and the rows `find_related_trends`
      reports with its default overlap of two, the trend's own id aside
      (for a trend without keywords both sides are 1). */
  lemma SourceCountCountsRelated(trend: Trend, rows: seq<Candidate>, decode: string -> Option<Json>,
                                 repr: Json -> string)
    requires forall i, j :: 0 <= i < j < |rows| ==> rows[i].id != rows[j].id
    ensures var related := FindRelatedTrends(trend, rows, 2, decode, repr);
      SourceCount(trend, rows, decode, repr)
      == |{SourceValue(trend.source)} + SourcesWhere(rows, (c: Candidate) => c.id != trend.id && c.id in related)|
  {
    var kw := KeywordsSet(trend.keywords, decode, repr);
    var related := FindRelatedTrends(trend, rows, 2, decode, repr);
    var keepA := (c: Candidate) => c.id != trend.id && Overlaps(kw, c, 2, decode, repr);
    var keepB := (c: Candidate) => c.id != trend.id && c.id in related;
    if kw == {} {
      assert SourcesWhere(rows, keepB) == {};
      return;
    }
    forall k | 0 <= k < |rows|
      ensures keepA(rows[k]) == keepB(rows[k])
    {
      if rows[k].id in related {
        var m :| 0 <= m < |rows| && rows[m].id == rows[k].id && Overlaps(kw, rows[m], 2, decode, repr);
        assert m == k;
      }
    }
    SourcesWhereSame(rows, keepA, keepB);
  }

  lemma {:induction false} SourcesWhereSame(rows: seq<Candidate>, p: Candidate -> bool, q: Candidate -> bool)
    requires forall k :: 0 <= k < |rows| ==> p(rows[k]) == q(rows[k])
    ensures SourcesWhere(rows, p) == SourcesWhere(rows, q)
  {
  }

  // --------------------------------------------------------------- summaries

  /** The fallback of `generate_summary` after a failed completion: the
      first sentence of the description with its full stop, when shorter
      than 200 characters, and otherwise the title. */
  function SummaryFallback(title: string, description: Option<string>): (r: string)
    ensures description.None? || description == Some("") ==> r == title
    ensures r == title || (
      && description.Some?
      && |r| < 200 && |r| >= 1 && r[|r| - 1] == '.'
      && var p := r[..|r| - 1];
         |p| <= |description.value| && p == description.value[..|p|] && '.' !in p
         && (|p| == |description.value| || description.value[|p|] == '.'))
  {
    if description.None? || description.value == "" then title
    else
      var d := description.value;
      FirstPiece(d, '.');
      var first := SplitOn(d, ".")[0] + ".";
      assert first[..|first| - 1] == SplitOn(d, ".")[0];
      if |first| < 200 then first else title
  }

  /** `p` is the text of `d` up to its first period, or all of `d`. */
  predicate IsFirstSentence(p: string, d: string) {
    |p| <= |d| && p == d[..|p|] && '.' !in p && (|p| == |d| || d[|p|] == '.')
  }

  /** At most one prefix ends where the first period is. */
  lemma FirstSentenceUnique(p: string, q: string, d: string)
    requires IsFirstSentence(p, d) && IsFirstSentence(q, d)
    ensures p == q
  {
    NoPeriodBefore(p, d);
    NoPeriodBefore(q, d);
  }

  lemma NoPeriodBefore(p: string, d: string)
    requires IsFirstSentence(p, d)
    ensures forall i :: 0 <= i < |p| ==> d[i] != '.'
  {
    forall i | 0 <= i < |p| ensures d[i] != '.' {
      assert p[i] == d[i] && p[i] in p;
    }
  }

  /** The fallback is the first sentence with its period when that is
      shorter than 200 characters, and the title otherwise. */
  lemma SummaryFallbackFirstSentence(title: string, d: string, p: string)
    requires d != "" && IsFirstSentence(p, d)
    ensures |p| + 1 < 200 ==> SummaryFallback(title, Some(d)) == p + "."
    ensures |p| + 1 >= 200 ==> SummaryFallback(title, Some(d)) == title
  {
    FirstPiece(d, '.');
    FirstSentenceUnique(p, SplitOn(d, ".")[0], d);
  }

  /** `generate_summary`: the completion's text, or the fallback when the
      completion raised. */
  function GenerateSummary(title: string, description: Option<string>, outcome: Retry.Outcome): (r: string)
    ensures outcome.Returned? ==> r == outcome.text
    ensures outcome.Raised? ==> r == SummaryFallback(title, description)
  {
    match outcome
    case Returned(text) => text
    case Raised(_) => SummaryFallback(title, description)
  }

  function FindTrend(table: seq<Trend>, id: int): (r: Option<nat>)
    ensures r.None? <==> forall i :: 0 <= i < |table| ==> table[i].id != id
    ensures r.Some? ==> r.value < |table| && table[r.value].id == id
  {
    FindIndex(table, (t: Trend) => t.id == id)
  }

  /** Python truthiness of an optional text. */
  predicate Blank(s: Option<string>) { s.None? || s == Some("") }

  /** `process_trend`: a missing trend, or a failing commit (`commitFails`,
      after which the session is rolled back), answers false with nothing
      changed. Otherwise a missing summary is generated, missing keywords
      are extracted, and the source count and related ids are recomputed
      against the candidates. */
  function ProcessTrend(table: seq<Trend>, id: int, complete: (string, Option<string>) -> Retry.Outcome,
                        alnum: char -> bool, decode: string -> Option<Json>, repr: Json -> string,
                        commitFails: bool): (r: (seq<Trend>, bool))
    ensures r.1 <==> FindTrend(table, id).Some? && !commitFails
    ensures !r.1 ==> r.0 == table
    ensures |r.0| == |table|
    ensures forall j :: 0 <= j < |table| ==> r.0[j].id == table[j].id
    ensures forall j :: 0 <= j < |table| && table[j].id != id ==> r.0[j] == table[j]
    ensures r.1 ==>
      var i := FindTrend(table, id).value;
      var t := r.0[i];
      && (!Blank(table[i].summary) ==> t.summary == table[i].summary)
      && (Blank(table[i].summary) ==>
            t.summary == Some(GenerateSummary(table[i].title, table[i].description,
                                              complete(table[i].title, table[i].description))))
      && (!Falsy(table[i].keywords) ==> t.keywords == table[i].keywords)
      && (Falsy(table[i].keywords) ==> t.keywords == KeywordsPayload(ExtractKeywords(table[i].title, alnum)))
      && t.sourceCount >= 1
      && t.relatedIds.Some?
      && t.(summary := table[i].summary, keywords := table[i].keywords, sourceCount := table[i].sourceCount,
            relatedIds := table[i].relatedIds) == table[i]
  {
    match FindTrend(table, id)
    case None => (table, false)
    case Some(i) =>
      if commitFails then (table, false)
      else (table[i := RefreshedRow(table, table[i], complete, alnum, decode, repr)], true)
  }

  /** The row `process_trend` writes back: the summary and keywords filled
      in when missing, then the source count and related ids recomputed
      over the candidates; nothing else changes. */
  function RefreshedRow(table: seq<Trend>, t: Trend, complete: (string, Option<string>) -> Retry.Outcome,
                        alnum: char -> bool, decode: string -> Option<Json>, repr: Json -> string): (t2: Trend)
    ensures !Blank(t.summary) ==> t2.summary == t.summary
    ensures Blank(t.summary) ==> t2.summary == Some(GenerateSummary(t.title, t.description, complete(t.title, t.description)))
    ensures !Falsy(t.keywords) ==> t2.keywords == t.keywords
    ensures Falsy(t.keywords) ==> t2.keywords == KeywordsPayload(ExtractKeywords(t.title, alnum))
    ensures t2.sourceCount >= 1 && t2.relatedIds.Some?
    ensures t2.id == t.id
    ensures t2.(summary := t.summary, keywords := t.keywords, sourceCount := t.sourceCount,
                relatedIds := t.relatedIds) == t
  {
    var summary := if Blank(t.summary) then Some(GenerateSummary(t.title, t.description, complete(t.title, t.description)))
                   else t.summary;
    var keywords := if Falsy(t.keywords) then KeywordsPayload(ExtractKeywords(t.title, alnum)) else t.keywords;
    var t1 := t.(summary := summary, keywords := keywords);
    var rows := Candidates(table, t1);
    t1.(sourceCount := SourceCount(t1, rows, decode, repr),
        relatedIds := Some(FindRelatedTrends(t1, rows, 2, decode, repr)))
  }

  /** The stored source count and related ids are computed for the row as
      updated, over the candidates of the row's seven-day window. */
  lemma ProcessTrendLinks(table: seq<Trend>, id: int, complete: (string, Option<string>) -> Retry.Outcome,
                          alnum: char -> bool, decode: string -> Option<Json>, repr: Json -> string,
                          commitFails: bool)
    requires FindTrend(table, id).Some? && !commitFails
    ensures var r := ProcessTrend(table, id, complete, alnum, decode, repr, commitFails).0;
      var i := FindTrend(table, id).value;
      var rows := Candidates(table, table[i]);
      && r[i].sourceCount == SourceCount(r[i], rows, decode, repr)
      && r[i].relatedIds == Some(FindRelatedTrends(r[i], rows, 2, decode, repr))
  {
    var i := FindTrend(table, id).value;
    var r := ProcessTrend(table, id, complete, alnum, decode, repr, commitFails).0;
    var t := table[i];
    var summary := if Blank(t.summary) then Some(GenerateSummary(t.title, t.description, complete(t.title, t.description)))
                   else t.summary;
    var keywords := if Falsy(t.keywords) then KeywordsPayload(ExtractKeywords(t.title, alnum)) else t.keywords;
    var t1 := t.(summary := summary, keywords := keywords);
    CandidatesByWindow(table, t, t1);
    LinksReadKeywords(r[i], t1, Candidates(table, t), decode, repr);
  }

  /** The candidates depend on the trend's id and discovery time only. */
  lemma {:induction false} CandidatesByWindow(table: seq<Trend>, a: Trend, b: Trend)
    requires a.id == b.id && a.discoveredAt == b.discoveredAt
    ensures Candidates(table, a) == Candidates(table, b)
    decreases |table|
  {
    if |table| > 0 {
      CandidatesByWindow(table[1..], a, b);
    }
  }

  /** Source count and related ids read the trend's id, source and keywords only. */
  lemma LinksReadKeywords(a: Trend, b: Trend, rows: seq<Candidate>, decode: string -> Option<Json>,
                          repr: Json -> string)
    requires a.id == b.id && a.source == b.source && a.keywords == b.keywords
    ensures SourceCount(a, rows, decode, repr) == SourceCount(b, rows, decode, repr)
    ensures FindRelatedTrends(a, rows, 2, decode, repr) == FindRelatedTrends(b, rows, 2, decode, repr)
  {
  }

  // ---------------------------------------------------------------- backfill

  /** The ids present in a table. */
  function Ids(table: seq<Trend>): set<int> {
    set i | 0 <= i < |table| :: table[i].id
  }

  predicate Increasing(r: seq<int>) {
    forall i, j :: 0 <= i < j < |r| ==> r[i] < r[j]
  }

  /** Places `x` in an increasing sequence, once. */
  function Insert(x: int, r: seq<int>): (q: seq<int>)
    requires Increasing(r)
    ensures Increasing(q)
    ensures forall y :: y in q <==> y == x || y in r
    decreases |r|
  {
    if |r| == 0 then [x]
    else if x < r[0] then
      var q := [x] + r;
      assert forall i :: 1 <= i < |q| ==> q[i] == r[i - 1] && r[0] <= q[i];
      q
    else if x == r[0] then r
    else
      var tail := Insert(x, r[1..]);
      var q := [r[0]] + tail;
      assert forall i :: 1 <= i < |q| ==> q[i] == tail[i - 1];
      assert forall i :: 0 <= i < |tail| ==> r[0] < tail[i] by {
        forall i | 0 <= i < |tail| ensures r[0] < tail[i] {
          assert tail[i] in tail;
          if tail[i] != x {
            assert tail[i] in r[1..];
            var k :| 0 <= k < |r[1..]| && r[1..][k] == tail[i];
            assert r[k + 1] == tail[i];
          }
        }
      }
      q
  }

  /** The distinct elements of `xs` in ascending order (`ORDER BY id ASC`). */
  function Ascending(xs: seq<int>): (r: seq<int>)
    ensures Increasing(r)
    ensures forall y :: y in r <==> y in xs
    decreases |xs|
  {
    if |xs| == 0 then [] else Insert(xs[0], Ascending(xs[1..]))
  }

  /** The ids of the trends without a summary (`summary IS NULL`) that
      the backfill has not handled yet, in table order. */
  function PendingIds(table: seq<Trend>, handled: set<int>): (r: seq<int>)
    ensures forall x :: x in r <==> (exists t :: t in table && t.summary.None? && t.id == x) && x !in handled
    decreases |table|
  {
    if |table| == 0 then []
    else
      var rest := PendingIds(table[1..], handled);
      assert forall t :: t in table <==> t == table[0] || t in table[1..];
      if table[0].summary.None? && table[0].id !in handled then [table[0].id] + rest else rest
  }

  const BatchSize := 50

  /** One query of the backfill: up to `batchLimit` ids, ascending, of
      trends without a summary that were not handled before. An empty
      batch means no such trend is left. */
  function NextBatch(table: seq<Trend>, handled: set<int>, batchLimit: int): (batch: seq<int>)
    requires batchLimit > 0
    ensures |batch| <= batchLimit
    ensures Increasing(batch)
    ensures forall x :: x in batch ==> x !in handled && x in Ids(table)
    ensures forall x :: x in batch ==> SummaryLess(table, x)
    ensures |batch| == 0 ==> forall t :: t in table && t.summary.None? ==> t.id in handled
  {
    var asc := Ascending(PendingIds(table, handled));
    var batch := PyTake(asc, batchLimit);
    assert forall x :: x in batch ==> x in asc;
    assert forall x :: x in batch ==> x !in handled && x in Ids(table) && SummaryLess(table, x) by {
      forall x | x in batch ensures x !in handled && x in Ids(table) && SummaryLess(table, x) {
        assert x in PendingIds(table, handled);
        var t :| t in table && t.summary.None? && t.id == x;
        var j :| 0 <= j < |table| && table[j] == t;
      }
    }
    assert |batch| == 0 ==> forall t :: t in table && t.summary.None? ==> t.id in handled by {
      if |batch| == 0 {
        assert |asc| == 0;
        forall t | t in table && t.summary.None?
          ensures t.id in handled
        {
          assert t.id !in asc;
          assert t.id !in PendingIds(table, handled);
        }
      }
    }
    batch
  }

  /** Some row with the id has no summary (`summary IS NULL`). */
  predicate SummaryLess(table: seq<Trend>, id: int) {
    exists j :: 0 <= j < |table| && table[j].id == id && table[j].summary.None?
  }

  datatype BackfillStats = BackfillStats(success: nat, failed: nat, skipped: nat)

  /** The handled ids whose processing fails. */
  function Failing(handled: set<int>, fails: int -> bool): set<int> {
    set x | x in handled && fails(x)
  }

  /** The tallies account for every handled trend: a failure for each
      one whose processing fails, a success for each other one. */
  predicate Accounts(stats: BackfillStats, handled: set<int>, fails: int -> bool) {
    && stats.failed == |Failing(handled, fails)|
    && stats.success == |handled| - |Failing(handled, fails)|
    && stats.skipped == 0
  }

  lemma FailingSub(handled: set<int>, fails: int -> bool)
    ensures Failing(handled, fails) <= handled
    ensures |Failing(handled, fails)| <= |handled|
  {
    var f := Failing(handled, fails);
    assert handled == f + (handled - f);
  }

  /** Handling one more id adds it to the failures exactly when its
      processing fails. */
  lemma AccountsStep(stats: BackfillStats, handled: set<int>, fails: int -> bool, id: int, ok: bool)
    requires Accounts(stats, handled, fails)
    requires id !in handled
    requires ok <==> !fails(id)
    ensures var after := if ok then stats.(success := stats.success + 1) else stats.(failed := stats.failed + 1);
      Accounts(after, handled + {id}, fails)
  {
    var h := handled + {id};
    FailingSub(handled, fails);
    if fails(id) {
      assert Failing(h, fails) == Failing(handled, fails) + {id};
    } else {
      assert Failing(h, fails) == Failing(handled, fails);
    }
  }

  /** Rows keep their positions and ids. */
  predicate SameIds(a: seq<Trend>, b: seq<Trend>) {
    |a| == |b| && forall j :: 0 <= j < |a| ==> a[j].id == b[j].id
  }

  lemma SameIdsIds(a: seq<Trend>, b: seq<Trend>)
    requires SameIds(a, b)
    ensures Ids(a) == Ids(b)
  {
    forall x | x in Ids(b) ensures x in Ids(a) {
      var j :| 0 <= j < |b| && b[j].id == x;
      assert a[j].id == x;
    }
  }

  /** `process_trend` as the backfill sees it: rows keep their ids, and
      rows of other trends are untouched. */
  function ProcessForBackfill(table: seq<Trend>, id: int, complete: (string, Option<string>) -> Retry.Outcome,
                              alnum: char -> bool, decode: string -> Option<Json>, repr: Json -> string,
                              commitFails: bool): (r: (seq<Trend>, bool))
    ensures SameIds(r.0, table)
    ensures forall j :: 0 <= j < |table| && table[j].id != id ==> r.0[j] == table[j]
    ensures r.1 <==> !commitFails && exists j :: 0 <= j < |table| && table[j].id == id
  {
    ProcessTrend(table, id, complete, alnum, decode, repr, commitFails)
  }

  /** `process_trend` with everything but the table and the trend id
      fixed. */
  function BackfillProcess(complete: (string, Option<string>) -> Retry.Outcome, alnum: char -> bool,
                           decode: string -> Option<Json>, repr: Json -> string, commitFails: int -> bool)
    : (process: (seq<Trend>, int) -> (seq<Trend>, bool))
    ensures KeepsOtherRows(process)
    ensures AnswersBy(process, commitFails)
  {
    var process := (tbl: seq<Trend>, id: int) => ProcessForBackfill(tbl, id, complete, alnum, decode, repr, commitFails(id));
    assert KeepsOtherRows(process) by {
      forall tbl: seq<Trend>, id: int
        ensures SameIds(process(tbl, id).0, tbl)
        ensures forall j :: 0 <= j < |tbl| && tbl[j].id != id ==> process(tbl, id).0[j] == tbl[j]
      {
        var r := ProcessForBackfill(tbl, id, complete, alnum, decode, repr, commitFails(id));
        assert process(tbl, id) == r;
      }
    }
    assert AnswersBy(process, commitFails) by {
      forall tbl: seq<Trend>, id: int | id in Ids(tbl)
        ensures process(tbl, id).1 <==> !commitFails(id)
      {
        var r := ProcessForBackfill(tbl, id, complete, alnum, decode, repr, commitFails(id));
        assert process(tbl, id) == r;
        var j :| 0 <= j < |tbl| && tbl[j].id == id;
      }
    }
    process
  }

  /** An update of one trend that keeps every row's id and leaves the
      rows of other trends alone, as `process_trend` does. */
  ghost predicate KeepsOtherRows(process: (seq<Trend>, int) -> (seq<Trend>, bool)) {
    forall tbl: seq<Trend>, id: int ::
      && SameIds(process(tbl, id).0, tbl)
      && forall j :: 0 <= j < |tbl| && tbl[j].id != id ==> process(tbl, id).0[j] == tbl[j]
  }

  /** For a trend that exists, the update reports success exactly when
      its commit does not fail. */
  ghost predicate AnswersBy(process: (seq<Trend>, int) -> (seq<Trend>, bool), fails: int -> bool) {
    forall tbl: seq<Trend>, id: int :: id in Ids(tbl) ==> (process(tbl, id).1 <==> !fails(id))
  }

  /** The inner loop of the backfill: every id of the batch is marked
      handled and processed, and counted as a failure when its
      processing fails, else as a success. */
  method RunBatch(table: seq<Trend>, handled: set<int>, stats: BackfillStats, batch: seq<int>,
                  process: (seq<Trend>, int) -> (seq<Trend>, bool), fails: int -> bool)
    returns (result: seq<Trend>, handledAfter: set<int>, statsAfter: BackfillStats)
    requires KeepsOtherRows(process) && AnswersBy(process, fails)
    requires Increasing(batch)
    requires forall i :: 0 <= i < |batch| ==> batch[i] !in handled && batch[i] in Ids(table)
    requires Accounts(stats, handled, fails)
    ensures handled <= handledAfter
    ensures forall x :: x in handledAfter ==> x in handled || x in batch
    ensures forall x :: x in batch ==> x in handledAfter
    ensures |handledAfter| == |handled| + |batch|
    ensures Accounts(statsAfter, handledAfter, fails)
    ensures SameIds(result, table)
    ensures forall j :: 0 <= j < |table| && table[j].id !in handledAfter ==> result[j] == table[j]
  {
    result := table;
    handledAfter := handled;
    statsAfter := stats;
    var k := 0;
    while k < |batch|
      invariant 0 <= k <= |batch|
      invariant SameIds(result, table)
      invariant forall j :: 0 <= j < |table| && table[j].id !in handledAfter ==> result[j] == table[j]
      invariant handled <= handledAfter
      invariant forall x :: x in handledAfter ==> x in handled || x in batch
      invariant forall i :: 0 <= i < k ==> batch[i] in handledAfter
      invariant forall i :: k <= i < |batch| ==> batch[i] !in handledAfter
      invariant |handledAfter| == |handled| + k
      invariant Accounts(statsAfter, handledAfter, fails)
    {
      var id := batch[k];
      var outcome := process(result, id);
      SameIdsIds(result, table);
      AccountsStep(statsAfter, handledAfter, fails, id, outcome.1);
      handledAfter := handledAfter + {id};
      result := outcome.0;
      if outcome.1 {
        statsAfter := statsAfter.(success := statsAfter.success + 1);
      } else {
        statsAfter := statsAfter.(failed := statsAfter.failed + 1);
      }
      k := k + 1;
    }
  }

  /** A batch run on rows that already agree with the table outside
      `before` leaves rows agreeing with it outside `handled`. */
  lemma BatchKeepsRows(table: seq<Trend>, rows: seq<Trend>, result: seq<Trend>, before: set<int>, handled: set<int>)
    requires SameIds(rows, table) && SameIds(result, rows)
    requires forall j :: 0 <= j < |table| && table[j].id !in before ==> rows[j] == table[j]
    requires forall j :: 0 <= j < |rows| && rows[j].id !in handled ==> result[j] == rows[j]
    requires before <= handled
    ensures SameIds(result, table)
    ensures forall j :: 0 <= j < |table| && table[j].id !in handled ==> result[j] == table[j]
  {
  }

  /** Ids picked from the rows outside `before` name summary-less rows of
      the table, since those rows are still the table's. */
  lemma BatchSummaryLess(table: seq<Trend>, rows: seq<Trend>, before: set<int>, batch: seq<int>)
    requires SameIds(rows, table)
    requires forall j :: 0 <= j < |table| && table[j].id !in before ==> rows[j] == table[j]
    requires forall x :: x in batch ==> x !in before && SummaryLess(rows, x)
    ensures forall x :: x in batch ==> SummaryLess(table, x)
  {
    forall x | x in batch ensures SummaryLess(table, x) {
      var j :| 0 <= j < |rows| && rows[j].id == x && rows[j].summary.None?;
      assert rows[j] == table[j];
    }
  }

  lemma HandledSummaryLess(table: seq<Trend>, before: set<int>, batch: seq<int>, handled: set<int>)
    requires forall x :: x in before ==> SummaryLess(table, x)
    requires forall x :: x in batch ==> SummaryLess(table, x)
    requires forall x :: x in handled ==> x in before || x in batch
    ensures forall x :: x in handled ==> SummaryLess(table, x)
  {
  }

  /** When every summary-less row of `rows` is handled, so is every
      summary-less row of the table. */
  lemma UnchangedSummaryLess(table: seq<Trend>, rows: seq<Trend>, before: set<int>)
    requires SameIds(rows, table)
    requires forall j :: 0 <= j < |table| && table[j].id !in before ==> rows[j] == table[j]
    requires forall t :: t in rows && t.summary.None? ==> t.id in before
    ensures forall j :: 0 <= j < |table| && table[j].summary.None? ==> table[j].id in before
  {
    forall j | 0 <= j < |table| && table[j].summary.None?
      ensures table[j].id in before
    {
      assert rows[j] in rows;
    }
  }

  /** A non-empty batch of fresh ids of the table strictly shrinks the
      set of ids still to handle. */
  lemma BatchShrinks(all: set<int>, before: set<int>, handled: set<int>, batch: seq<int>)
    requires |batch| > 0 && before <= all
    requires forall x :: x in batch ==> x !in before && x in all
    requires forall x :: x in handled ==> x in before || x in batch
    requires forall x :: x in batch ==> x in handled
    requires before <= handled
    ensures handled <= all
    ensures all - handled < all - before
    ensures |all - handled| < |all - before|
  {
    forall y | y in handled ensures y in all {
      assert y in before || y in batch;
    }
    var x := batch[0];
    assert x in batch;
    assert x in all - before && x !in all - handled;
    var a, b := all - handled, all - before;
    assert b == a + (b - a) && a * (b - a) == {};
    assert x in b - a;
  }

  /** The backfill loop over any per-trend update that keeps ids, leaves
      other trends alone and succeeds exactly when `fails` says it does. */
  method BackfillWith(table: seq<Trend>, limit: Option<int>, process: (seq<Trend>, int) -> (seq<Trend>, bool),
                      fails: int -> bool)
    returns (result: seq<Trend>, stats: BackfillStats, handled: set<int>)
    requires KeepsOtherRows(process) && AnswersBy(process, fails)
    ensures Accounts(stats, handled, fails)
    ensures handled <= Ids(table)
    ensures forall x :: x in handled ==> SummaryLess(table, x)
    ensures limit.Some? && limit.value > 0 ==> |handled| <= limit.value
    ensures !(limit.Some? && limit.value > 0 && |handled| == limit.value) ==>
      forall j :: 0 <= j < |table| && table[j].summary.None? ==> table[j].id in handled
    ensures !(limit.Some? && limit.value > 0 && |handled| == limit.value) ==>
      forall t :: t in result && t.summary.None? ==> t.id in handled
    ensures SameIds(result, table)
    ensures forall j :: 0 <= j < |table| && table[j].id !in handled ==> result[j] == table[j]
  {
    result := table;
    stats := BackfillStats(0, 0, 0);
    handled := {};
    var remaining: Option<int> := if limit.Some? && limit.value > 0 then limit else None;
    var done := false;
    while !done
      invariant !done ==> BackfillState(table, limit, result, stats, handled, remaining, fails)
      invariant done ==> BackfillDone(table, limit, result, stats, handled, fails)
      decreases if done then 0 else 1 + |Ids(table) - handled|
    {
      result, stats, handled, remaining, done := BackfillBatch(table, limit, result, stats, handled, remaining, process, fails);
    }
  }

  /** What holds between two batches: the rows agree with the table
      outside the handled ids, the tallies account for them, and the
      remaining budget is the limit less what was handled. */
  predicate BackfillState(table: seq<Trend>, limit: Option<int>, result: seq<Trend>, stats: BackfillStats,
                          handled: set<int>, remaining: Option<int>, fails: int -> bool) {
    && SameIds(result, table)
    && (forall j :: 0 <= j < |table| && table[j].id !in handled ==> result[j] == table[j])
    && handled <= Ids(table)
    && (forall x :: x in handled ==> SummaryLess(table, x))
    && Accounts(stats, handled, fails)
    && (remaining.Some? <==> limit.Some? && limit.value > 0)
    && (remaining.Some? ==> remaining.value == limit.value - |handled| && remaining.value > 0)
  }

  /** What holds when the backfill stops: the postcondition of `BackfillWith`. */
  predicate BackfillDone(table: seq<Trend>, limit: Option<int>, result: seq<Trend>, stats: BackfillStats,
                         handled: set<int>, fails: int -> bool) {
    && Accounts(stats, handled, fails)
    && handled <= Ids(table)
    && (forall x :: x in handled ==> SummaryLess(table, x))
    && (limit.Some? && limit.value > 0 ==> |handled| <= limit.value)
    && (!(limit.Some? && limit.value > 0 && |handled| == limit.value) ==>
          forall j :: 0 <= j < |table| && table[j].summary.None? ==> table[j].id in handled)
    && (!(limit.Some? && limit.value > 0 && |handled| == limit.value) ==>
          forall t :: t in result && t.summary.None? ==> t.id in handled)
    && SameIds(result, table)
    && (forall j :: 0 <= j < |table| && table[j].id !in handled ==> result[j] == table[j])
  }

  /** One pass of the backfill loop: the next batch, or the end. */
  method BackfillBatch(table: seq<Trend>, limit: Option<int>, rows: seq<Trend>, stats: BackfillStats,
                       before: set<int>, remaining: Option<int>, process: (seq<Trend>, int) -> (seq<Trend>, bool),
                       fails: int -> bool)
    returns (result: seq<Trend>, statsAfter: BackfillStats, handled: set<int>, left: Option<int>, done: bool)
    requires KeepsOtherRows(process) && AnswersBy(process, fails)
    requires BackfillState(table, limit, rows, stats, before, remaining, fails)
    ensures done ==> BackfillDone(table, limit, result, statsAfter, handled, fails)
    ensures !done ==> BackfillState(table, limit, result, statsAfter, handled, left, fails)
    ensures !done ==> |Ids(table) - handled| < |Ids(table) - before|
  {
    var batchLimit := if remaining.None? then BatchSize else Min(BatchSize, remaining.value);
    SameIdsIds(rows, table);
    var batch := NextBatch(rows, before, batchLimit);
    if |batch| == 0 {
      UnchangedSummaryLess(table, rows, before);
      return rows, stats, before, remaining, true;
    }
    BatchSummaryLess(table, rows, before, batch);
    result, handled, statsAfter := RunBatch(rows, before, stats, batch, process, fails);
    HandledSummaryLess(table, before, batch, handled);
    BatchKeepsRows(table, rows, result, before, handled);
    BatchShrinks(Ids(table), before, handled, batch);
    assert remaining.Some? ==> |batch| <= remaining.value;
    left := if remaining.Some? then Some(remaining.value - |batch|) else None;
    done := left.Some? && left.value <= 0;
    AfterBatch(table, limit, result, statsAfter, handled, left, fails);
  }

  /** The facts a batch run leaves behind are the state between batches,
      or the final state once the budget is spent. */
  lemma AfterBatch(table: seq<Trend>, limit: Option<int>, result: seq<Trend>, stats: BackfillStats,
                   handled: set<int>, left: Option<int>, fails: int -> bool)
    requires SameIds(result, table)
    requires forall j :: 0 <= j < |table| && table[j].id !in handled ==> result[j] == table[j]
    requires handled <= Ids(table)
    requires forall x :: x in handled ==> SummaryLess(table, x)
    requires Accounts(stats, handled, fails)
    requires left.Some? <==> limit.Some? && limit.value > 0
    requires left.Some? ==> left.value == limit.value - |handled| && left.value >= 0
    ensures !(left.Some? && left.value <= 0) ==> BackfillState(table, limit, result, stats, handled, left, fails)
    ensures left.Some? && left.value <= 0 ==> BackfillDone(table, limit, result, stats, handled, fails)
  {
  }

  /** `backfill_summaries`: trends without a summary are processed in
      ascending id order, fifty at a time, each at most once (a trend
      whose processing failed keeps its empty summary but is not picked
      again). A positive limit caps the number of trends handled; without
      one the backfill stops only when every trend still lacking a summary
      has been handled. `commitFails` says, per trend id, whether the
      commit of `process_trend` fails. */
  method BackfillSummaries(table: seq<Trend>, limit: Option<int>,
                           complete: (string, Option<string>) -> Retry.Outcome, alnum: char -> bool,
                           decode: string -> Option<Json>, repr: Json -> string, commitFails: int -> bool)
    returns (result: seq<Trend>, stats: BackfillStats, handled: set<int>)
    ensures stats.failed == |set x | x in handled && commitFails(x)|
    ensures stats.success == |set x | x in handled && !commitFails(x)|
    ensures stats.skipped == 0
    ensures handled <= Ids(table)
    ensures forall x :: x in handled ==> SummaryLess(table, x)
    ensures limit.Some? && limit.value > 0 ==> |handled| <= limit.value
    ensures !(limit.Some? && limit.value > 0 && |handled| == limit.value) ==>
      forall j :: 0 <= j < |table| && table[j].summary.None? ==> table[j].id in handled
    ensures !(limit.Some? && limit.value > 0 && |handled| == limit.value) ==>
      forall t :: t in result && t.summary.None? ==> t.id in handled
    ensures SameIds(result, table)
    ensures forall j :: 0 <= j < |table| && table[j].id !in handled ==> result[j] == table[j]
  {
    result, stats, handled := BackfillWith(table, limit, BackfillProcess(complete, alnum, decode, repr, commitFails), commitFails);
    FailingSplit(handled, commitFails);
  }

  /** The handled ids split into those whose commit fails and the rest. */
  lemma FailingSplit(handled: set<int>, fails: int -> bool)
    ensures |Failing(handled, fails)| == |set x | x in handled && fails(x)|
    ensures |handled| - |Failing(handled, fails)| == |set x | x in handled && !fails(x)|
  {
    var f := Failing(handled, fails);
    var g := set x | x in handled && !fails(x);
    assert handled == f + g && f * g == {};
  }
}
