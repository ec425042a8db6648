/** Prompt shaping for the translator and the content generator: topic-tag
    extraction, glossary sections, smart truncation of style examples and
    the recency bonus. */
module PromptBuilder {
  import opened Base
  import opened Text
  import opened Sorting

  // ---------------------------------------------------------------- topic tags

  /** `KEYWORD_MAP`, in its declaration order. */
  const KeywordMap: seq<(string, seq<string>)> := [
    ("fintech", ["fintech", "financial technology", "neobank", "digital bank"]),
    ("crypto", ["crypto", "cryptocurrency", "token", "coin"]),
    ("bitcoin", ["bitcoin", "btc"]),
    ("ethereum", ["ethereum", "eth"]),
    ("blockchain", ["blockchain", "distributed ledger"]),
    ("banking", ["bank", "banking", "deposit", "loan", "mortgage"]),
    ("payments", ["payment", "transfer", "remittance", "paypal", "stripe"]),
    ("investing", ["invest", "portfolio", "fund", "asset", "wealth"]),
    ("trading", ["trading", "trade", "exchange", "broker"]),
    ("markets", ["market", "stock", "bond", "equity", "dow", "nasdaq", "s&p"]),
    ("regulation", ["regulat", "compliance", "sec", "fed", "central bank"]),
    ("startups", ["startup", "founder", "seed", "series a", "venture"]),
    ("AI", ["artificial intelligence", " ai ", "machine learning", "llm", "gpt"]),
    ("technology", ["tech", "software", "platform", "saas", "cloud"]),
    ("DeFi", ["defi", "decentralized finance", "yield", "liquidity pool"]),
    ("IPO", ["ipo", "public offering", "listing"])
  ]

  /** Some keyword of `kws` occurs in `text`. */
  predicate AnyOccurs(kws: seq<string>, text: string) {
    exists k :: 0 <= k < |kws| && Contains(text, kws[k])
  }

  function Tags(m: seq<(string, seq<string>)>): seq<string> {
    seq(|m|, i requires 0 <= i < |m| => m[i].0)
  }

  /** The tags of `m`, in order, having a keyword inside `low`. */
  function MatchingTags(m: seq<(string, seq<string>)>, low: string): (r: seq<string>)
    ensures forall t :: t in r <==> exists i :: 0 <= i < |m| && m[i].0 == t && AnyOccurs(m[i].1, low)
    ensures Distinct(Tags(m)) ==> Distinct(r)
    decreases |m|
  {
    if |m| == 0 then []
    else
      var rest := MatchingTags(m[1..], low);
      assert forall i :: 1 <= i < |m| ==> m[i] == m[1..][i - 1];
      TagsTail(m);
      assert Distinct(Tags(m)) ==> m[0].0 !in rest;
      if AnyOccurs(m[0].1, low) then
        DistinctCons(m[0].0, rest);
        [m[0].0] + rest
      else rest
  }

  /** The matching tags come in the table's order. */
  lemma {:induction false} MatchingTagsOrdered(m: seq<(string, seq<string>)>, low: string)
    ensures Subsequence(MatchingTags(m, low), Tags(m))
    decreases |m|
  {
    if |m| > 0 {
      var rest := MatchingTags(m[1..], low);
      MatchingTagsOrdered(m[1..], low);
      TagsCons(m);
      if !AnyOccurs(m[0].1, low) {
        SubsequenceSkip(rest, m[0].0, Tags(m[1..]));
      }
    }
  }

  lemma TagsCons(m: seq<(string, seq<string>)>)
    requires |m| > 0
    ensures Tags(m) == [m[0].0] + Tags(m[1..])
  {
  }

  lemma SubsequenceSkip<T>(a: seq<T>, x: T, b: seq<T>)
    requires Subsequence(a, b)
    ensures Subsequence(a, [x] + b)
  {
    assert ([x] + b)[1..] == b;
  }

  lemma DistinctCons<T>(x: T, s: seq<T>)
    ensures x !in s && Distinct(s) ==> Distinct([x] + s)
  {
  }

  lemma TagsTail(m: seq<(string, seq<string>)>)
    requires |m| > 0
    ensures Distinct(Tags(m)) ==> Distinct(Tags(m[1..]))
    ensures Distinct(Tags(m)) ==> forall i :: 0 <= i < |m[1..]| ==> m[1..][i].0 != m[0].0
  {
    var t, u := Tags(m), Tags(m[1..]);
    assert forall i :: 0 <= i < |u| ==> u[i] == t[i + 1];
    if Distinct(t) {
      forall i | 0 <= i < |u|
        ensures m[1..][i].0 != m[0].0
      {
        assert u[i] == m[1..][i].0 && t[i + 1] != t[0];
      }
    }
  }

  /** `extract_topic_keywords`: the tags of `KEYWORD_MAP`, in map order and
      without repetition, one of whose keywords occurs in the lowered text. */
  function ExtractTopicKeywords(text: string): (r: seq<string>)
    ensures forall t :: t in r <==>
      exists i :: 0 <= i < |KeywordMap| && KeywordMap[i].0 == t && AnyOccurs(KeywordMap[i].1, Lower(text))
    ensures Distinct(r)
    ensures Subsequence(r, Tags(KeywordMap))
  {
    KeywordMapTagsDistinct();
    MatchingTagsOrdered(KeywordMap, Lower(text));
    MatchingTags(KeywordMap, Lower(text))
  }

  /** Length and first two letters of a tag, as one number. */
  function Signature(s: string): int {
    if |s| < 2 then |s| else |s| * 1000000 + s[0] as int * 1000 + s[1] as int
  }

  /** The position in `KEYWORD_MAP` of the tag with this signature
      (`Signature`: length, then the codes of the first two characters). */
  function KeywordIndex(code: int): int {
    if code == 7102105 then 0  // "fintech": 7 letters, 'f' = 102, 'i' = 105
    else if code == 6099114 then 1  // "crypto": 6 letters, 'c' = 99, 'r' = 114
    else if code == 7098105 then 2  // "bitcoin": 7 letters, 'b' = 98, 'i' = 105
    else if code == 8101116 then 3  // "ethereum": 8 letters, 'e' = 101, 't' = 116
    else if code == 10098108 then 4  // "blockchain": 10 letters, 'b' = 98, 'l' = 108
    else if code == 7098097 then 5  // "banking": 7 letters, 'b' = 98, 'a' = 97
    else if code == 8112097 then 6  // "payments": 8 letters, 'p' = 112, 'a' = 97
    else if code == 9105110 then 7  // "investing": 9 letters, 'i' = 105, 'n' = 110
    else if code == 7116114 then 8  // "trading": 7 letters, 't' = 116, 'r' = 114
    else if code == 7109097 then 9  // "markets": 7 letters, 'm' = 109, 'a' = 97
    else if code == 10114101 then 10  // "regulation": 10 letters, 'r' = 114, 'e' = 101
    else if code == 8115116 then 11  // "startups": 8 letters, 's' = 115, 't' = 116
    else if code == 2065073 then 12  // "AI": 2 letters, 'A' = 65, 'I' = 73
    else if code == 10116101 then 13  // "technology": 10 letters, 't' = 116, 'e' = 101
    else if code == 4068101 then 14  // "DeFi": 4 letters, 'D' = 68, 'e' = 101
    else if code == 3073080 then 15  // "IPO": 3 letters, 'I' = 73, 'P' = 80
    else -1
  }

  lemma KeywordMapTagsDistinct()
    ensures Distinct(Tags(KeywordMap))
  {
    assert forall i :: 0 <= i < |KeywordMap| ==> KeywordIndex(Signature(KeywordMap[i].0)) == i;
    DistinctByIndex(Tags(KeywordMap), (t: string) => KeywordIndex(Signature(t)));
  }

  /** A sequence each of whose elements names its own position holds no
      element twice. */
  lemma DistinctByIndex<T>(s: seq<T>, index: T -> int)
    requires forall i :: 0 <= i < |s| ==> index(s[i]) == i
    ensures Distinct(s)
  {
  }

  // ----------------------------------------------------------------- glossary

  /** One glossary prompt line, `- eng: heb`. */
  function GlossaryLine(eng: string, heb: string): (r: string)
    ensures |r| > 0 && r[0] == '-'
  {
    "- " + eng + ": " + heb
  }

  function GlossaryLines(g: seq<(string, string)>): (r: seq<string>)
    ensures |r| == |g|
  {
    seq(|g|, i requires 0 <= i < |g| => GlossaryLine(g[i].0, g[i].1))
  }

  /** `build_glossary_section`: every entry on its own line, in order. */
  function BuildGlossarySection(g: seq<(string, string)>): (r: string)
    ensures |g| == 0 <==> r == ""
  {
    if |g| == 0 then "" else
      JoinNonEmpty(GlossaryLines(g));
      Join("\n", GlossaryLines(g))
  }

  lemma {:induction false} JoinNonEmpty(parts: seq<string>)
    requires |parts| > 0 && |parts[0]| > 0
    ensures |Join("\n", parts)| > 0
  {
  }

  /** No line break inside a glossary entry. */
  predicate SingleLineEntries(g: seq<(string, string)>) {
    forall i :: 0 <= i < |g| ==> '\n' !in g[i].0 && '\n' !in g[i].1
  }

  /** Reading the section back line by line recovers exactly one line per
      entry, in insertion order. */
  lemma GlossarySectionLines(g: seq<(string, string)>)
    requires |g| > 0 && SingleLineEntries(g)
    ensures SplitOn(BuildGlossarySection(g), "\n") == GlossaryLines(g)
  {
    var lines := GlossaryLines(g);
    forall k | 0 <= k < |lines|
      ensures '\n' !in lines[k]
    {
      assert lines[k] == "- " + g[k].0 + ": " + g[k].1;
    }
    SplitJoin(lines, '\n');
  }

  /** A glossary term with its relevance score. */
  datatype Scored = Scored(eng: string, heb: string, score: int)

  /** `_COMMON_FINANCE_TERMS` (case-sensitive membership). */
  predicate IsCommonTerm(eng: string) {
    eng in {"Bitcoin", "Ethereum", "blockchain", "crypto", "fintech", "IPO", "ETF", "stock", "market", "investor"}
  }

  /** Some word longer than two characters is a prefix of the term or has
      the term as a prefix. */
  predicate PrefixRelated(words: seq<string>, term: string) {
    exists k :: 0 <= k < |words| && |words[k]| > 2 && (StartsWith(words[k], term) || StartsWith(term, words[k]))
  }

  /** 10 for a substring of the lowered source, else 5 for a prefix-related
      word, else 0. */
  function TermScore(eng: string, srcLower: string): (r: int)
    ensures r in {0, 5, 10}
    ensures r == 10 <==> Contains(srcLower, Lower(eng))
    ensures r == 5 <==> !Contains(srcLower, Lower(eng)) && PrefixRelated(Words(srcLower), Lower(eng))
  {
    var e := Lower(eng);
    if Contains(srcLower, e) then 10
    else if PrefixRelated(Words(srcLower), e) then 5
    else 0
  }

  /** Every glossary entry, in glossary order, with its relevance score. */
  function ScoreAll(g: seq<(string, string)>, srcLower: string): (r: seq<Scored>)
    ensures |r| == |g|
    ensures forall i :: 0 <= i < |g| ==> r[i] == Scored(g[i].0, g[i].1, TermScore(g[i].0, srcLower))
    ensures forall i :: 0 <= i < |g| ==>
      (r[i].score > 0 <==> Contains(srcLower, Lower(g[i].0)) || PrefixRelated(Words(srcLower), Lower(g[i].0)))
  {
    seq(|g|, i requires 0 <= i < |g| => Scored(g[i].0, g[i].1, TermScore(g[i].0, srcLower)))
  }

  function ScoreKey(s: Scored): Key { (s.score, 0) }

  predicate Positive(s: Scored) { s.score > 0 }

  predicate HasPair(m: seq<Scored>, eng: string, heb: string) {
    exists k :: 0 <= k < |m| && m[k].eng == eng && m[k].heb == heb
  }

  /** A glossary is a dict: its English keys are distinct. */
  predicate KeysDistinct(g: seq<(string, string)>) {
    forall i, j :: 0 <= i < j < |g| ==> g[i].0 != g[j].0
  }

  predicate EngDistinct(s: seq<Scored>) {
    forall i, j :: 0 <= i < j < |s| ==> s[i].eng != s[j].eng
  }

  /** A common finance term whose pair is not among `matched`. */
  predicate FreshCommon(matched: seq<Scored>, e: Scored) {
    IsCommonTerm(e.eng) && !HasPair(matched, e.eng, e.heb)
  }

  /** Every common finance term of `rest` missing from `matched`, in order,
      with score 0: what the fill-up appends when nothing stops it. */
  function CommonFill(rest: seq<Scored>, matched: seq<Scored>): (r: seq<Scored>)
    ensures |r| <= |rest|
    ensures forall i :: 0 <= i < |r| ==> r[i].score == 0 && IsCommonTerm(r[i].eng)
  {
    if |rest| == 0 then []
    else
      var e := rest[0];
      (if FreshCommon(matched, e) then [Scored(e.eng, e.heb, 0)] else []) + CommonFill(rest[1..], matched)
  }

  /** Adding a pair whose English key is not in `rest` does not change
      which terms of `rest` are fresh. */
  lemma {:induction false} CommonFillIgnores(rest: seq<Scored>, matched: seq<Scored>, x: Scored)
    requires forall i :: 0 <= i < |rest| ==> rest[i].eng != x.eng
    ensures CommonFill(rest, matched + [x]) == CommonFill(rest, matched)
    decreases |rest|
  {
    if |rest| > 0 {
      var e := rest[0];
      var m := matched + [x];
      assert HasPair(m, e.eng, e.heb) == HasPair(matched, e.eng, e.heb) by {
        if HasPair(m, e.eng, e.heb) {
          var k :| 0 <= k < |m| && m[k].eng == e.eng && m[k].heb == e.heb;
          assert k < |matched| && matched[k] == m[k];
        }
        if HasPair(matched, e.eng, e.heb) {
          var k :| 0 <= k < |matched| && matched[k].eng == e.eng && matched[k].heb == e.heb;
          assert m[k] == matched[k];
        }
      }
      CommonFillIgnores(rest[1..], matched, x);
    }
  }

  /** `matched` with the term appended when it is a fresh common term. */
  function AddIfFresh(matched: seq<Scored>, e: Scored): seq<Scored> {
    if FreshCommon(matched, e) then matched + [Scored(e.eng, e.heb, 0)] else matched
  }

  /** One step of the fill-up below the cap: what the rest of the walk
      gives from the grown list is what the whole walk gives from
      `matched`. */
  lemma FillCommonInduct(rest: seq<Scored>, matched: seq<Scored>, maxTerms: int, t: seq<Scored>)
    requires |rest| > 0
    requires |AddIfFresh(matched, rest[0])| < maxTerms
    requires var m := AddIfFresh(matched, rest[0]);
      |t| >= |m| && t[..|m|] == m
      && (forall i :: |m| <= i < |t| ==> t[i].score == 0 && IsCommonTerm(t[i].eng))
      && (EngDistinct(rest[1..]) ==> var all := m + CommonFill(rest[1..], m); t == all[..Min(maxTerms, |all|)])
    ensures |t| >= |matched| && t[..|matched|] == matched
    ensures forall i :: |matched| <= i < |t| ==> t[i].score == 0 && IsCommonTerm(t[i].eng)
    ensures EngDistinct(rest) ==>
      var all := matched + CommonFill(rest, matched);
      t == all[..Min(maxTerms, |all|)]
  {
    var e := rest[0];
    var m := AddIfFresh(matched, e);
    assert t[..|matched|] == m[..|matched|];
    if EngDistinct(rest) {
      assert EngDistinct(rest[1..]);
      if FreshCommon(matched, e) {
        CommonFillIgnores(rest[1..], matched, Scored(e.eng, e.heb, 0));
      }
      assert matched + CommonFill(rest, matched) == m + CommonFill(rest[1..], m);
    }
  }

  /** The fill-up loop: walks the scored terms, appending each common
      finance term not yet present with score 0, and stops as soon as the
      list reaches `maxTerms` entries (tested after every term). Below the
      cap the result is `matched` followed by the common terms missing
      from it, cut at `maxTerms`; at or over the cap only the first term
      is looked at. */
  function FillCommon(rest: seq<Scored>, matched: seq<Scored>, maxTerms: int): (r: seq<Scored>)
    ensures |r| >= |matched| && r[..|matched|] == matched
    ensures forall i :: |matched| <= i < |r| ==> r[i].score == 0 && IsCommonTerm(r[i].eng)
    ensures EngDistinct(rest) && |matched| < maxTerms ==>
      var all := matched + CommonFill(rest, matched);
      r == all[..Min(maxTerms, |all|)]
    ensures |matched| >= maxTerms ==> r == matched + CommonFill(rest[..Min(1, |rest|)], matched)
    decreases |rest|
  {
    if |rest| == 0 then matched
    else
      var m := AddIfFresh(matched, rest[0]);
      if |m| >= maxTerms then
        assert rest[..1] == [rest[0]];
        m
      else
        var t := FillCommon(rest[1..], m, maxTerms);
        FillCommonInduct(rest, matched, maxTerms, t);
        t
  }

  /** The terms `build_relevant_glossary_section` lists for a non-empty
      glossary and source. */
  function SelectRelevantTerms(g: seq<(string, string)>, source: string, maxTerms: int): (r: seq<Scored>)
    ensures maxTerms >= 0 ==> |r| <= maxTerms
    ensures SortedDesc(r, ScoreKey)
    ensures forall x :: x in r ==> (x.score > 0 ==> x in ScoreAll(g, Lower(source)))
    ensures forall x :: x in r ==> (x.score == 0 ==> IsCommonTerm(x.eng))
    ensures maxTerms >= 0 ==>
      var m := Filter(ScoreAll(g, Lower(source)), Positive);
      |r| >= Min(maxTerms, |m|) && IsTop(r[..Min(maxTerms, |m|)], m, ScoreKey, maxTerms)
    ensures KeysDistinct(g) && maxTerms >= 0 ==>
      var scored := ScoreAll(g, Lower(source));
      var m := Matched(scored);
      var all := if |m| < 5 then m + CommonFill(scored, m) else m;
      r == all[..Min(maxTerms, |all|)]
  {
    var scored := ScoreAll(g, Lower(source));
    var matched := Matched(scored);
    var filled := if |matched| < 5 then FillCommon(scored, matched, maxTerms) else matched;
    FilledSorted(matched, filled);
    ScoredKeysDistinct(g, Lower(source));
    TakeFilled(scored, matched, maxTerms);
    var selected := PyTake(filled, maxTerms);
    TakeKeeps(filled, selected);
    if maxTerms >= 0 then
      SelectedTop(scored, filled, maxTerms);
      selected
    else selected
  }

  lemma ScoredKeysDistinct(g: seq<(string, string)>, srcLower: string)
    ensures KeysDistinct(g) ==> EngDistinct(ScoreAll(g, srcLower))
  {
  }

  /** Cutting the filled list at `maxTerms` is cutting the uncapped fill. */
  lemma TakeFilled(scored: seq<Scored>, matched: seq<Scored>, maxTerms: int)
    ensures EngDistinct(scored) && maxTerms >= 0 ==>
      var filled := if |matched| < 5 then FillCommon(scored, matched, maxTerms) else matched;
      var all := if |matched| < 5 then matched + CommonFill(scored, matched) else matched;
      PyTake(filled, maxTerms) == all[..Min(maxTerms, |all|)]
  {
    if EngDistinct(scored) && maxTerms >= 0 && |matched| < 5 {
      var filled := FillCommon(scored, matched, maxTerms);
      var all := matched + CommonFill(scored, matched);
      if |matched| >= maxTerms {
        assert filled[..maxTerms] == matched[..maxTerms] == all[..maxTerms];
      }
    }
  }

  /** The first `maxTerms` of a list that starts with the matched terms
      begin with the best matched terms. */
  lemma SelectedTop(scored: seq<Scored>, filled: seq<Scored>, maxTerms: nat)
    requires |filled| >= |Matched(scored)| && filled[..|Matched(scored)|] == Matched(scored)
    ensures var m := Filter(scored, Positive);
      var n := Min(maxTerms, |m|);
      var sel := PyTake(filled, maxTerms);
      |sel| >= n && IsTop(sel[..n], m, ScoreKey, maxTerms)
  {
    var matched := Matched(scored);
    var n := Min(maxTerms, |matched|);
    PrefixOfPrefix(filled, |matched|, maxTerms);
    PrefixIsTop(matched, Filter(scored, Positive), ScoreKey, maxTerms);
  }

  lemma PrefixOfPrefix<T>(s: seq<T>, k: nat, n: nat)
    requires k <= |s|
    ensures |PyTake(s, n)| >= Min(n, k) && PyTake(s, n)[..Min(n, k)] == s[..k][..Min(n, k)]
  {
  }

  /** The positively scored terms, stably ordered by descending score:
      each of them exactly once. */
  function Matched(scored: seq<Scored>): (r: seq<Scored>)
    ensures SortedDesc(r, ScoreKey)
    ensures |r| == |Filter(scored, Positive)| && multiset(r) == multiset(Filter(scored, Positive))
    ensures forall x :: x in r ==> x in scored && x.score > 0
  {
    var positive := Filter(scored, Positive);
    SortDescSorted(positive, ScoreKey);
    SortDescMembers(positive, ScoreKey);
    SortDesc(positive, ScoreKey)
  }

  /** `list.sort` is stable: matched terms of equal score keep their
      glossary order. */
  lemma MatchedStable(scored: seq<Scored>, score: int)
    ensures Filter(Matched(scored), SameKey(ScoreKey, (score, 0))) ==
      Filter(Filter(scored, Positive), SameKey(ScoreKey, (score, 0)))
  {
    SortDescStable(Filter(scored, Positive), ScoreKey, (score, 0));
  }

  lemma TakeKeeps(filled: seq<Scored>, selected: seq<Scored>)
    requires |selected| <= |filled| && selected == filled[..|selected|]
    requires SortedDesc(filled, ScoreKey)
    ensures SortedDesc(selected, ScoreKey)
    ensures forall x :: x in selected ==> x in filled
  {
    assert forall i :: 0 <= i < |selected| ==> selected[i] == filled[i];
  }

  lemma FilledSorted(matched: seq<Scored>, filled: seq<Scored>)
    requires SortedDesc(matched, ScoreKey)
    requires forall x :: x in matched ==> x.score > 0
    requires |filled| >= |matched| && filled[..|matched|] == matched
    requires forall i :: |matched| <= i < |filled| ==> filled[i].score == 0
    ensures SortedDesc(filled, ScoreKey)
    ensures forall x :: x in filled ==> x in matched || x.score == 0
  {
    forall x | x in filled
      ensures x in matched || x.score == 0
    {
      var i :| 0 <= i < |filled| && filled[i] == x;
      if i < |matched| {
        assert matched[i] == x;
      }
    }
    forall i, j | 0 <= i < j < |filled|
      ensures KeyGe(ScoreKey(filled[i]), ScoreKey(filled[j]))
    {
      if j < |matched| {
        assert filled[i] == matched[i] && filled[j] == matched[j];
      } else if i < |matched| {
        assert filled[i] == matched[i];
        assert matched[i] in matched;
      }
    }
  }

  function ScoredLines(s: seq<Scored>): (r: seq<string>)
    ensures |r| == |s|
  {
    seq(|s|, i requires 0 <= i < |s| => GlossaryLine(s[i].eng, s[i].heb))
  }

  /** `build_relevant_glossary_section`. */
  function BuildRelevantGlossarySection(g: seq<(string, string)>, source: string, maxTerms: int): (r: string)
    ensures |g| == 0 ==> r == ""
    ensures |g| > 0 && |source| == 0 ==> r == BuildGlossarySection(g)
    ensures |g| > 0 ==> r != ""
  {
    if |g| == 0 then ""
    else if |source| == 0 then BuildGlossarySection(g)
    else
      var selected := SelectRelevantTerms(g, source, maxTerms);
      if |selected| == 0 then BuildGlossarySection(g)
      else
        JoinNonEmpty(ScoredLines(selected));
        Join("\n", ScoredLines(selected))
  }

  /** With terms selected, the section lists at most `maxTerms` of them, a
      substring match (score 10) never after a prefix match (score 5). */
  lemma RelevantSectionShape(g: seq<(string, string)>, source: string, maxTerms: nat)
    requires |g| > 0 && |source| > 0
    requires |SelectRelevantTerms(g, source, maxTerms)| > 0
    ensures var s := SelectRelevantTerms(g, source, maxTerms);
      BuildRelevantGlossarySection(g, source, maxTerms) == Join("\n", ScoredLines(s))
      && |s| <= maxTerms
      && forall i, j :: 0 <= i < j < |s| && s[j].score == 10 ==> s[i].score == 10
  {
    var s := SelectRelevantTerms(g, source, maxTerms);
    forall i, j | 0 <= i < j < |s| && s[j].score == 10
      ensures s[i].score == 10
    {
      assert KeyGe(ScoreKey(s[i]), ScoreKey(s[j]));
      assert s[i] in s;
    }
  }

  // --------------------------------------------------------------- truncation

  /** The sentence separators, in the order they are tried. */
  const SentenceSeps: seq<string> := [". ", "! ", "? ", ".\n", "!\n", "?\n", "\n"]

  /** The characters a sentence boundary starts with. */
  predicate BoundaryMark(c: char) {
    c == '.' || c == '!' || c == '?' || c == '\n'
  }

  /** The first separator, in list order, whose last occurrence in
      `truncated` lies at or after `half`; its position. */
  function SentenceCut(truncated: string, seps: seq<string>, half: int): (r: Option<int>)
    requires forall k :: 0 <= k < |seps| ==> |seps[k]| > 0
    ensures r.Some? ==> half <= r.value < |truncated|
    ensures r.Some? ==> exists k :: 0 <= k < |seps| && r.value == RFind(truncated, seps[k])
    ensures r.None? ==> forall k :: 0 <= k < |seps| ==> RFind(truncated, seps[k]) < half
    decreases |seps|
  {
    if |seps| == 0 then None
    else
      var pos := RFind(truncated, seps[0]);
      if pos >= half then Some(pos)
      else
        var r := SentenceCut(truncated, seps[1..], half);
        assert forall k :: 1 <= k < |seps| ==> seps[k] == seps[1..][k - 1];
        r
  }

  /** The cut is the rightmost occurrence of the first separator, in list
      order, whose rightmost occurrence reaches `half`: a later separator
      is looked at only when every earlier one falls short. */
  lemma {:induction false} SentenceCutFirst(truncated: string, seps: seq<string>, half: int, k: nat)
    requires forall j :: 0 <= j < |seps| ==> |seps[j]| > 0
    requires k < |seps| && RFind(truncated, seps[k]) >= half
    requires forall j :: 0 <= j < k ==> RFind(truncated, seps[j]) < half
    ensures SentenceCut(truncated, seps, half) == Some(RFind(truncated, seps[k]))
    decreases k
  {
    if k > 0 {
      SentenceCutFirst(truncated, seps[1..], half, k - 1);
    }
  }

  /** `r` is a prefix of `text` of at most `maxChars` characters, or such a
      prefix followed by `...`. */
  predicate IsTruncation(text: string, r: string, maxChars: int) {
    (|r| <= maxChars && StartsWith(text, r))
    || (|r| >= 3 && r[|r| - 3..] == "..." && |r| - 3 <= maxChars && StartsWith(text, r[..|r| - 3]))
  }

  lemma StrippedPrefix(text: string, p: string, maxChars: int)
    requires StartsWith(text, p)
    ensures |p| <= maxChars ==> IsTruncation(text, RStrip(p), maxChars)
    ensures |p| <= maxChars ==> IsTruncation(text, RStrip(p) + "...", maxChars)
  {
    var q := RStrip(p);
    PrefixShorter(text, p, q);
    DotsSplit(q);
  }

  lemma PrefixShorter(text: string, p: string, q: string)
    requires StartsWith(text, p) && |q| <= |p| && q == p[..|q|]
    ensures StartsWith(text, q)
  {
  }

  lemma DotsSplit(q: string)
    ensures var r := q + "...";
      |r| >= 3 && r[|r| - 3..] == "..." && r[..|r| - 3] == q
  {
  }

  /** A pattern that starts with neither a space nor a line break does not
      occur in a text made of those. */
  lemma RFindMissingHead(s: string, p: string)
    requires forall i :: 0 <= i < |s| ==> s[i] == ' ' || s[i] == '\n'
    requires |p| > 0 && p[0] != ' ' && p[0] != '\n'
    ensures RFind(s, p) == -1
  {
    OccursHead(s, p, RFind(s, p));
  }

  /** An occurrence starts with the pattern's first character. */
  lemma OccursHead(s: string, p: string, r: int)
    requires |p| > 0
    ensures 0 <= r && OccursAt(s, p, r) ==> r < |s| && s[r] == p[0]
  {
    if 0 <= r && OccursAt(s, p, r) {
      assert s[r..r + |p|][0] == s[r];
    }
  }

  /** The text kept for a cut found in the first `maxChars` characters:
      through the boundary when there is one, else up to the last space at
      or after the half (or all of them) followed by `...`. */
  function CutAt(text: string, maxChars: int, cut: Option<int>): (r: string)
    ensures maxChars >= 0 && (cut.Some? ==> 0 <= cut.value < maxChars) ==> IsTruncation(text, r, maxChars)
  {
    match cut
    case Some(pos) =>
      var p := PyTake(text, pos + 1);
      StrippedPrefix(text, p, maxChars);
      RStrip(p)
    case None =>
      var truncated := PyTake(text, maxChars);
      var spacePos := RFind(truncated, " ");
      var p := if spacePos >= maxChars / 2 then PyTake(text, spacePos) else truncated;
      StrippedPrefix(text, p, maxChars);
      RStrip(p) + "..."
  }

  /** `_smart_truncate`. */
  function SmartTruncate(text: string, maxChars: int): (r: string)
    ensures |text| <= maxChars ==> r == text
    ensures |text| > maxChars >= 0 ==> IsTruncation(text, r, maxChars)
  {
    if |text| <= maxChars then text
    else CutAt(text, maxChars, SentenceCut(PyTake(text, maxChars), SentenceSeps, maxChars / 2))
  }

  /** A sentence cut happens only at a boundary at or after `maxChars / 2`,
      and keeps the text through the boundary's punctuation or line break. */
  lemma SentenceCutShape(text: string, maxChars: nat)
    requires |text| > maxChars
    requires SentenceCut(text[..maxChars], SentenceSeps, maxChars / 2).Some?
    ensures var pos := SentenceCut(text[..maxChars], SentenceSeps, maxChars / 2).value;
      maxChars / 2 <= pos < maxChars
      && BoundaryMark(text[pos])
      && SmartTruncate(text, maxChars) == RStrip(text[..pos + 1])
  {
    SentenceSepsShape();
    var truncated := text[..maxChars];
    var pos := SentenceCut(truncated, SentenceSeps, maxChars / 2).value;
    BoundaryChar(truncated, SentenceSeps, maxChars / 2);
    var k :| 0 <= k < |SentenceSeps| && truncated[pos] == SentenceSeps[k][0];
    assert text[pos] == truncated[pos];
    SmartTruncateAtCut(text, maxChars, pos);
  }

  /** A cut is at the first character of one of the separators. */
  lemma BoundaryChar(truncated: string, seps: seq<string>, half: nat)
    requires forall k :: 0 <= k < |seps| ==> |seps[k]| > 0
    requires SentenceCut(truncated, seps, half).Some?
    ensures var pos := SentenceCut(truncated, seps, half).value;
      exists k :: 0 <= k < |seps| && truncated[pos] == seps[k][0]
  {
    var pos := SentenceCut(truncated, seps, half).value;
    var k :| 0 <= k < |seps| && pos == RFind(truncated, seps[k]);
    assert OccursAt(truncated, seps[k], pos);
    assert truncated[pos..pos + |seps[k]|][0] == truncated[pos];
  }

  /** Every separator is one punctuation mark or line break, possibly
      followed by more. */
  lemma SentenceSepsShape()
    ensures forall k :: 0 <= k < |SentenceSeps| ==>
      |SentenceSeps[k]| >= 1 && BoundaryMark(SentenceSeps[k][0])
  {
  }

  /** Without a sentence boundary in the second half of the window, the
      text is cut at the window's last space when that lies in the second
      half, else at the window's end, and `...` follows: never empty. */
  lemma SmartTruncateFallback(text: string, maxChars: nat)
    requires |text| > maxChars
    requires SentenceCut(text[..maxChars], SentenceSeps, maxChars / 2).None?
    ensures var sp := RFind(text[..maxChars], " ");
      var end := if sp >= maxChars / 2 then sp else maxChars;
      0 <= end <= maxChars && SmartTruncate(text, maxChars) == RStrip(text[..end]) + "..."
    ensures |SmartTruncate(text, maxChars)| >= 3
  {
    PyTakeSlice(text, maxChars);
    SmartTruncateIsCut(text, maxChars);
    var sp := RFind(text[..maxChars], " ");
    if sp >= maxChars / 2 {
      PyTakeSlice(text, sp);
    }
  }

  /** A sentence cut keeps the text through the boundary right-stripped, so
      a window of spaces ending in a line break leaves nothing. */
  lemma SmartTruncateMayBeEmpty()
    ensures SmartTruncate("   \nabc", 4) == ""
  {
    var text := "   \nabc";
    assert text[..4] == "   \n";
    BlankWindowCut();
    SmartTruncateAtCut(text, 4, 3);
    assert text[..3 + 1] == "   \n";
    BlankWindowStrips();
  }

  lemma BlankWindowCut()
    ensures SentenceCut("   \n", SentenceSeps, 2) == Some(3)
  {
    var w := "   \n";
    assert forall i :: 0 <= i < |w| ==> w[i] == ' ' || w[i] == '\n';
    RFindMissingHead(w, ". ");
    RFindMissingHead(w, "! ");
    RFindMissingHead(w, "? ");
    RFindMissingHead(w, ".\n");
    RFindMissingHead(w, "!\n");
    RFindMissingHead(w, "?\n");
    LastCharFound(w, '\n');
    SentenceCutFirst(w, SentenceSeps, 2, 6);
  }

  lemma LastCharFound(s: string, c: char)
    requires |s| > 0 && s[|s| - 1] == c
    ensures RFind(s, [c]) == |s| - 1
  {
    assert s[|s| - 1..|s|] == [c];
  }

  lemma BlankWindowStrips()
    ensures RStrip("   \n") == ""
  {
    assert IsSpace('\n') && IsSpace(' ');
    assert "   \n"[..3] == "   ";
    assert "   "[..2] == "  ";
    assert "  "[..1] == " ";
    assert " "[..0] == "";
  }

  lemma SmartTruncateIsCut(text: string, maxChars: int)
    requires |text| > maxChars
    ensures SmartTruncate(text, maxChars)
      == CutAt(text, maxChars, SentenceCut(PyTake(text, maxChars), SentenceSeps, maxChars / 2))
  {
  }

  lemma CutAtBoundary(text: string, maxChars: int, pos: int)
    ensures CutAt(text, maxChars, Some(pos)) == RStrip(PyTake(text, pos + 1))
  {
  }

  /** Once a sentence boundary is found, the truncation is the text
      through it, right-stripped. */
  lemma SmartTruncateAtCut(text: string, maxChars: nat, pos: int)
    requires |text| > maxChars
    requires SentenceCut(text[..maxChars], SentenceSeps, maxChars / 2) == Some(pos)
    ensures SmartTruncate(text, maxChars) == RStrip(text[..pos + 1])
  {
    PyTakeSlice(text, maxChars);
    PyTakeSlice(text, pos + 1);
    SmartTruncateIsCut(text, maxChars);
    CutAtBoundary(text, maxChars, pos);
  }

  // ------------------------------------------------------------------ recency

  const SecondsPerDay := 86400

  /** `_recency_bonus`: whole days of age (floored, as `timedelta.days`),
      banded 3 / 2 / 1 / 0. */
  function RecencyBonus(createdAt: Option<int>, now: int): (r: int)
    ensures createdAt.None? ==> r == 0
    ensures 0 <= r <= 3
  {
    match createdAt
    case None => 0
    case Some(c) =>
      var ageDays := (now - c) / SecondsPerDay;
      if ageDays <= 7 then 3
      else if ageDays <= 30 then 2
      else if ageDays <= 90 then 1
      else 0
  }

  /** The bands by age in seconds: under 8 full days (a future time
      included) earns 3, under 31 days 2, under 91 days 1, older 0; so a
      bonus changes only where a band ends. */
  lemma RecencyBands(c: int, now: int)
    ensures now - c < 8 * SecondsPerDay ==> RecencyBonus(Some(c), now) == 3
    ensures 8 * SecondsPerDay <= now - c < 31 * SecondsPerDay ==> RecencyBonus(Some(c), now) == 2
    ensures 31 * SecondsPerDay <= now - c < 91 * SecondsPerDay ==> RecencyBonus(Some(c), now) == 1
    ensures 91 * SecondsPerDay <= now - c ==> RecencyBonus(Some(c), now) == 0
  {
    DaysAtMost(now - c, 7);
    DaysAtMost(now - c, 30);
    DaysAtMost(now - c, 90);
  }

  /** Whole days of age are at most `k` exactly below `k + 1` days. */
  lemma DaysAtMost(age: int, k: int)
    ensures age / SecondsPerDay <= k <==> age < (k + 1) * SecondsPerDay
  {
    var q := age / SecondsPerDay;
    assert age == q * SecondsPerDay + age % SecondsPerDay;
    if q <= k {
      assert q * SecondsPerDay <= k * SecondsPerDay;
    } else {
      assert (k + 1) * SecondsPerDay <= q * SecondsPerDay;
    }
  }

  /** The two sides of a band boundary: 7 days and 86399 seconds old still
      earns 3, 8 days earns 2. */
  lemma RecencyBoundary(now: int)
    ensures RecencyBonus(Some(now - 8 * SecondsPerDay + 1), now) == 3
    ensures RecencyBonus(Some(now - 8 * SecondsPerDay), now) == 2
    ensures RecencyBonus(Some(now - 91 * SecondsPerDay + 1), now) == 1
    ensures RecencyBonus(Some(now - 91 * SecondsPerDay), now) == 0
  {
    RecencyBands(now - 8 * SecondsPerDay + 1, now);
    RecencyBands(now - 8 * SecondsPerDay, now);
    RecencyBands(now - 91 * SecondsPerDay + 1, now);
    RecencyBands(now - 91 * SecondsPerDay, now);
  }

  /** An older example never earns a larger bonus than a newer one. */
  lemma RecencyMonotone(older: int, newer: int, now: int)
    requires older <= newer
    ensures RecencyBonus(Some(older), now) <= RecencyBonus(Some(newer), now)
  {
    DivMonotone(now - newer, now - older, SecondsPerDay);
  }

  lemma DivMonotone(x: int, y: int, d: int)
    requires x <= y && d > 0
    ensures x / d <= y / d
  {
    var qx, qy := x / d, y / d;
    assert qx * d <= x;
    assert y < (qy + 1) * d;
    MulLessCancel(qx, qy + 1, d);
  }
}
