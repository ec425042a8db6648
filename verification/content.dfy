/** `ContentGenerator`: original Hebrew posts and threads written from an
    English source. The completion client is the sequence of its replies
    (`Retry.Reply`), the MD5 digest prefix of the source is the parameter
    `sourceHash`, and Python's `str.isalpha` is the parameter `alpha`. The
    prompt texts, the glossary and the temperatures only shape the request
    and are not modelled. */
module ContentGen {
  import opened Base
  import opened Text
  import opened Hebrew
  import opened Retry

  /* ---------------- Source type ---------------- */

  /** The kinds `_detect_source_type` tells apart; `Social` is its
      'tweet'. */
  datatype SourceType = Social | Headline | Earnings | Funding | Article

  function SourceTypeName(t: SourceType): string {
    match t
    case Social => "tweet"
    case Headline => "headline"
    case Earnings => "earnings"
    case Funding => "funding"
    case Article => "article"
  }

  const EarningsSignals: seq<string> :=
    ["revenue", "earnings", "eps", "quarter", "q1", "q2", "q3", "q4",
     "profit", "loss", "guidance", "beat", "miss"]

  const FundingSignals: seq<string> :=
    ["raised", "funding", "series", "valuation", "round", "investment", "seed", "led by"]

  /** How many of `signals` occur, as substrings, in the lowercased text. */
  function SignalCount(text: string, signals: seq<string>): (n: nat)
    ensures n <= |signals|
  {
    CountIf(signals, (sig: string) => Contains(Lower(text), sig))
  }

  /** `_detect_source_type` as written: the 50-word test comes before the
      20-word one, so a short text is always a 'tweet'. */
  function DetectSourceTypeAsWritten(text: string): (r: SourceType)
    ensures r != Headline
    ensures |text| == 0 ==> r == Article
    ensures r == Social <==> |text| > 0 && |Words(text)| <= 50
  {
    if |text| == 0 then Article
    else if |Words(text)| <= 50 then Social
    else if |Words(text)| <= 20 then Headline
    else if SignalCount(text, EarningsSignals) >= 3 then Earnings
    else if SignalCount(text, FundingSignals) >= 2 then Funding
    else Article
  }

  /** `_detect_source_type` with the word-count tests in the intended
      order: up to 20 words is a headline, up to 50 a social post. */
  function DetectSourceType(text: string): (r: SourceType)
    ensures |text| == 0 ==> r == Article
    ensures r == Headline <==> |text| > 0 && |Words(text)| <= 20
    ensures r == Social <==> |text| > 0 && 20 < |Words(text)| <= 50
    ensures r == Earnings <==> |text| > 0 && |Words(text)| > 50 && SignalCount(text, EarningsSignals) >= 3
    ensures r == Funding <==> |text| > 0 && |Words(text)| > 50 && SignalCount(text, EarningsSignals) < 3
                              && SignalCount(text, FundingSignals) >= 2
  {
    if |text| == 0 then Article
    else if |Words(text)| <= 20 then Headline
    else if |Words(text)| <= 50 then Social
    else if SignalCount(text, EarningsSignals) >= 3 then Earnings
    else if SignalCount(text, FundingSignals) >= 2 then Funding
    else Article
  }

  /** The two orders agree on every text of more than 20 words, and
      differ exactly on the non-empty texts of at most 20. */
  lemma DetectSourceTypeAgreement(text: string)
    ensures DetectSourceTypeAsWritten(text) == DetectSourceType(text) <==> |text| == 0 || |Words(text)| > 20
  {
  }

  /** A one-word headline: the written order calls it a 'tweet'. */
  lemma HeadlineMisdetected()
    ensures DetectSourceTypeAsWritten("Fed") == Social
    ensures DetectSourceType("Fed") == Headline
  {
    assert |Words("Fed")| == 1 by {
      TokenCount("Fed", NotSpace);
      assert "Fed"[1..] == "ed" && "ed"[1..] == "d" && "d"[1..] == "";
    }
  }

  /** `Contains` survives appending text. */
  lemma ContainsAppend(s: string, t: string, p: string)
    requires Contains(s, p)
    ensures Contains(s + t, p)
  {
    var i :| 0 <= i <= |s| && OccursAt(s, p, i);
    assert (s + t)[i..i + |p|] == s[i..i + |p|];
    assert OccursAt(s + t, p, i);
  }

  lemma {:induction false} SignalCountAppend(s: string, t: string, signals: seq<string>)
    ensures SignalCount(s + t, signals) >= SignalCount(s, signals)
    decreases |signals|
  {
    LowerAppend(s, t);
    if |signals| > 0 {
      SignalCountAppend(s, t, signals[1..]);
      if Contains(Lower(s), signals[0]) {
        ContainsAppend(Lower(s), Lower(t), signals[0]);
      }
    }
  }

  /** More text never loses a signal: a long earnings report stays one
      whatever is appended to it. */
  lemma EarningsSurvivesAppend(s: string, t: string)
    requires DetectSourceType(s) == Earnings
    requires |Words(s + t)| > 50
    ensures DetectSourceType(s + t) == Earnings
  {
    SignalCountAppend(s, t, EarningsSignals);
  }

  /* ---------------- Angles ---------------- */

  /** One entry of `ANGLES`, `caption` being its label; the instruction
      text and the temperature offset only shape the request. */
  datatype Angle = Angle(name: string, caption: string)

  const Angles: seq<Angle> :=
    [Angle("news", "News/Breaking"), Angle("educational", "Educational"), Angle("opinion", "Opinion/Analysis")]

  /** The angles `generate_post` writes: those named in `angles` (all of
      them when it is missing or empty), in `ANGLES` order, cut by the
      Python slice `[:min(numVariants, 3)]`, which counts from the end
      when negative. */
  function SelectAngles(numVariants: int, angles: Option<seq<string>>): (r: seq<Angle>)
    ensures |r| <= |Angles|
    ensures numVariants >= 0 ==> |r| <= numVariants
    ensures Subsequence(r, Angles)
    ensures angles.Some? && |angles.value| > 0 ==> forall a :: a in r ==> a.name in angles.value
    ensures !(angles.Some? && |angles.value| > 0) && numVariants >= 0 ==> r == Angles[..Min(numVariants, |Angles|)]
    ensures angles.Some? && numVariants >= |Angles| ==>
      forall a :: a in Angles && a.name in angles.value ==> a in r
  {
    if angles.Some? && |angles.value| > 0 then
      TakeKept(Angles, (a: Angle) => a.name in angles.value, Min(numVariants, |Angles|))
    else
      FilterAll(Angles, (a: Angle) => true);
      TakeKept(Angles, (a: Angle) => true, Min(numVariants, |Angles|))
  }

  /** The elements `keep` accepts, in order, cut by the Python slice
      `[:n]`. */
  function TakeKept<T>(all: seq<T>, keep: T -> bool, n: int): (r: seq<T>)
    ensures |r| <= |all|
    ensures n >= 0 ==> |r| <= n
    ensures Subsequence(r, all)
    ensures forall a :: a in r ==> keep(a)
    ensures n >= |all| ==> forall a :: a in all && keep(a) ==> a in r
    ensures r == PyTake(Filter(all, keep), n)
  {
    var kept := Filter(all, keep);
    FilterSubsequence(all, keep);
    PrefixSubsequence(PyTake(kept, n), kept);
    SubsequenceTrans(PyTake(kept, n), kept, all);
    PyTake(kept, n)
  }

  /** A filter that keeps everything keeps the sequence. */
  lemma {:induction false} FilterAll<T>(s: seq<T>, keep: T -> bool)
    requires forall a :: keep(a)
    ensures Filter(s, keep) == s
    decreases |s|
  {
    if |s| > 0 {
      FilterAll(s[1..], keep);
    }
  }

  /** A negative count drops angles from the end: `num_variants=-1`
      writes the news and educational variants. */
  lemma NegativeCountDropsFromEnd()
    ensures SelectAngles(-1, None) == [Angles[0], Angles[1]]
  {
  }

  /** `next((a for a in ANGLES if a['name'] == angle), ANGLES[0])`. */
  function AngleFor(name: string): (r: Angle)
    ensures r in Angles
    ensures (exists a :: a in Angles && a.name == name) ==> r.name == name
    ensures (forall a :: a in Angles ==> a.name != name) ==> r == Angles[0]
  {
    match FindIndex(Angles, (a: Angle) => a.name == name)
    case Some(i) => Angles[i]
    case None => Angles[0]
  }

  /** `max(2, min(num_tweets, 5))`: the thread length the prompt asks for. */
  function ThreadSize(numTweets: int): (r: int)
    ensures 2 <= r <= 5
    ensures 2 <= numTweets <= 5 ==> r == numTweets
    ensures numTweets < 2 ==> r == 2
    ensures numTweets > 5 ==> r == 5
  {
    Max(2, Min(numTweets, 5))
  }

  /* ---------------- Sentence splitting ---------------- */

  predicate IsTerminal(c: char) {
    c == '.' || c == '!' || c == '?'
  }

  /** `re.split(r'(?<=[.!?])\s+', s)` cuts at `i`: a whitespace character
      right after sentence punctuation. */
  predicate BreakAt(s: string, i: int) {
    0 < i < |s| && IsSpace(s[i]) && IsTerminal(s[i - 1])
  }

  /** The first cut at or after `from`. */
  function FirstBreak(s: string, from: nat): (r: Option<nat>)
    ensures r.Some? ==> from <= r.value < |s| && BreakAt(s, r.value)
    ensures forall i :: from <= i < |s| && (r.None? || i < r.value) ==> !BreakAt(s, i)
    decreases |s| - from
  {
    if from >= |s| then None
    else if BreakAt(s, from) then Some(from)
    else FirstBreak(s, from + 1)
  }

  /** The end of the whitespace run starting at `i` (the greedy `\s+`). */
  function RunEnd(s: string, i: nat): (j: nat)
    requires i <= |s|
    ensures i <= j <= |s|
    ensures forall k :: i <= k < j ==> IsSpace(s[k])
    ensures j == |s| || !IsSpace(s[j])
    decreases |s| - i
  {
    if i < |s| && IsSpace(s[i]) then RunEnd(s, i + 1) else i
  }

  predicate AllSpace(g: string) {
    forall k :: 0 <= k < |g| ==> IsSpace(g[k])
  }

  /** The pieces with the gaps between them put back. */
  function Weave(pieces: seq<string>, gaps: seq<string>): string
    requires |pieces| == |gaps| + 1
    decreases |gaps|
  {
    if |gaps| == 0 then pieces[0] else pieces[0] + gaps[0] + Weave(pieces[1..], gaps[1..])
  }

  /** The sentences of `s` and the whitespace gaps the split removes. */
  function SentencesAndGaps(s: string): (r: (seq<string>, seq<string>))
    ensures |r.0| == |r.1| + 1
    ensures Weave(r.0, r.1) == s
    ensures forall k :: 0 <= k < |r.1| ==> |r.1[k]| > 0 && AllSpace(r.1[k])
    ensures forall k :: 0 <= k < |r.1| ==> |r.0[k]| > 0 && IsTerminal(r.0[k][|r.0[k]| - 1])
    ensures forall k, i :: 0 <= k < |r.0| ==> !BreakAt(r.0[k], i)
    decreases |s|
  {
    match FirstBreak(s, 0)
    case None => ([s], [])
    case Some(i) =>
      var j := RunEnd(s, i);
      var rest := SentencesAndGaps(s[j..]);
      HeadNoBreak(s, i);
      ConsShape(s, i, j, rest.0, rest.1);
      ([s[..i]] + rest.0, [s[i..j]] + rest.1)
  }

  /** The text before the first cut has no cut of its own. */
  lemma HeadNoBreak(s: string, i: nat)
    requires i <= |s| && forall m :: 0 <= m < i ==> !BreakAt(s, m)
    ensures forall m :: !BreakAt(s[..i], m)
  {
    forall m | BreakAt(s[..i], m)
      ensures false
    {
      assert s[..i][m] == s[m] && s[..i][m - 1] == s[m - 1];
      assert BreakAt(s, m);
    }
  }

  /** The text before the first cut and the whitespace run at the cut, put
      in front of the split of what follows, split the whole text. */
  lemma ConsShape(s: string, i: nat, j: nat, pieces: seq<string>, gaps: seq<string>)
    requires 0 < i < j <= |s| && IsTerminal(s[i - 1])
    requires forall k :: i <= k < j ==> IsSpace(s[k])
    requires forall m :: !BreakAt(s[..i], m)
    requires |pieces| == |gaps| + 1 && Weave(pieces, gaps) == s[j..]
    requires forall k :: 0 <= k < |gaps| ==> |gaps[k]| > 0 && AllSpace(gaps[k])
    requires forall k :: 0 <= k < |gaps| ==> |pieces[k]| > 0 && IsTerminal(pieces[k][|pieces[k]| - 1])
    requires forall k, m :: 0 <= k < |pieces| ==> !BreakAt(pieces[k], m)
    ensures var ps, gs := [s[..i]] + pieces, [s[i..j]] + gaps;
      && |ps| == |gs| + 1
      && Weave(ps, gs) == s
      && (forall k :: 0 <= k < |gs| ==> |gs[k]| > 0 && AllSpace(gs[k]))
      && (forall k :: 0 <= k < |gs| ==> |ps[k]| > 0 && IsTerminal(ps[k][|ps[k]| - 1]))
      && (forall k, m :: 0 <= k < |ps| ==> !BreakAt(ps[k], m))
  {
    var ps, gs := [s[..i]] + pieces, [s[i..j]] + gaps;
    assert ps[1..] == pieces && gs[1..] == gaps;
    assert s == s[..i] + s[i..j] + s[j..];
  }

  /** `re.split(r'(?<=[.!?])\s+', s)`. */
  function SplitSentences(s: string): (r: seq<string>)
    ensures |r| >= 1
  {
    SentencesAndGaps(s).0
  }

  /** Non-empty, with no whitespace at either end: what `strip()`
      leaves of a text that is not blank (see `StripKeeps`). */
  predicate Trimmed(x: string) {
    |x| > 0 && !IsSpace(x[0]) && !IsSpace(x[|x| - 1])
  }

  /** Sentences a text can be built from: non-empty, without surrounding
      whitespace or an inner cut, all but the last ending in punctuation. */
  predicate WellFormedSentences(ps: seq<string>) {
    && |ps| >= 1
    && (forall k :: 0 <= k < |ps| ==> Trimmed(ps[k]))
    && (forall k, i :: 0 <= k < |ps| && 0 <= i < |ps[k]| ==> !BreakAt(ps[k], i))
    && (forall k :: 0 <= k < |ps| - 1 ==> IsTerminal(ps[k][|ps[k]| - 1]))
  }

  /** A join of non-empty parts starts with the first part and ends with
      the last. */
  lemma {:induction false} JoinEnds(sep: string, ps: seq<string>)
    requires |ps| >= 1 && forall k :: 0 <= k < |ps| ==> |ps[k]| > 0
    ensures |Join(sep, ps)| >= |ps[0]| && Join(sep, ps)[..|ps[0]|] == ps[0]
    ensures Join(sep, ps)[|Join(sep, ps)| - 1] == ps[|ps| - 1][|ps[|ps| - 1]| - 1]
    decreases |ps|
  {
    if |ps| > 1 {
      JoinEnds(sep, ps[1..]);
    }
  }

  /** In `p + " " + t`, with `p` free of cuts and ending in punctuation
      and `t` starting with a visible character, the first cut is the
      space, and the whitespace run is that one space. */
  lemma CutAfterFirst(p: string, t: string)
    requires |p| > 0 && IsTerminal(p[|p| - 1]) && forall i :: 0 <= i < |p| ==> !BreakAt(p, i)
    requires |t| > 0 && !IsSpace(t[0])
    ensures FirstBreak(p + " " + t, 0) == Some(|p|)
    ensures RunEnd(p + " " + t, |p|) == |p| + 1
  {
    var s := p + " " + t;
    var n := |p|;
    assert BreakAt(s, n);
    forall m | 0 <= m < n
      ensures !BreakAt(s, m)
    {
      if 0 < m {
        assert s[m] == p[m] && s[m - 1] == p[m - 1];
        assert !BreakAt(p, m);
      }
    }
    assert s[n + 1] == t[0];
  }

  lemma SplitSentencesStep(s: string, i: nat)
    requires FirstBreak(s, 0) == Some(i)
    ensures SplitSentences(s) == [s[..i]] + SplitSentences(s[RunEnd(s, i)..])
  {
  }

  /** The sole piece of a text without cuts is the text. */
  lemma NoCutOnePiece(p: string)
    requires forall i :: 0 <= i < |p| ==> !BreakAt(p, i)
    ensures SplitSentences(p) == [p]
  {
  }

  /** What the first of several well-formed sentences and the join of
      the others satisfy. */
  lemma WellFormedHead(ps: seq<string>)
    requires WellFormedSentences(ps) && |ps| > 1
    ensures |ps[0]| > 0 && IsTerminal(ps[0][|ps[0]| - 1])
    ensures forall i :: 0 <= i < |ps[0]| ==> !BreakAt(ps[0], i)
    ensures WellFormedSentences(ps[1..])
    ensures var t := Join(" ", ps[1..]); |t| > 0 && !IsSpace(t[0]) && Join(" ", ps) == ps[0] + " " + t
  {
    JoinEnds(" ", ps[1..]);
  }

  lemma SliceAround(p: string, t: string)
    ensures (p + " " + t)[..|p|] == p && (p + " " + t)[|p| + 1..] == t
  {
  }

  /** Joining well-formed sentences with single spaces and splitting
      again gives the sentences back. */
  lemma {:induction false} SplitSentencesJoin(ps: seq<string>)
    requires WellFormedSentences(ps)
    ensures SplitSentences(Join(" ", ps)) == ps
    decreases |ps|
  {
    if |ps| == 1 {
      NoCutOnePiece(ps[0]);
    } else {
      SplitJoinStep(ps);
      SplitSentencesJoin(ps[1..]);
      HeadTail(ps);
    }
  }

  /** The first of several joined sentences is cut off at its end. */
  lemma SplitJoinStep(ps: seq<string>)
    requires WellFormedSentences(ps) && |ps| > 1
    ensures WellFormedSentences(ps[1..])
    ensures SplitSentences(Join(" ", ps)) == [ps[0]] + SplitSentences(Join(" ", ps[1..]))
  {
    var t := Join(" ", ps[1..]);
    WellFormedHead(ps);
    CutAfterFirst(ps[0], t);
    SplitSentencesStep(ps[0] + " " + t, |ps[0]|);
    SliceAround(ps[0], t);
  }

  /** The labelled digest of more than five sentences: the first three
      and the last two. */
  function Labelled(ss: seq<string>): (r: string)
    requires |ss| > 5
    ensures StartsWith(r, "[OPENING]\n" + ss[0])
    ensures EndsWith(r, ss[|ss| - 1])
    ensures Contains(r, "\n\n[CLOSING]\n")
  {
    var opening := Join(" ", ss[..3]);
    var closing := Join(" ", ss[|ss| - 2..]);
    var r := "[OPENING]\n" + opening + "\n\n[CLOSING]\n" + closing;
    assert StartsWith(r, "[OPENING]\n" + ss[0]) by {
      OpeningStartsWithFirst(ss[..3]);
      assert r[..10 + |ss[0]|] == ("[OPENING]\n" + opening)[..10 + |ss[0]|];
    }
    assert EndsWith(r, ss[|ss| - 1]) by {
      JoinTwoEnds(ss[|ss| - 2..]);
    }
    assert OccursAt(r, "\n\n[CLOSING]\n", 10 + |opening|) by {
      assert r[10 + |opening|..10 + |opening| + 12] == "\n\n[CLOSING]\n";
    }
    r
  }

  /** `_preprocess_source`: a short (or empty) source is kept; a long one
      of at most five sentences is cut to `maxChars`; a longer one becomes
      its first three and last two sentences under labels. */
  function PreprocessSource(text: string, maxChars: int): (r: string)
    ensures |text| == 0 || |text| <= maxChars ==> r == text
    ensures var ss := SplitSentences(Strip(text));
      |text| > 0 && |text| > maxChars && |ss| <= 5 ==>
        |r| <= |text| && r == text[..|r|] && (maxChars >= 0 ==> |r| == maxChars)
    ensures var ss := SplitSentences(Strip(text));
      |text| > 0 && |text| > maxChars && |ss| > 5 ==>
        StartsWith(r, "[OPENING]\n" + ss[0]) && EndsWith(r, ss[|ss| - 1]) && Contains(r, "\n\n[CLOSING]\n")
  {
    if |text| == 0 || |text| <= maxChars then text
    else
      var ss := SplitSentences(Strip(text));
      if |ss| <= 5 then PyTake(text, maxChars) else Labelled(ss)
  }

  lemma {:induction false} OpeningStartsWithFirst(ps: seq<string>)
    requires |ps| >= 1
    ensures StartsWith(Join(" ", ps), ps[0])
    decreases |ps|
  {
    if |ps| > 1 {
      assert Join(" ", ps) == ps[0] + " " + Join(" ", ps[1..]);
    }
  }

  lemma JoinTwoEnds(ps: seq<string>)
    requires |ps| == 2
    ensures EndsWith(Join(" ", ps), ps[1])
  {
    assert Join(" ", ps) == ps[0] + " " + ps[1];
  }

  /** Whitespace-free ends make `strip()` a no-op. */
  lemma StripKeeps(s: string)
    requires Trimmed(s)
    ensures Strip(s) == s
  {
  }

  /** A long text of more than five well-formed sentences is reduced to
      exactly its first three and last two. */
  lemma PreprocessKeepsOpeningAndClosing(ps: seq<string>, maxChars: int)
    requires WellFormedSentences(ps) && |ps| > 5
    requires |Join(" ", ps)| > maxChars
    ensures PreprocessSource(Join(" ", ps), maxChars) == Labelled(ps)
    ensures Labelled(ps) == "[OPENING]\n" + Join(" ", ps[..3]) + "\n\n[CLOSING]\n" + Join(" ", ps[|ps| - 2..])
  {
    var s := Join(" ", ps);
    JoinEnds(" ", ps);
    StripKeeps(s);
    SplitSentencesJoin(ps);
  }

  /* ---------------- Posts ---------------- */

  /** What `generate_post` records about an output: whether it passes
      `validate_hebrew_output` and its `score_hebrew_quality` breakdown. */
  datatype Assessment = Assessment(valid: bool, quality: Quality)

  function Assess(content: string, alpha: char -> bool): (r: Assessment)
    ensures r.valid == ValidateHebrewOutput(content, alpha).valid
    ensures r.quality == ScoreHebrewQuality(content, alpha)
  {
    Assessment(ValidateHebrewOutput(content, alpha).valid, ScoreHebrewQuality(content, alpha))
  }

  /** `Assess` as a value, so that the loops below treat it as a black
      box. */
  function Assessor(alpha: char -> bool): (f: string -> Assessment)
    ensures forall c :: f(c) == Assess(c, alpha)
  {
    (c: string) => Assess(c, alpha)
  }

  /** One entry of `generate_post`'s result: `quality` is the
      `quality_breakdown`, whose `total` is the `quality_score`. */
  datatype Variant = Variant(angle: string, caption: string, content: string, charCount: int,
                             isValidHebrew: bool, quality: Quality, sourceHash: string)

  /** The variant written from an output. */
  function Written(a: Angle, content: string, assess: string -> Assessment, sourceHash: string): Variant {
    Variant(a.name, a.caption, content, |content|, assess(content).valid, assess(content).quality, sourceHash)
  }

  /** The variant standing for a failed call. */
  function ErrorVariant(a: Angle, e: string, sourceHash: string): Variant {
    Variant(a.name, a.caption, "Error: " + e, 0, false, Quality(0, 0, 0, 0), sourceHash)
  }

  /** What every variant of an angle looks like: either an output with
      its length and assessment, or an error with zeroes. */
  predicate WellFormedVariant(v: Variant, a: Angle, assess: string -> Assessment, sourceHash: string) {
    && v.angle == a.name && v.caption == a.caption && v.sourceHash == sourceHash
    && ((v.charCount == |v.content| && v.isValidHebrew == assess(v.content).valid
         && v.quality == assess(v.content).quality)
        || (StartsWith(v.content, "Error: ") && v.charCount == 0 && !v.isValidHebrew && v.quality == Quality(0, 0, 0, 0)))
  }

  /** One angle of `generate_post`, starting at call `k`: a second call
      is made exactly when the first output is not valid Hebrew, and the
      variant comes from the last call made. Answers the variant and the
      number of calls. */
  function WriteVariant(a: Angle, replies: seq<Reply>, k: nat, assess: string -> Assessment, sourceHash: string)
    : (r: (Variant, nat))
    ensures r.1 == 1 || r.1 == 2
    ensures r.1 == 2 <==> ReplyAt(replies, k).Ok? && !assess(ReplyAt(replies, k).content).valid
    ensures ReplyAt(replies, k + r.1 - 1).Ok? ==> r.0 == Written(a, ReplyAt(replies, k + r.1 - 1).content, assess, sourceHash)
    ensures ReplyAt(replies, k + r.1 - 1).Failed? ==> r.0 == ErrorVariant(a, ReplyAt(replies, k + r.1 - 1).error, sourceHash)
    ensures WellFormedVariant(r.0, a, assess, sourceHash)
  {
    match ReplyAt(replies, k)
    case Failed(e) => (ErrorVariant(a, e, sourceHash), 1)
    case Ok(first) =>
      if assess(first).valid then (Written(a, first, assess, sourceHash), 1)
      else match ReplyAt(replies, k + 1)
        case Failed(e) => (ErrorVariant(a, e, sourceHash), 2)
        case Ok(second) => (Written(a, second, assess, sourceHash), 2)
  }

  /** The selected angles in turn, from call `k` on: the variants and the
      number of calls. */
  function WriteVariants(sel: seq<Angle>, replies: seq<Reply>, k: nat, assess: string -> Assessment, sourceHash: string)
    : (r: (seq<Variant>, nat))
    ensures |r.0| == |sel|
    ensures |sel| <= r.1 <= 2 * |sel|
    ensures forall i :: 0 <= i < |sel| ==> WellFormedVariant(r.0[i], sel[i], assess, sourceHash)
    decreases |sel|
  {
    if |sel| == 0 then ([], 0)
    else
      var first := WriteVariant(sel[0], replies, k, assess, sourceHash);
      var rest := WriteVariants(sel[1..], replies, k + first.1, assess, sourceHash);
      ([first.0] + rest.0, first.1 + rest.1)
  }

  /** `generate_post`: nothing for a blank source, otherwise one variant
      per selected angle, in order, all carrying the source's hash; each
      is an output with its length, verdict and score, or an error. */
  function GeneratePost(source: string, numVariants: int, angles: Option<seq<string>>, replies: seq<Reply>,
                        alpha: char -> bool, sourceHash: string): (r: seq<Variant>)
    ensures IsBlank(source) ==> r == []
    ensures |r| <= |Angles|
    ensures numVariants >= 0 ==> |r| <= numVariants
    ensures !IsBlank(source) ==>
      var sel := SelectAngles(numVariants, angles);
      |r| == |sel| && forall i :: 0 <= i < |r| ==>
        && r[i].angle == sel[i].name && r[i].caption == sel[i].caption && r[i].sourceHash == sourceHash
        && ((r[i].charCount == |r[i].content| && r[i].isValidHebrew == ValidateHebrewOutput(r[i].content, alpha).valid
             && r[i].quality == ScoreHebrewQuality(r[i].content, alpha))
            || (StartsWith(r[i].content, "Error: ") && r[i].charCount == 0 && !r[i].isValidHebrew
                && r[i].quality == Quality(0, 0, 0, 0)))
  {
    if IsBlank(source) then []
    else WriteVariants(SelectAngles(numVariants, angles), replies, 0, Assessor(alpha), sourceHash).0
  }

  /** The variants written from the outputs at `k`, `k + 1`, ... for the
      angles in turn. */
  function WrittenFrom(sel: seq<Angle>, replies: seq<Reply>, k: nat, assess: string -> Assessment, sourceHash: string)
    : (r: seq<Variant>)
    requires forall j :: k <= j < k + |sel| ==> ReplyAt(replies, j).Ok?
    ensures |r| == |sel|
    ensures forall i :: 0 <= i < |sel| ==> r[i] == Written(sel[i], ReplyAt(replies, k + i).content, assess, sourceHash)
  {
    seq(|sel|, i requires 0 <= i < |sel| => Written(sel[i], ReplyAt(replies, k + i).content, assess, sourceHash))
  }

  lemma WrittenFromCons(sel: seq<Angle>, replies: seq<Reply>, k: nat, assess: string -> Assessment, sourceHash: string)
    requires |sel| > 0
    requires forall j :: k <= j < k + |sel| ==> ReplyAt(replies, j).Ok?
    ensures WrittenFrom(sel, replies, k, assess, sourceHash)
      == [Written(sel[0], ReplyAt(replies, k).content, assess, sourceHash)] + WrittenFrom(sel[1..], replies, k + 1, assess, sourceHash)
  {
    var a := WrittenFrom(sel, replies, k, assess, sourceHash);
    var b := [Written(sel[0], ReplyAt(replies, k).content, assess, sourceHash)] + WrittenFrom(sel[1..], replies, k + 1, assess, sourceHash);
    forall i | 0 < i < |sel|
      ensures a[i] == b[i]
    {
      assert sel[1..][i - 1] == sel[i] && k + 1 + (i - 1) == k + i;
    }
  }

  /** When every output is valid Hebrew the angles take one call each and
      each variant is written from its own reply. */
  lemma {:induction false} WriteVariantsAllValid(sel: seq<Angle>, replies: seq<Reply>, k: nat,
                                                 assess: string -> Assessment, sourceHash: string)
    requires forall j :: k <= j < k + |sel| ==> ReplyAt(replies, j).Ok? && assess(ReplyAt(replies, j).content).valid
    ensures WriteVariants(sel, replies, k, assess, sourceHash).1 == |sel|
    ensures WriteVariants(sel, replies, k, assess, sourceHash).0 == WrittenFrom(sel, replies, k, assess, sourceHash)
    decreases |sel|
  {
    if |sel| > 0 {
      WriteVariantsValidStep(sel, replies, k, assess, sourceHash);
      WriteVariantsAllValid(sel[1..], replies, k + 1, assess, sourceHash);
      WrittenFromCons(sel, replies, k, assess, sourceHash);
    }
  }

  /** An angle whose first output is valid Hebrew takes one call. */
  lemma WriteVariantsValidStep(sel: seq<Angle>, replies: seq<Reply>, k: nat,
                               assess: string -> Assessment, sourceHash: string)
    requires |sel| > 0 && ReplyAt(replies, k).Ok? && assess(ReplyAt(replies, k).content).valid
    ensures WriteVariants(sel, replies, k, assess, sourceHash)
      == ([Written(sel[0], ReplyAt(replies, k).content, assess, sourceHash)] + WriteVariants(sel[1..], replies, k + 1, assess, sourceHash).0,
          1 + WriteVariants(sel[1..], replies, k + 1, assess, sourceHash).1)
  {
  }

  /** With every output valid Hebrew, `generate_post` makes one call per
      angle and keeps each output as it came. */
  lemma GeneratePostAllValid(source: string, numVariants: int, angles: Option<seq<string>>, replies: seq<Reply>,
                             alpha: char -> bool, sourceHash: string)
    requires !IsBlank(source)
    requires forall j :: 0 <= j < |SelectAngles(numVariants, angles)| ==>
      ReplyAt(replies, j).Ok? && ValidateHebrewOutput(ReplyAt(replies, j).content, alpha).valid
    ensures forall i :: 0 <= i < |GeneratePost(source, numVariants, angles, replies, alpha, sourceHash)| ==>
      GeneratePost(source, numVariants, angles, replies, alpha, sourceHash)[i].content == ReplyAt(replies, i).content
      && GeneratePost(source, numVariants, angles, replies, alpha, sourceHash)[i].isValidHebrew
  {
    var sel := SelectAngles(numVariants, angles);
    GeneratePostIs(source, numVariants, angles, replies, alpha, sourceHash);
    AssessorAllValid(sel, replies, alpha);
    WriteVariantsAllValid(sel, replies, 0, Assessor(alpha), sourceHash);
    WrittenAllValid(sel, replies, alpha, sourceHash);
  }

  /** A source that is not blank gets the variants of the selected angles. */
  lemma GeneratePostIs(source: string, numVariants: int, angles: Option<seq<string>>, replies: seq<Reply>,
                       alpha: char -> bool, sourceHash: string)
    requires !IsBlank(source)
    ensures GeneratePost(source, numVariants, angles, replies, alpha, sourceHash)
      == WriteVariants(SelectAngles(numVariants, angles), replies, 0, Assessor(alpha), sourceHash).0
  {
  }

  lemma AssessorAllValid(sel: seq<Angle>, replies: seq<Reply>, alpha: char -> bool)
    requires forall j :: 0 <= j < |sel| ==>
      ReplyAt(replies, j).Ok? && ValidateHebrewOutput(ReplyAt(replies, j).content, alpha).valid
    ensures forall j :: 0 <= j < 0 + |sel| ==> ReplyAt(replies, j).Ok? && Assessor(alpha)(ReplyAt(replies, j).content).valid
  {
  }

  lemma WrittenAllValid(sel: seq<Angle>, replies: seq<Reply>, alpha: char -> bool, sourceHash: string)
    requires forall j :: 0 <= j < |sel| ==>
      ReplyAt(replies, j).Ok? && ValidateHebrewOutput(ReplyAt(replies, j).content, alpha).valid
    ensures forall i :: 0 <= i < |sel| ==>
      Written(sel[i], ReplyAt(replies, 0 + i).content, Assessor(alpha), sourceHash).content == ReplyAt(replies, i).content
      && Written(sel[i], ReplyAt(replies, 0 + i).content, Assessor(alpha), sourceHash).isValidHebrew
  {
  }

  /** A client that always fails gives one error variant per angle. */
  lemma {:induction false} WriteVariantsAllFailed(sel: seq<Angle>, e: string, n: nat, k: nat,
                                                  assess: string -> Assessment, sourceHash: string)
    ensures WriteVariants(sel, seq(n, i => Failed(e)), k, assess, sourceHash).0
      == seq(|sel|, i requires 0 <= i < |sel| => ErrorVariant(sel[i], if k + i < n then e else "", sourceHash))
    decreases |sel|
  {
    if |sel| > 0 {
      WriteVariantsAllFailed(sel[1..], e, n, k + 1, assess, sourceHash);
    }
  }

  /* ---------------- Threads ---------------- */

  /** One entry of `generate_thread`'s result. */
  datatype ThreadItem = ThreadItem(index: int, content: string, charCount: int, isValidHebrew: bool,
                                   sourceHash: string, angle: string)

  /** The separator `generate_thread` splits a reply at. */
  const ThreadSeparator := "---"

  /** The separator on a line of its own, as the prompt asks for it. */
  function Joiner(sep: string): string {
    "\n" + sep + "\n"
  }

  lemma {:induction false} LStripPadded(q: string, x: string)
    requires AllSpace(q) && |x| > 0 && !IsSpace(x[0])
    ensures LStrip(q + x) == x
    decreases |q|
  {
    if |q| > 0 {
      assert (q + x)[1..] == q[1..] + x;
      LStripPadded(q[1..], x);
    } else {
      assert q + x == x;
    }
  }

  lemma {:induction false} RStripPadded(x: string, q: string)
    requires AllSpace(q) && |x| > 0 && !IsSpace(x[|x| - 1])
    ensures RStrip(x + q) == x
    decreases |q|
  {
    if |q| > 0 {
      assert (x + q)[..|x + q| - 1] == x + q[..|q| - 1];
      RStripPadded(x, q[..|q| - 1]);
    } else {
      assert x + q == x;
    }
  }

  /** Whitespace around a stripped text is what `strip()` removes. */
  lemma StripPadded(q: string, x: string, q2: string)
    requires AllSpace(q) && AllSpace(q2)
    requires Trimmed(x)
    ensures Strip(q + x + q2) == x
  {
    assert q + x + q2 == q + (x + q2);
    LStripPadded(q, x + q2);
    RStripPadded(x, q2);
  }

  /** `strip()` keeps a contiguous part of the text, so it cannot create
      an occurrence. */
  lemma StripNoContains(s: string, p: string)
    requires !Contains(s, p)
    ensures !Contains(Strip(s), p)
  {
    var l := LStrip(s);
    var t := Strip(s);
    var lo := |s| - |l|;
    assert l == s[lo..] && t == l[..|t|];
    OccursInPrefix(l, p, |t|);
    OccursInSuffix(s, p, lo);
    forall i
      ensures !OccursAt(t, p, i)
    {
      if 0 <= i && i + |p| <= |t| {
        assert !OccursAt(s, p, lo + i);
      }
    }
  }

  predicate NonBlank(s: string) { s != "" }

  /** Every piece, stripped. */
  function StripEach(pieces: seq<string>): (r: seq<string>)
    ensures |r| == |pieces|
    ensures forall i :: 0 <= i < |pieces| ==> r[i] == Strip(pieces[i])
  {
    seq(|pieces|, i requires 0 <= i < |pieces| => Strip(pieces[i]))
  }

  /** The stripped pieces that are not empty, in order: the list
      comprehension `[t.strip() for t in pieces if t.strip()]`. */
  function KeepStripped(pieces: seq<string>): (r: seq<string>)
    ensures |r| <= |pieces|
    ensures forall i :: 0 <= i < |r| ==> Trimmed(r[i])
    ensures r == Filter(StripEach(pieces), NonBlank)
    decreases |pieces|
  {
    if |pieces| == 0 then []
    else
      var p := Strip(pieces[0]);
      assert StripEach(pieces)[1..] == StripEach(pieces[1..]);
      if p == "" then KeepStripped(pieces[1..])
      else
        var rest := KeepStripped(pieces[1..]);
        TrimmedCons(p, rest);
        [p] + rest
  }

  lemma TrimmedCons(p: string, rest: seq<string>)
    requires Trimmed(p)
    requires forall i :: 0 <= i < |rest| ==> Trimmed(rest[i])
    ensures forall i :: 0 <= i < |[p] + rest| ==> Trimmed(([p] + rest)[i])
  {
    forall i | 0 <= i < |[p] + rest|
      ensures Trimmed(([p] + rest)[i])
    {
      if i > 0 {
        assert ([p] + rest)[i] == rest[i - 1];
      }
    }
  }

  lemma KeepStrippedCons(x: string, tail: seq<string>)
    requires Strip(x) != ""
    ensures KeepStripped([x] + tail) == [Strip(x)] + KeepStripped(tail)
  {
    assert ([x] + tail)[1..] == tail;
  }

  lemma KeepStrippedSingle(x: string)
    requires Strip(x) != ""
    ensures KeepStripped([x]) == [Strip(x)]
  {
    KeepStrippedCons(x, []);
    assert [x] + [] == [x];
  }

  /** No piece contains `sep`. */
  predicate NoneContain(ps: seq<string>, sep: string)
    decreases |ps|
  {
    |ps| == 0 || (!Contains(ps[0], sep) && NoneContain(ps[1..], sep))
  }

  lemma {:induction false} NoneContainFromAll(ps: seq<string>, sep: string)
    requires forall j :: 0 <= j < |ps| ==> !Contains(ps[j], sep)
    ensures NoneContain(ps, sep)
    decreases |ps|
  {
    if |ps| > 0 {
      assert !Contains(ps[0], sep);
      assert forall j :: 0 <= j < |ps[1..]| ==> ps[1..][j] == ps[j + 1];
      NoneContainFromAll(ps[1..], sep);
    }
  }

  lemma {:induction false} NoneContainAt(ps: seq<string>, sep: string, i: nat)
    requires NoneContain(ps, sep) && i < |ps|
    ensures !Contains(ps[i], sep)
    decreases i
  {
    if i > 0 {
      NoneContainAt(ps[1..], sep, i - 1);
    }
  }

  /** Pieces free of the separator stay free of it once stripped. */
  lemma {:induction false} KeepStrippedFree(pieces: seq<string>, sep: string)
    requires NoneContain(pieces, sep)
    ensures NoneContain(KeepStripped(pieces), sep)
    decreases |pieces|
  {
    if |pieces| > 0 {
      KeepStrippedFree(pieces[1..], sep);
      var p := Strip(pieces[0]);
      if p != "" {
        StripNoContains(pieces[0], sep);
        var r := [p] + KeepStripped(pieces[1..]);
        assert r[1..] == KeepStripped(pieces[1..]);
      }
    }
  }

  /** `[t.strip() for t in raw.split(sep) if t.strip()]`. */
  function SplitStripped(raw: string, sep: string): (r: seq<string>)
    requires |sep| > 0
    ensures forall i :: 0 <= i < |r| ==> Trimmed(r[i]) && !Contains(r[i], sep)
    ensures r == Filter(StripEach(SplitOn(raw, sep)), NonBlank)
  {
    var pieces := SplitOn(raw, sep);
    var r := KeepStripped(pieces);
    assert forall i :: 0 <= i < |r| ==> !Contains(r[i], sep) by {
      SplitOnFree(raw, sep);
      NoneContainFromAll(pieces, sep);
      KeepStrippedFree(pieces, sep);
      forall i | 0 <= i < |r|
        ensures !Contains(r[i], sep)
      {
        NoneContainAt(r, sep, i);
      }
    }
    r
  }

  /** Tweets a reply can carry: non-empty, without surrounding whitespace
      and without the separator. */
  predicate ThreadReady(parts: seq<string>, sep: string) {
    |parts| >= 1 && EachReady(parts, sep)
  }

  predicate EachReady(parts: seq<string>, sep: string)
    decreases |parts|
  {
    |parts| == 0 || (Trimmed(parts[0]) && !Contains(parts[0], sep) && EachReady(parts[1..], sep))
  }

  /** The first part of ready parts is ready, and so are the others. */
  lemma ReadyHead(parts: seq<string>, sep: string)
    requires ThreadReady(parts, sep)
    ensures Trimmed(parts[0]) && !Contains(parts[0], sep)
    ensures |parts| > 1 ==> ThreadReady(parts[1..], sep)
  {
  }

  /** No separator starts before the newline that follows `p`. */
  lemma NoSeparatorBefore(q: string, p: string, tail: string, sep: string)
    requires |sep| > 0 && '\n' !in sep
    requires q == "" || q == "\n"
    requires !Contains(p, sep)
    requires |tail| == 0 || tail[0] == '\n'
    ensures forall j :: 0 <= j <= |q| + |p| ==> !OccursAt(q + p + tail, sep, j)
  {
    var s := q + p + tail;
    var n := |sep|;
    forall j | 0 <= j <= |q| + |p|
      ensures !OccursAt(s, sep, j)
    {
      if j + n <= |s| {
        if q == "\n" && j == 0 {
          assert s[j..j + n][0] == '\n';
        } else if j - |q| + n <= |p| {
          assert s[j..j + n] == p[j - |q|..j - |q| + n];
          assert !OccursAt(p, sep, j - |q|);
        } else {
          assert s[|q| + |p|] == '\n';
          assert s[j..j + n][|q| + |p| - j] == '\n';
        }
      }
    }
  }

  /** In `q + p + "\n" + sep + b`, the first separator is the one after the newline. */
  lemma FirstSeparatorAfter(q: string, p: string, b: string, sep: string)
    requires |sep| > 0 && '\n' !in sep
    requires q == "" || q == "\n"
    requires !Contains(p, sep)
    ensures forall j :: 0 <= j < |q + p + "\n"| ==> !OccursAt(q + p + "\n" + sep + b, sep, j)
  {
    NoSeparatorBefore(q, p, "\n" + sep + b, sep);
    assert q + p + ("\n" + sep + b) == q + p + "\n" + sep + b;
  }

  lemma JoinFirstSeparator(q: string, parts: seq<string>, sep: string)
    requires |parts| > 1
    ensures q + Join(Joiner(sep), parts) == q + parts[0] + "\n" + sep + ("\n" + Join(Joiner(sep), parts[1..]))
  {
    assert Join(Joiner(sep), parts) == parts[0] + Joiner(sep) + Join(Joiner(sep), parts[1..]);
  }

  lemma SplitStrippedStep(q: string, parts: seq<string>, sep: string)
    requires |sep| > 0 && '\n' !in sep
    requires q == "" || q == "\n"
    requires ThreadReady(parts, sep) && |parts| > 1
    ensures SplitOn(q + Join(Joiner(sep), parts), sep)
      == [q + parts[0] + "\n"] + SplitOn("\n" + Join(Joiner(sep), parts[1..]), sep)
  {
    var b := "\n" + Join(Joiner(sep), parts[1..]);
    JoinFirstSeparator(q, parts, sep);
    assert !Contains(parts[0], sep);
    FirstSeparatorAfter(q, parts[0], b, sep);
    SplitAtFirst(q + parts[0] + "\n", sep, b);
  }

  lemma SplitStrippedLast(q: string, p: string, sep: string)
    requires |sep| > 0 && '\n' !in sep
    requires q == "" || q == "\n"
    requires !Contains(p, sep)
    ensures SplitOn(q + p, sep) == [q + p]
  {
    NoSeparatorBefore(q, p, "", sep);
    assert q + p + "" == q + p;
    forall j
      ensures !OccursAt(q + p, sep, j)
    {
    }
  }

  lemma StripLeadingBreak(q: string, p: string)
    requires q == "" || q == "\n"
    requires Trimmed(p)
    ensures Strip(q + p) == p
  {
    assert AllSpace(q) && AllSpace("");
    StripPadded(q, p, "");
    assert q + p + "" == q + p;
  }

  lemma SplitStrippedOne(q: string, p: string, sep: string)
    requires |sep| > 0 && '\n' !in sep
    requires q == "" || q == "\n"
    requires Trimmed(p) && !Contains(p, sep)
    ensures KeepStripped(SplitOn(q + p, sep)) == [p]
  {
    SplitStrippedLast(q, p, sep);
    StripLeadingBreak(q, p);
    KeepStrippedSingle(q + p);
  }

  lemma SplitStrippedHead(q: string, parts: seq<string>, sep: string)
    requires |sep| > 0 && '\n' !in sep
    requires q == "" || q == "\n"
    requires ThreadReady(parts, sep) && |parts| > 1
    ensures KeepStripped(SplitOn(q + Join(Joiner(sep), parts), sep))
      == [parts[0]] + KeepStripped(SplitOn("\n" + Join(Joiner(sep), parts[1..]), sep))
  {
    assert AllSpace(q) && AllSpace("\n");
    SplitStrippedStep(q, parts, sep);
    StripPadded(q, parts[0], "\n");
    KeepStrippedCons(q + parts[0] + "\n", SplitOn("\n" + Join(Joiner(sep), parts[1..]), sep));
  }

  /** Reading back parts joined by the separator lines, with `q` in front. */
  lemma {:induction false} SplitStrippedJoin(q: string, parts: seq<string>, sep: string)
    requires |sep| > 0 && '\n' !in sep
    requires q == "" || q == "\n"
    requires ThreadReady(parts, sep)
    ensures KeepStripped(SplitOn(q + Join(Joiner(sep), parts), sep)) == parts
    decreases |parts|
  {
    ReadyHead(parts, sep);
    if |parts| == 1 {
      JoinOne(Joiner(sep), parts);
      SplitStrippedOne(q, parts[0], sep);
    } else {
      SplitStrippedHead(q, parts, sep);
      SplitStrippedJoin("\n", parts[1..], sep);
      HeadTail(parts);
    }
  }

  /** Splitting a reply of parts joined by separator lines gives the parts
      back. */
  lemma SplitStrippedRoundTrip(parts: seq<string>, sep: string)
    requires |sep| > 0 && '\n' !in sep
    requires ThreadReady(parts, sep)
    ensures SplitStripped(Join(Joiner(sep), parts), sep) == parts
  {
    SplitStrippedJoin("", parts, sep);
    assert "" + Join(Joiner(sep), parts) == Join(Joiner(sep), parts);
  }

  /** The tweets of a reply. */
  function ThreadParts(raw: string): (r: seq<string>)
    ensures forall i :: 0 <= i < |r| ==> Trimmed(r[i]) && !Contains(r[i], ThreadSeparator)
    ensures r == Filter(StripEach(SplitOn(raw, ThreadSeparator)), NonBlank)
  {
    SplitStripped(raw, ThreadSeparator)
  }

  /** The items of a reply's tweets, numbered from 1. */
  function NumberedItems(parts: seq<string>, alpha: char -> bool, sourceHash: string, angle: string)
    : (r: seq<ThreadItem>)
    ensures |r| == |parts|
    ensures forall i :: 0 <= i < |r| ==>
      && r[i].index == i + 1 && r[i].content == parts[i] && r[i].charCount == |parts[i]|
      && r[i].isValidHebrew == ValidateHebrewOutput(parts[i], alpha).valid
      && r[i].sourceHash == sourceHash && r[i].angle == angle
  {
    seq(|parts|, i requires 0 <= i < |parts| =>
      ThreadItem(i + 1, parts[i], |parts[i]|, ValidateHebrewOutput(parts[i], alpha).valid, sourceHash, angle))
  }

  /** `generate_thread`: nothing for a blank source; one error item when
      the call fails; otherwise the tweets of the reply, numbered from 1.
      The requested length (`ThreadSize`) and angle (`AngleFor`) only
      shape the prompt: the reply decides how many tweets there are. */
  function GenerateThread(source: string, angle: string, reply: Reply, alpha: char -> bool, sourceHash: string)
    : (r: seq<ThreadItem>)
    ensures IsBlank(source) ==> r == []
    ensures !IsBlank(source) && reply.Failed? ==>
      r == [ThreadItem(1, "Error: " + reply.error, 0, false, sourceHash, angle)]
    ensures !IsBlank(source) && reply.Ok? ==> |r| == |ThreadParts(reply.content)|
    ensures !IsBlank(source) && reply.Ok? ==> forall i :: 0 <= i < |r| ==>
      && r[i].index == i + 1
      && Trimmed(r[i].content) && !Contains(r[i].content, ThreadSeparator)
      && r[i].charCount == |r[i].content|
      && r[i].isValidHebrew == ValidateHebrewOutput(r[i].content, alpha).valid
      && r[i].sourceHash == sourceHash && r[i].angle == angle
  {
    if IsBlank(source) then []
    else match reply
      case Failed(e) => [ThreadItem(1, "Error: " + e, 0, false, sourceHash, angle)]
      case Ok(raw) => NumberedItems(ThreadParts(raw), alpha, sourceHash, angle)
  }

  /** A reply carrying well-formed tweets joined by "---" lines gives
      exactly those tweets, in order. */
  lemma GenerateThreadRecoversTweets(source: string, angle: string, parts: seq<string>, alpha: char -> bool,
                                     sourceHash: string)
    requires !IsBlank(source) && ThreadReady(parts, ThreadSeparator)
    ensures var r := GenerateThread(source, angle, Ok(Join(Joiner(ThreadSeparator), parts)), alpha, sourceHash);
      |r| == |parts| && forall i :: 0 <= i < |r| ==> r[i].content == parts[i] && r[i].index == i + 1
  {
    var raw := Join(Joiner(ThreadSeparator), parts);
    SplitStrippedRoundTrip(parts, ThreadSeparator);
    ThreadOfReply(source, angle, raw, alpha, sourceHash);
    NumberedContents(parts, alpha, sourceHash, angle);
  }

  /** A source that is not blank and a reply give the numbered tweets of
      the reply. */
  lemma ThreadOfReply(source: string, angle: string, raw: string, alpha: char -> bool, sourceHash: string)
    requires !IsBlank(source)
    ensures GenerateThread(source, angle, Ok(raw), alpha, sourceHash)
      == NumberedItems(SplitStripped(raw, ThreadSeparator), alpha, sourceHash, angle)
  {
  }

  lemma NumberedContents(parts: seq<string>, alpha: char -> bool, sourceHash: string, angle: string)
    ensures |NumberedItems(parts, alpha, sourceHash, angle)| == |parts|
    ensures forall i :: 0 <= i < |parts| ==>
      NumberedItems(parts, alpha, sourceHash, angle)[i].content == parts[i]
      && NumberedItems(parts, alpha, sourceHash, angle)[i].index == i + 1
  {
  }
}
