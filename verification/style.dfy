/** The style-example store: word counting, the guards on adding an
    example, tag-overlap retrieval, soft and hard deletion, updates,
    feedback counters and the keyword fallback for topic tags. The table
    of examples is a sequence of records; `json.loads` of a tag column held
    as text is the parameter `decode`. */
module StyleManager {
  import opened Base
  import opened Text
  import opened Sorting
  import opened Models
  import PromptBuilder

  // ------------------------------------------------------------- word counts

  /** Without a token start there are no characters of the class. */
  lemma {:induction false} NoTokenStarts(s: string, inTok: char -> bool)
    ensures TokenStarts(s, inTok, false) == 0 <==> forall i :: 0 <= i < |s| ==> !inTok(s[i])
    decreases |s|
  {
    if |s| > 0 {
      NoTokenStarts(s[1..], inTok);
      assert forall i :: 1 <= i < |s| ==> s[i] == s[1..][i - 1];
    }
  }

  /** `count_words`: the number of whitespace-separated words. Every piece
      `split()` yields is non-blank, so the source's `if w.strip()` filter
      removes nothing. */
  function CountWords(text: string): (n: nat)
    ensures n == TokenStarts(text, NotSpace, false)
    ensures n == 0 <==> forall i :: 0 <= i < |text| ==> IsSpace(text[i])
  {
    TokenCount(text, NotSpace);
    NoTokenStarts(text, NotSpace);
    |Words(text)|
  }

  // ------------------------------------------------------------------ records

  /** The `topic_tags` column: a JSON list, text still to be decoded, or
      nothing. */
  datatype TagField = TagList(tags: seq<string>) | TagText(text: string) | NoTags

  datatype Example = Example(
    id: int,
    content: string,
    sourceType: string,
    sourceUrl: Option<string>,
    topicTags: TagField,
    wordCount: int,
    createdAt: int,
    isActive: bool,
    approvalCount: Option<int>,
    rejectionCount: Option<int>)

  /** The tags of an example; text that does not decode counts as none. */
  function ExampleTags(e: Example, decode: string -> Option<seq<string>>): seq<string> {
    match e.topicTags
    case TagList(ts) => ts
    case TagText(s) => decode(s).GetOr([])
    case NoTags => []
  }

  function LowerSet(tags: seq<string>): set<string> {
    set t | t in tags :: Lower(t)
  }

  /** Number of tags the two lists share, ignoring case. */
  function Overlap(tags: seq<string>, other: seq<string>): nat {
    |LowerSet(tags) * LowerSet(other)|
  }

  /** Overlap ignores the case of the requested tags. */
  lemma OverlapIgnoresCase(tags: seq<string>, other: seq<string>)
    ensures Overlap(seq(|tags|, i requires 0 <= i < |tags| => Upper(tags[i])), other) == Overlap(tags, other)
  {
    var up := seq(|tags|, i requires 0 <= i < |tags| => Upper(tags[i]));
    forall x | x in LowerSet(up)
      ensures x in LowerSet(tags)
    {
      var i :| 0 <= i < |up| && Lower(up[i]) == x;
      assert Lower(Upper(tags[i])) == Lower(tags[i]);
    }
    forall x | x in LowerSet(tags)
      ensures x in LowerSet(up)
    {
      var i :| 0 <= i < |tags| && Lower(tags[i]) == x;
      assert Lower(Upper(tags[i])) == Lower(tags[i]);
      assert up[i] in up;
    }
    assert LowerSet(up) == LowerSet(tags);
  }

  function CreatedKeyOf(e: Example): Key { (e.createdAt, 0) }

  /** The active rows, in table order. */
  function Active(table: seq<Example>): seq<Example> {
    Filter(table, (e: Example) => e.isActive)
  }

  /** `get_all_examples`: the active examples, each once, newest first. */
  function AllExamples(table: seq<Example>): (r: seq<Example>)
    ensures |r| <= |table|
    ensures forall e :: e in r <==> e in table && e.isActive
    ensures multiset(r) == multiset(Active(table))
    ensures SortedDesc(r, CreatedKeyOf)
  {
    var active := Active(table);
    SortDescMembers(active, CreatedKeyOf);
    SortDescSorted(active, CreatedKeyOf);
    SortDesc(active, CreatedKeyOf)
  }

  lemma RecentIsTop(table: seq<Example>, limit: int)
    requires limit >= 0
    ensures IsTop(SqlLimit(AllExamples(table), limit), Active(table), CreatedKeyOf, limit)
  {
    PrefixIsTop(AllExamples(table), Active(table), CreatedKeyOf, limit);
  }

  /** `get_recent_examples`: the `limit` newest active examples, newest
      first (a negative limit means none for SQLite). */
  function RecentExamples(table: seq<Example>, limit: int): (r: seq<Example>)
    ensures forall e :: e in r ==> e in table && e.isActive
    ensures limit >= 0 ==> IsTop(r, Active(table), CreatedKeyOf, limit)
    ensures limit < 0 ==> r == AllExamples(table)
    ensures limit >= |table| ==> forall e :: e in table && e.isActive ==> e in r
  {
    if limit >= 0 then
      RecentIsTop(table, limit);
      SqlLimit(AllExamples(table), limit)
    else SqlLimit(AllExamples(table), limit)
  }

  lemma RecentExamplesNewestFirst(table: seq<Example>, limit: int)
    ensures SortedDesc(RecentExamples(table, limit), CreatedKeyOf)
  {
    var all := AllExamples(table);
    var r := RecentExamples(table, limit);
    forall i, j | 0 <= i < j < |r|
      ensures KeyGe(CreatedKeyOf(r[i]), CreatedKeyOf(r[j]))
    {
      assert r[i] == all[i] && r[j] == all[j];
    }
  }

  /** `IsTop` depends on the candidates only as a multiset. */
  lemma IsTopOfPermutation<T>(r: seq<T>, s: seq<T>, t: seq<T>, key: T -> Key, n: nat)
    requires IsTop(r, s, key, n) && multiset(s) == multiset(t) && |s| == |t|
    ensures IsTop(r, t, key, n)
  {
  }

  /** Ranking key of `get_examples_by_tags`: overlap, then word count. */
  function TagRank(tags: seq<string>, decode: string -> Option<seq<string>>): Example -> Key {
    (e: Example) => (Overlap(tags, ExampleTags(e, decode)), e.wordCount)
  }

  /** Ranking key of `find_examples_by_tag_overlap`: overlap alone. */
  function OverlapRank(tags: seq<string>, decode: string -> Option<seq<string>>): Example -> Key {
    (e: Example) => (Overlap(tags, ExampleTags(e, decode)), 0)
  }

  /** `get_examples_by_tags`: with no tags the most recent examples;
      otherwise active examples ranked by shared tags, then by length. */
  function ExamplesByTags(table: seq<Example>, tags: seq<string>, limit: int,
                          decode: string -> Option<seq<string>>): (r: seq<Example>)
    ensures |tags| == 0 ==> r == RecentExamples(table, limit)
    ensures forall e :: e in r ==> e in table && e.isActive
    ensures limit >= 0 ==> |r| <= limit
    ensures |tags| > 0 && limit >= 0 ==> IsTop(r, Active(table), TagRank(tags, decode), limit)
    ensures |tags| > 0 && limit >= |table| ==> forall e :: e in table && e.isActive ==> e in r
  {
    if |tags| == 0 then RecentExamples(table, limit)
    else if limit >= 0 then
      var all := AllExamples(table);
      TopByIsTop(all, TagRank(tags, decode), limit);
      IsTopOfPermutation(TopBy(all, TagRank(tags, decode), limit), all, Active(table), TagRank(tags, decode), limit);
      TopBy(all, TagRank(tags, decode), limit)
    else TopBy(AllExamples(table), TagRank(tags, decode), limit)
  }

  lemma ExamplesByTagsRanked(table: seq<Example>, tags: seq<string>, limit: int,
                             decode: string -> Option<seq<string>>)
    requires |tags| > 0
    ensures SortedDesc(ExamplesByTags(table, tags, limit, decode), TagRank(tags, decode))
  {
    TopBySorted(AllExamples(table), TagRank(tags, decode), limit);
  }

  /** The active examples sharing at least one tag, newest first. */
  function Overlapping(table: seq<Example>, tags: seq<string>, decode: string -> Option<seq<string>>)
    : (r: seq<Example>)
    ensures |r| <= |table|
    ensures forall e :: e in r <==> e in table && e.isActive && Overlap(tags, ExampleTags(e, decode)) > 0
  {
    Filter(AllExamples(table), (e: Example) => Overlap(tags, ExampleTags(e, decode)) > 0)
  }

  /** `find_examples_by_tag_overlap`: active examples sharing at least one
      tag, most shared first; nothing for an empty tag list. */
  function ExamplesByTagOverlap(table: seq<Example>, tags: seq<string>, limit: int,
                                decode: string -> Option<seq<string>>): (r: seq<Example>)
    ensures |tags| == 0 ==> r == []
    ensures forall e :: e in r ==> e in table && e.isActive && Overlap(tags, ExampleTags(e, decode)) > 0
    ensures limit >= 0 ==> |r| <= limit
    ensures |tags| > 0 && limit >= 0 ==> IsTop(r, Overlapping(table, tags, decode), OverlapRank(tags, decode), limit)
    ensures |tags| > 0 && limit >= |table| ==>
      forall e :: e in table && e.isActive && Overlap(tags, ExampleTags(e, decode)) > 0 ==> e in r
  {
    if |tags| == 0 then []
    else if limit >= 0 then
      TopByIsTop(Overlapping(table, tags, decode), OverlapRank(tags, decode), limit);
      TopBy(Overlapping(table, tags, decode), OverlapRank(tags, decode), limit)
    else TopBy(Overlapping(table, tags, decode), OverlapRank(tags, decode), limit)
  }

  lemma ExamplesByTagOverlapRanked(table: seq<Example>, tags: seq<string>, limit: int,
                                   decode: string -> Option<seq<string>>)
    ensures SortedDesc(ExamplesByTagOverlap(table, tags, limit, decode), OverlapRank(tags, decode))
  {
    if |tags| > 0 {
      TopBySorted(Overlapping(table, tags, decode), OverlapRank(tags, decode), limit);
    }
  }

  // ---------------------------------------------------------------- mutations

  /** `add_style_example`: blank content or content of fewer than ten words
      is refused and nothing is stored; otherwise the stripped content is
      appended as an active example. */
  function AddStyleExample(table: seq<Example>, content: string, sourceType: string,
                           sourceUrl: Option<string>, topicTags: Option<seq<string>>, id: int, now: int)
    : (r: (seq<Example>, Option<Example>))
    ensures r.1.None? ==> r.0 == table
    ensures r.1.Some? <==> CountWords(Strip(content)) >= 10
    ensures r.1.Some? ==>
      var e := r.1.value;
      && r.0 == table + [e]
      && e.content == Strip(content)
      && e.wordCount == CountWords(e.content)
      && e.isActive
      && e.topicTags == TagList(topicTags.GetOr([]))
      && e.sourceType == sourceType && e.sourceUrl == sourceUrl
      && e.approvalCount.None? && e.rejectionCount.None?
  {
    var body := Strip(content);
    if body == "" then (table, None)
    else
      var n := CountWords(body);
      if n < 10 then (table, None)
      else
        var e := Example(id, body, sourceType, sourceUrl, TagList(topicTags.GetOr([])), n, now, true, None, None);
        (table + [e], Some(e))
  }

  /** Blank content is always refused, and an added example is listed
      among the active ones. */
  lemma AddStyleExampleGuards(table: seq<Example>, content: string, sourceType: string,
                              sourceUrl: Option<string>, topicTags: Option<seq<string>>, id: int, now: int)
    ensures (forall i :: 0 <= i < |content| ==> IsSpace(content[i])) ==>
      AddStyleExample(table, content, sourceType, sourceUrl, topicTags, id, now).1.None?
    ensures var r := AddStyleExample(table, content, sourceType, sourceUrl, topicTags, id, now);
      r.1.Some? ==> r.1.value in AllExamples(r.0) && |r.1.value.content| > 0
  {
    StripEmptyIffAllSpace(content);
  }

  function FindExample(table: seq<Example>, id: int): (r: Option<nat>)
    ensures r.None? <==> forall i :: 0 <= i < |table| ==> table[i].id != id
    ensures r.Some? ==> r.value < |table| && table[r.value].id == id
  {
    FindIndex(table, (e: Example) => e.id == id)
  }

  /** `delete_example`: a missing id answers false; a soft delete only
      clears `is_active`; a hard delete removes the row. */
  function DeleteExample(table: seq<Example>, id: int, hard: bool): (r: (seq<Example>, bool))
    ensures !r.1 <==> forall i :: 0 <= i < |table| ==> table[i].id != id
    ensures !r.1 ==> r.0 == table
    ensures r.1 && !hard ==>
      var i := FindExample(table, id).value;
      |r.0| == |table| && r.0[i] == table[i].(isActive := false)
      && forall j :: 0 <= j < |table| && j != i ==> r.0[j] == table[j]
    ensures r.1 && hard ==>
      var i := FindExample(table, id).value;
      r.0 == table[..i] + table[i + 1..]
  {
    match FindExample(table, id)
    case None => (table, false)
    case Some(i) =>
      if hard then (table[..i] + table[i + 1..], true)
      else (table[i := table[i].(isActive := false)], true)
  }

  predicate UniqueIds(table: seq<Example>) {
    forall i, j :: 0 <= i < j < |table| ==> table[i].id != table[j].id
  }

  /** No row with the id is active any more. */
  predicate Retired(rows: seq<Example>, id: int) {
    forall k :: 0 <= k < |rows| ==> rows[k].id != id || !rows[k].isActive
  }

  lemma SoftDeleteRetires(table: seq<Example>, id: int, i: nat)
    requires UniqueIds(table) && i < |table| && table[i].id == id
    ensures Retired(table[i := table[i].(isActive := false)], id)
  {
    var r := table[i := table[i].(isActive := false)];
    forall k | 0 <= k < |r| && k != i
      ensures r[k].id != id
    {
      assert r[k] == table[k];
    }
  }

  lemma HardDeleteRetires(table: seq<Example>, id: int, i: nat)
    requires UniqueIds(table) && i < |table| && table[i].id == id
    ensures Retired(table[..i] + table[i + 1..], id)
  {
    var r := table[..i] + table[i + 1..];
    forall k | 0 <= k < |r|
      ensures r[k].id != id
    {
      if k < i {
        assert r[k] == table[k];
      } else {
        assert r[k] == table[k + 1];
      }
    }
  }

  /** Once deleted, soft or hard, an example is no longer retrieved. */
  lemma DeletedNotListed(table: seq<Example>, id: int, hard: bool)
    requires UniqueIds(table)
    ensures forall e :: e in AllExamples(DeleteExample(table, id, hard).0) ==> e.id != id
  {
    var r := DeleteExample(table, id, hard);
    match FindExample(table, id)
    case None =>
    case Some(i) =>
      if hard {
        HardDeleteRetires(table, id, i);
      } else {
        SoftDeleteRetires(table, id, i);
      }
  }

  /** `update_example`: a missing id answers `None`; new content is stored
      stripped with its word count recomputed; new tags replace the old;
      nothing else changes. */
  function UpdateExample(table: seq<Example>, id: int, content: Option<string>, topicTags: Option<seq<string>>)
    : (r: (seq<Example>, Option<Example>))
    ensures r.1.None? <==> forall i :: 0 <= i < |table| ==> table[i].id != id
    ensures r.1.None? ==> r.0 == table
    ensures r.1.Some? ==>
      var i := FindExample(table, id).value;
      var e := r.1.value;
      && |r.0| == |table| && r.0[i] == e
      && (forall j :: 0 <= j < |table| && j != i ==> r.0[j] == table[j])
      && (content.Some? ==> e.content == Strip(content.value) && e.wordCount == CountWords(content.value))
      && (content.None? ==> e.content == table[i].content && e.wordCount == table[i].wordCount)
      && (topicTags.Some? ==> e.topicTags == TagList(topicTags.value))
      && (topicTags.None? ==> e.topicTags == table[i].topicTags)
      && e.(content := table[i].content, wordCount := table[i].wordCount, topicTags := table[i].topicTags) == table[i]
  {
    match FindExample(table, id)
    case None => (table, None)
    case Some(i) =>
      var e0 := table[i];
      var e1 := if content.Some? then e0.(content := Strip(content.value), wordCount := CountWords(content.value)) else e0;
      var e2 := if topicTags.Some? then e1.(topicTags := TagList(topicTags.value)) else e1;
      (table[i := e2], Some(e2))
  }

  /** `record_feedback`: a missing id answers false; otherwise exactly one
      of the two counters grows by one, a missing counter counting as 0. */
  function RecordFeedback(table: seq<Example>, id: int, approved: bool): (r: (seq<Example>, bool))
    ensures !r.1 <==> forall i :: 0 <= i < |table| ==> table[i].id != id
    ensures !r.1 ==> r.0 == table
    ensures r.1 ==>
      var i := FindExample(table, id).value;
      && |r.0| == |table|
      && (forall j :: 0 <= j < |table| && j != i ==> r.0[j] == table[j])
      && (approved ==> r.0[i] == table[i].(approvalCount := Some(table[i].approvalCount.GetOr(0) + 1)))
      && (!approved ==> r.0[i] == table[i].(rejectionCount := Some(table[i].rejectionCount.GetOr(0) + 1)))
  {
    match FindExample(table, id)
    case None => (table, false)
    case Some(i) =>
      var e := table[i];
      var e' := if approved then e.(approvalCount := Some(e.approvalCount.GetOr(0) + 1))
                else e.(rejectionCount := Some(e.rejectionCount.GetOr(0) + 1));
      (table[i := e'], true)
  }

  function FeedbackTotal(e: Example): int {
    e.approvalCount.GetOr(0) + e.rejectionCount.GetOr(0)
  }

  /** Each recorded feedback adds exactly one to the example's total, and
      approval and rejection never touch each other's counter. */
  lemma FeedbackCountsOne(table: seq<Example>, id: int, approved: bool)
    ensures var r := RecordFeedback(table, id, approved);
      r.1 ==>
        var i := FindExample(table, id).value;
        && FeedbackTotal(r.0[i]) == FeedbackTotal(table[i]) + 1
        && (approved ==> r.0[i].rejectionCount == table[i].rejectionCount)
        && (!approved ==> r.0[i].approvalCount == table[i].approvalCount)
  {
  }

  // ------------------------------------------------------------ fallback tags

  /** The keyword table of `_fallback_topic_tags`, in its order. Every
      keyword is already lower-case, so lowering it changes nothing. */
  const FallbackKeywords: seq<(string, seq<string>)> := [
    ("fintech", ["פינטק", "fintech", "פיננסי", "financial"]),
    ("crypto", ["קריפטו", "crypto", "מטבע דיגיטלי"]),
    ("bitcoin", ["ביטקוין", "bitcoin", "btc"]),
    ("blockchain", ["בלוקצ'יין", "blockchain"]),
    ("banking", ["בנק", "bank", "בנקאות"]),
    ("payments", ["תשלום", "payment", "העברה"]),
    ("investing", ["השקע", "invest", "תיק השקעות"]),
    ("AI", ["בינה מלאכותית", "ai", "למידת מכונה"]),
    ("startups", ["סטארטאפ", "startup", "יזמות"]),
    ("regulation", ["רגולציה", "regulation", "פיקוח"])
  ]

  /** The position in `FALLBACK_KEYWORDS` of the tag with this signature
      (`Signature`: length, then the codes of the first two characters). */
  function FallbackIndex(code: int): int {
    if code == 7102105 then 0  // "fintech": 7 letters, 'f' = 102, 'i' = 105
    else if code == 6099114 then 1  // "crypto": 6 letters, 'c' = 99, 'r' = 114
    else if code == 7098105 then 2  // "bitcoin": 7 letters, 'b' = 98, 'i' = 105
    else if code == 10098108 then 3  // "blockchain": 10 letters, 'b' = 98, 'l' = 108
    else if code == 7098097 then 4  // "banking": 7 letters, 'b' = 98, 'a' = 97
    else if code == 8112097 then 5  // "payments": 8 letters, 'p' = 112, 'a' = 97
    else if code == 9105110 then 6  // "investing": 9 letters, 'i' = 105, 'n' = 110
    else if code == 2065073 then 7  // "AI": 2 letters, 'A' = 65, 'I' = 73
    else if code == 8115116 then 8  // "startups": 8 letters, 's' = 115, 't' = 116
    else if code == 10114101 then 9  // "regulation": 10 letters, 'r' = 114, 'e' = 101
    else -1
  }

  lemma FallbackTagsDistinct()
    ensures Distinct(PromptBuilder.Tags(FallbackKeywords))
  {
    assert forall i :: 0 <= i < |FallbackKeywords| ==>
      FallbackIndex(PromptBuilder.Signature(FallbackKeywords[i].0)) == i;
    PromptBuilder.DistinctByIndex(PromptBuilder.Tags(FallbackKeywords),
      (t: string) => FallbackIndex(PromptBuilder.Signature(t)));
  }

  /** The first five tags of `m` with a keyword in `low`, or `default`. */
  function CappedTags(m: seq<(string, seq<string>)>, low: string, default: string): (r: seq<string>)
    requires Distinct(PromptBuilder.Tags(m))
    ensures 1 <= |r| <= 5
    ensures Distinct(r)
    ensures forall t :: t in r ==>
      (exists i :: 0 <= i < |m| && m[i].0 == t && PromptBuilder.AnyOccurs(m[i].1, low)) || r == [default]
    ensures (forall i :: 0 <= i < |m| ==> !PromptBuilder.AnyOccurs(m[i].1, low)) ==> r == [default]
    ensures var found := PromptBuilder.MatchingTags(m, low);
      |found| > 0 ==> Subsequence(r, PromptBuilder.Tags(m)) && |r| == Min(5, |found|) && r == found[..|r|]
    ensures |PromptBuilder.MatchingTags(m, low)| <= 5 ==>
      forall i :: 0 <= i < |m| && PromptBuilder.AnyOccurs(m[i].1, low) ==> m[i].0 in r
  {
    var found := PromptBuilder.MatchingTags(m, low);
    PromptBuilder.MatchingTagsOrdered(m, low);
    if |found| == 0 then [default]
    else
      var r := PyTake(found, 5);
      MatchesListed(m, low);
      PrefixSubsequence(r, found);
      SubsequenceTrans(r, found, PromptBuilder.Tags(m));
      assert forall t :: t in r ==> t in found;
      assert found[0] in found;
      r
  }

  lemma MatchesListed(m: seq<(string, seq<string>)>, low: string)
    ensures forall i :: 0 <= i < |m| && PromptBuilder.AnyOccurs(m[i].1, low) ==>
      m[i].0 in PromptBuilder.MatchingTags(m, low)
  {
    forall i | 0 <= i < |m| && PromptBuilder.AnyOccurs(m[i].1, low)
      ensures m[i].0 in PromptBuilder.MatchingTags(m, low)
    {
      assert exists j :: 0 <= j < |m| && m[j].0 == m[i].0 && PromptBuilder.AnyOccurs(m[j].1, low);
    }
  }

  /** `_fallback_topic_tags`: up to five matching tags in table order,
      without repetition, or `["fintech"]` when none matches. */
  function FallbackTopicTags(content: string): (r: seq<string>)
    ensures 1 <= |r| <= 5
    ensures Distinct(r)
    ensures forall t :: t in r ==>
      (exists i :: 0 <= i < |FallbackKeywords| && FallbackKeywords[i].0 == t
         && PromptBuilder.AnyOccurs(FallbackKeywords[i].1, Lower(content)))
      || r == ["fintech"]
    ensures (forall i :: 0 <= i < |FallbackKeywords| ==>
      !PromptBuilder.AnyOccurs(FallbackKeywords[i].1, Lower(content))) ==> r == ["fintech"]
    ensures var found := PromptBuilder.MatchingTags(FallbackKeywords, Lower(content));
      |found| > 0 ==> Subsequence(r, PromptBuilder.Tags(FallbackKeywords)) && |r| == Min(5, |found|) && r == found[..|r|]
    ensures |PromptBuilder.MatchingTags(FallbackKeywords, Lower(content))| <= 5 ==>
      forall i :: 0 <= i < |FallbackKeywords| && PromptBuilder.AnyOccurs(FallbackKeywords[i].1, Lower(content)) ==>
        FallbackKeywords[i].0 in r
  {
    FallbackTagsDistinct();
    CappedTags(FallbackKeywords, Lower(content), "fintech")
  }
}
