/** The records of the `tweets` and `threads` tables and the query helpers
    over them. A table is a sequence of records in insertion order; the
    database session, commits and refreshes are not modelled. */
module Models {
  import opened Base
  import opened Sorting
  import opened JsonValue

  /** Processing status of a tweet. */
  datatype TweetStatus = Pending | Processed | Approved | Published | Failed

  const AllStatuses: seq<TweetStatus> := [Pending, Processed, Approved, Published, Failed]

  /** The enum value; `str()` of a status is this value. */
  function StatusValue(s: TweetStatus): string {
    match s
    case Pending => "pending"
    case Processed => "processed"
    case Approved => "approved"
    case Published => "published"
    case Failed => "failed"
  }

  /** The enum member name, as `getattr(TweetStatus, name)` looks it up. */
  function StatusName(s: TweetStatus): string {
    match s
    case Pending => "PENDING"
    case Processed => "PROCESSED"
    case Approved => "APPROVED"
    case Published => "PUBLISHED"
    case Failed => "FAILED"
  }

  /** `TweetStatus(v)`: the member whose value is `v`, if any. */
  function StatusFromValue(v: string): (r: Option<TweetStatus>)
    ensures r.Some? ==> StatusValue(r.value) == v
    ensures r.None? ==> forall s :: StatusValue(s) != v
  {
    if v == "pending" then Some(Pending)
    else if v == "processed" then Some(Processed)
    else if v == "approved" then Some(Approved)
    else if v == "published" then Some(Published)
    else if v == "failed" then Some(Failed)
    else None
  }

  /** `getattr(TweetStatus, name, None)` restricted to the members. */
  function StatusFromName(name: string): (r: Option<TweetStatus>)
    ensures r.Some? ==> StatusName(r.value) == name
    ensures r.None? ==> forall s :: StatusName(s) != name
  {
    if name == "PENDING" then Some(Pending)
    else if name == "PROCESSED" then Some(Processed)
    else if name == "APPROVED" then Some(Approved)
    else if name == "PUBLISHED" then Some(Published)
    else if name == "FAILED" then Some(Failed)
    else None
  }

  /** There are exactly five statuses, and the value of each one
      identifies it. */
  lemma StatusValuesIdentify(s: TweetStatus)
    ensures s in AllStatuses && |AllStatuses| == 5 && Distinct(AllStatuses)
    ensures StatusFromValue(StatusValue(s)) == Some(s)
    ensures StatusFromName(StatusName(s)) == Some(s)
  {
  }

  /** Where a trend was discovered. */
  datatype TrendSource = XTwitter | YahooFinance | Wsj | TechCrunch | Bloomberg | MarketWatch | Manual

  const AllSources: seq<TrendSource> := [XTwitter, YahooFinance, Wsj, TechCrunch, Bloomberg, MarketWatch, Manual]

  /** The enum value, which is also `str()` of a source. */
  function SourceValue(s: TrendSource): string {
    match s
    case XTwitter => "X"
    case YahooFinance => "Yahoo Finance"
    case Wsj => "WSJ"
    case TechCrunch => "TechCrunch"
    case Bloomberg => "Bloomberg"
    case MarketWatch => "MarketWatch"
    case Manual => "Manual"
  }

  /** `TrendSource(v)`: the member whose value is `v`, if any. */
  function SourceFromValue(v: string): (r: Option<TrendSource>)
    ensures r.Some? ==> SourceValue(r.value) == v
    ensures r.None? ==> forall s :: SourceValue(s) != v
  {
    if v == "X" then Some(XTwitter)
    else if v == "Yahoo Finance" then Some(YahooFinance)
    else if v == "WSJ" then Some(Wsj)
    else if v == "TechCrunch" then Some(TechCrunch)
    else if v == "Bloomberg" then Some(Bloomberg)
    else if v == "MarketWatch" then Some(MarketWatch)
    else if v == "Manual" then Some(Manual)
    else None
  }

  lemma SourceValuesIdentify(s: TrendSource)
    ensures s in AllSources && |AllSources| == 7 && Distinct(AllSources)
    ensures SourceFromValue(SourceValue(s)) == Some(s)
  {
  }

  /** A row of the `trends` table; `keywords` is the JSON column, `Null`
      when unset. */
  datatype Trend = Trend(
    id: int,
    title: string,
    description: Option<string>,
    articleUrl: Option<string>,
    summary: Option<string>,
    keywords: Json,
    sourceCount: int,
    relatedIds: Option<seq<int>>,
    source: TrendSource,
    discoveredAt: int)

  /** A row of the `tweets` table. `pipelineBatchId` and `scheduledAt` are
      the columns the pipeline and the dashboard read and write. */
  datatype Tweet = Tweet(
    id: int,
    sourceUrl: string,
    originalText: string,
    hebrewDraft: Option<string>,
    mediaUrl: Option<string>,
    mediaPath: Option<string>,
    contentType: string,
    trendTopic: Option<string>,
    status: TweetStatus,
    errorMessage: Option<string>,
    scheduledAt: Option<int>,
    createdAt: int,
    updatedAt: int,
    generationMetadata: Option<Json>,
    pipelineBatchId: Option<string>)

  /** Position of the first row with the given id (`.filter(id == …).first()`). */
  function FindTweet(table: seq<Tweet>, id: int): (r: Option<nat>)
    ensures r.None? <==> forall i :: 0 <= i < |table| ==> table[i].id != id
    ensures r.Some? ==> r.value < |table| && table[r.value].id == id
    ensures r.Some? ==> forall i :: 0 <= i < r.value ==> table[i].id != id
  {
    FindIndex(table, (t: Tweet) => t.id == id)
  }

  /** `update_tweet_status`: sets the status, overwrites the draft and the
      media path only when given, and stamps `updated_at` (the column's
      `onupdate`). An unknown id changes nothing and answers `None`. */
  function UpdateTweetStatus(table: seq<Tweet>, id: int, newStatus: TweetStatus,
                             hebrewDraft: Option<string>, mediaPath: Option<string>, now: int)
    : (r: (seq<Tweet>, Option<Tweet>))
    ensures r.1.None? <==> forall i :: 0 <= i < |table| ==> table[i].id != id
    ensures r.1.None? ==> r.0 == table
    ensures |r.0| == |table|
    ensures r.1.Some? ==>
      var i := FindTweet(table, id).value;
      var t := r.1.value;
      && r.0[i] == t
      && (forall j :: 0 <= j < |table| && j != i ==> r.0[j] == table[j])
      && t.status == newStatus && t.updatedAt == now
      && t.hebrewDraft == (if hebrewDraft.Some? then hebrewDraft else table[i].hebrewDraft)
      && t.mediaPath == (if mediaPath.Some? then mediaPath else table[i].mediaPath)
      && t.(status := table[i].status, hebrewDraft := table[i].hebrewDraft,
            mediaPath := table[i].mediaPath, updatedAt := table[i].updatedAt) == table[i]
  {
    match FindTweet(table, id)
    case None => (table, None)
    case Some(i) =>
      var row := table[i];
      var t := row.(status := newStatus,
                    hebrewDraft := if hebrewDraft.Some? then hebrewDraft else row.hebrewDraft,
                    mediaPath := if mediaPath.Some? then mediaPath else row.mediaPath,
                    updatedAt := now);
      (table[i := t], Some(t))
  }

  /** Newest first. */
  function CreatedKey(t: Tweet): Key { (t.createdAt, 0) }

  /** `LIMIT n`: a missing, zero or negative limit takes everything (the
      Python code skips a falsy limit; SQLite reads a negative one as no
      limit). */
  function ApplyLimit<T>(s: seq<T>, limit: Option<int>): (r: seq<T>)
    ensures |r| <= |s| && r == s[..|r|]
    ensures forall x :: x in r ==> x in s
    ensures limit.Some? && limit.value > 0 ==> |r| == Min(limit.value, |s|)
    ensures !(limit.Some? && limit.value > 0) ==> r == s
  {
    if limit.Some? && limit.value > 0 then PyTake(s, limit.value) else s
  }

  /** `.limit(n)` always applied: SQLite reads a negative limit as none. */
  function SqlLimit<T>(s: seq<T>, n: int): (r: seq<T>)
    ensures |r| <= |s| && r == s[..|r|]
    ensures n >= 0 ==> |r| == Min(n, |s|)
    ensures n < 0 ==> r == s
    ensures forall x :: x in r ==> x in s
  {
    if n >= 0 then PyTake(s, n) else s
  }

  /** `OFFSET n`: a zero or negative offset skips nothing. */
  function ApplyOffset<T>(s: seq<T>, offset: int): (r: seq<T>)
    ensures offset <= 0 ==> r == s
    ensures offset > 0 ==> |r| == Max(0, |s| - offset)
    ensures offset > 0 ==> forall i :: 0 <= i < |r| ==> offset + i < |s| && r[i] == s[offset + i]
    ensures forall x :: x in r ==> x in s
  {
    if offset <= 0 then s else if offset <= |s| then s[offset..] else []
  }

  /** The rows of one status, in table order. */
  function StatusRows(table: seq<Tweet>, status: TweetStatus): seq<Tweet> {
    Filter(table, (t: Tweet) => t.status == status)
  }

  /** The rows of one status, newest first. */
  function NewestOfStatus(table: seq<Tweet>, status: TweetStatus): (r: seq<Tweet>)
    ensures |r| == |StatusRows(table, status)|
    ensures multiset(r) == multiset(StatusRows(table, status))
    ensures SortedDesc(r, CreatedKey)
    ensures forall t :: t in r ==> t in table && t.status == status
  {
    SortDescSorted(StatusRows(table, status), CreatedKey);
    SortDescMembers(StatusRows(table, status), CreatedKey);
    SortDesc(StatusRows(table, status), CreatedKey)
  }

  /** The rows an `OFFSET` skips: the `offset` newest of the status. */
  function Skipped(table: seq<Tweet>, status: TweetStatus, offset: int): (r: seq<Tweet>)
    ensures IsTop(r, StatusRows(table, status), CreatedKey, Max(offset, 0))
  {
    var rows := NewestOfStatus(table, status);
    PrefixIsTop(rows, StatusRows(table, status), CreatedKey, Max(offset, 0));
    rows[..Min(Max(offset, 0), |rows|)]
  }

  /** `OFFSET` drops the first `Min(Max(offset, 0), |rows|)` rows. */
  lemma OffsetIsSuffix<T>(rows: seq<T>, offset: int)
    ensures ApplyOffset(rows, offset) == rows[Min(Max(offset, 0), |rows|)..]
  {
  }

  lemma PrefixThenTake<T>(rows: seq<T>, k: nat, j: nat)
    requires k + j <= |rows|
    ensures rows[..k] + rows[k..][..j] == rows[..k + j]
  {
  }

  /** An offset-then-limit window continues the prefix the offset skips:
      together they are the first `offset + limit` elements (all of them
      without a positive limit). */
  lemma WindowExtendsSkipped<T>(rows: seq<T>, limit: Option<int>, offset: int)
    ensures var k := Min(Max(offset, 0), |rows|);
      var w := ApplyLimit(ApplyOffset(rows, offset), limit);
      && k + |w| <= |rows| && rows[..k] + w == rows[..k + |w|]
      && (limit.Some? && limit.value > 0 ==> k + |w| == Min(Max(offset, 0) + limit.value, |rows|))
      && (!(limit.Some? && limit.value > 0) ==> k + |w| == |rows|)
  {
    var k := Min(Max(offset, 0), |rows|);
    OffsetIsSuffix(rows, offset);
    var w := ApplyLimit(rows[k..], limit);
    PrefixThenTake(rows, k, |w|);
  }

  /** The skipped prefix plus the window of a sorted permutation of `s` are
      the top elements of `s`. */
  lemma WindowIsTop<T>(sorted: seq<T>, s: seq<T>, key: T -> Key, limit: Option<int>, offset: int)
    requires |sorted| == |s| && multiset(sorted) == multiset(s) && SortedDesc(sorted, key)
    ensures var k := Min(Max(offset, 0), |sorted|);
      var w := ApplyLimit(ApplyOffset(sorted, offset), limit);
      && (limit.Some? && limit.value > 0 ==> IsTop(sorted[..k] + w, s, key, Max(offset, 0) + limit.value))
      && (!(limit.Some? && limit.value > 0) ==> IsTop(sorted[..k] + w, s, key, |s|))
  {
    WindowExtendsSkipped(sorted, limit, offset);
    var n := if limit.Some? && limit.value > 0 then Max(offset, 0) + limit.value else |s|;
    PrefixIsTop(sorted, s, key, n);
  }

  /** The skipped rows and the page together are the newest rows of the
      status: `offset + limit` of them under a positive limit, all of them
      without one. */
  lemma PageIsTop(table: seq<Tweet>, status: TweetStatus, limit: Option<int>, offset: int)
    ensures var r := ApplyLimit(ApplyOffset(NewestOfStatus(table, status), offset), limit);
      && (limit.Some? && limit.value > 0 ==>
           IsTop(Skipped(table, status, offset) + r, StatusRows(table, status), CreatedKey, Max(offset, 0) + limit.value))
      && (!(limit.Some? && limit.value > 0) ==>
           IsTop(Skipped(table, status, offset) + r, StatusRows(table, status), CreatedKey, |StatusRows(table, status)|))
  {
    WindowIsTop(NewestOfStatus(table, status), StatusRows(table, status), CreatedKey, limit, offset);
  }

  /** `get_tweets_by_status`: rows of one status, newest first, with the
      offset applied before the limit as SQL does, so the page holds the
      rows ranked just after the `offset` newest. */
  function TweetsByStatus(table: seq<Tweet>, status: TweetStatus, limit: Option<int>, offset: int)
    : (r: seq<Tweet>)
    ensures forall t :: t in r ==> t in table && t.status == status
    ensures limit.Some? && limit.value > 0 ==> |r| <= limit.value
    ensures limit.Some? && limit.value > 0 ==>
      IsTop(Skipped(table, status, offset) + r, StatusRows(table, status), CreatedKey, Max(offset, 0) + limit.value)
    ensures !(limit.Some? && limit.value > 0) ==>
      IsTop(Skipped(table, status, offset) + r, StatusRows(table, status), CreatedKey, |StatusRows(table, status)|)
  {
    var rows := NewestOfStatus(table, status);
    PageIsTop(table, status, limit, offset);
    ApplyLimit(ApplyOffset(rows, offset), limit)
  }

  /** Dropping a prefix or cutting a suffix keeps a sequence descending. */
  lemma PageSorted<T>(s: seq<T>, key: T -> Key, limit: Option<int>, offset: int)
    requires SortedDesc(s, key)
    ensures SortedDesc(ApplyLimit(ApplyOffset(s, offset), limit), key)
  {
    var page := ApplyOffset(s, offset);
    if offset > 0 {
      forall i, j | 0 <= i < j < |page|
        ensures KeyGe(key(page[i]), key(page[j]))
      {
        assert page[i] == s[offset + i] && page[j] == s[offset + j];
      }
    }
    var r := ApplyLimit(page, limit);
    forall i, j | 0 <= i < j < |r|
      ensures KeyGe(key(r[i]), key(r[j]))
    {
      assert r[i] == page[i] && r[j] == page[j];
    }
  }

  /** The result is newest first, and without a limit or an offset it
      holds every row of the status. */
  lemma TweetsByStatusOrder(table: seq<Tweet>, status: TweetStatus, limit: Option<int>, offset: int)
    ensures SortedDesc(TweetsByStatus(table, status, limit, offset), CreatedKey)
    ensures offset <= 0 && !(limit.Some? && limit.value > 0) ==>
      (forall t :: t in table && t.status == status ==> t in TweetsByStatus(table, status, limit, offset))
  {
    var matching := StatusRows(table, status);
    var rows := NewestOfStatus(table, status);
    PageSorted(rows, CreatedKey, limit, offset);
    if offset <= 0 && !(limit.Some? && limit.value > 0) {
      forall t | t in table && t.status == status
        ensures t in TweetsByStatus(table, status, limit, offset)
      {
        assert t in multiset(matching);
        assert t in multiset(rows);
      }
    }
  }

  /** `Thread.get_tweets`: the decoded `raw_json`, or `[]` when it is
      missing, empty or does not decode. */
  function ThreadTweets(rawJson: Option<string>, decode: string -> Option<Json>): (r: Json)
    ensures rawJson.None? || rawJson == Some("") ==> r == Arr([])
    ensures rawJson.Some? && decode(rawJson.value).None? ==> r == Arr([])
    ensures rawJson.Some? && rawJson.value != "" && decode(rawJson.value).Some? ==> r == decode(rawJson.value).value
  {
    if rawJson.None? || rawJson.value == "" then Arr([])
    else match decode(rawJson.value)
      case None => Arr([])
      case Some(v) => v
  }
}
