/** The dashboard's database helpers over the `tweets` and `trends`
    tables: the status counters with their five-second cache, the tweet
    list, and updating and deleting a row. */
module DashboardDb {
  import opened Base
  import opened Text
  import opened Sorting
  import opened Models

  const StatsTtl := 5

  /** The dict `get_stats` returns, `_ts` being when it was computed. */
  datatype Stats = Stats(total: nat, pending: nat, processed: nat, approved: nat, published: nat,
                         failed: nat, scheduled: nat, readyToPublish: nat, ts: int)

  function HasStatus(s: TweetStatus): Tweet -> bool {
    (t: Tweet) => t.status == s
  }

  function ScheduledApproved(): Tweet -> bool {
    (t: Tweet) => t.status == Approved && t.scheduledAt.Some?
  }

  function ReadyApproved(): Tweet -> bool {
    (t: Tweet) => t.status == Approved && t.scheduledAt.None?
  }

  /** Every tweet is in exactly one status bucket. */
  lemma {:induction false} StatusBucketsSum(table: seq<Tweet>)
    ensures CountIf(table, HasStatus(Pending)) + CountIf(table, HasStatus(Processed)) +
            CountIf(table, HasStatus(Approved)) + CountIf(table, HasStatus(Published)) +
            CountIf(table, HasStatus(Failed)) == |table|
    decreases |table|
  {
    if |table| > 0 {
      StatusBucketsSum(table[1..]);
    }
  }

  /** An approved tweet is either scheduled or ready to publish. */
  lemma {:induction false} ApprovedSplit(table: seq<Tweet>)
    ensures CountIf(table, ScheduledApproved()) + CountIf(table, ReadyApproved()) == CountIf(table, HasStatus(Approved))
    decreases |table|
  {
    if |table| > 0 {
      ApprovedSplit(table[1..]);
    }
  }

  /** The aggregate query of `get_stats`. */
  function ComputeStats(table: seq<Tweet>, now: int): (r: Stats)
    ensures r.total == |table| && r.ts == now
    ensures r.pending + r.processed + r.approved + r.published + r.failed == r.total
    ensures r.scheduled + r.readyToPublish == r.approved
    ensures r.pending == CountIf(table, HasStatus(Pending)) && r.processed == CountIf(table, HasStatus(Processed))
    ensures r.approved == CountIf(table, HasStatus(Approved)) && r.published == CountIf(table, HasStatus(Published))
    ensures r.failed == CountIf(table, HasStatus(Failed))
    ensures r.scheduled == CountIf(table, ScheduledApproved()) && r.readyToPublish == CountIf(table, ReadyApproved())
  {
    StatusBucketsSum(table);
    ApprovedSplit(table);
    Stats(|table|, CountIf(table, HasStatus(Pending)), CountIf(table, HasStatus(Processed)),
          CountIf(table, HasStatus(Approved)), CountIf(table, HasStatus(Published)),
          CountIf(table, HasStatus(Failed)), CountIf(table, ScheduledApproved()),
          CountIf(table, ReadyApproved()), now)
  }

  /** `get_stats`: the cached counters while they are under five seconds
      old, otherwise fresh ones, which become the cache. */
  function GetStats(table: seq<Tweet>, cache: Option<Stats>, now: int): (r: (Stats, Option<Stats>))
    ensures cache.Some? && now - cache.value.ts < StatsTtl ==> r == (cache.value, cache)
    ensures !(cache.Some? && now - cache.value.ts < StatsTtl) ==>
      r.1 == Some(r.0) && r.0.ts == now && r.0.total == |table|
    ensures !(cache.Some? && now - cache.value.ts < StatsTtl) ==> r.0 == ComputeStats(table, now)
    ensures !(cache.Some? && now - cache.value.ts < StatsTtl) ==>
      && r.0.pending + r.0.processed + r.0.approved + r.0.published + r.0.failed == r.0.total
      && r.0.scheduled + r.0.readyToPublish == r.0.approved
  {
    if cache.Some? && now - cache.value.ts < StatsTtl then (cache.value, cache)
    else
      var stats := ComputeStats(table, now);
      (stats, Some(stats))
  }

  /** A fresh cache is served again for the next five seconds, whatever
      the table has become. */
  lemma CacheServesWithinTtl(table1: seq<Tweet>, table2: seq<Tweet>, now: int, later: int)
    requires now <= later < now + StatsTtl
    ensures var (s, c) := GetStats(table1, None, now);
      GetStats(table2, c, later) == (s, c)
  {
  }

  /** The status filter of `get_tweets`: none for "all" or a name that is
      not a status. */
  function StatusFilter(statusFilter: string): (r: Option<TweetStatus>)
    ensures statusFilter == "all" ==> r.None?
    ensures r.Some? ==> StatusName(r.value) == Upper(statusFilter)
  {
    if statusFilter == "all" then None else StatusFromName(Upper(statusFilter))
  }

  /** `get_tweets`: newest first, at most `limit` (SQLite ignores a
      negative limit). */
  function GetTweets(table: seq<Tweet>, statusFilter: string, limit: int): (r: seq<Tweet>)
    ensures forall t :: t in r ==> t in table
    ensures StatusFilter(statusFilter).Some? ==> forall t :: t in r ==> t.status == StatusFilter(statusFilter).value
    ensures limit >= 0 ==> |r| <= limit
    ensures SortedDesc(r, CreatedKey)
    ensures IsTop(r, FilteredRows(table, statusFilter), CreatedKey, if limit >= 0 then limit else |table|)
  {
    var rows := FilteredRows(table, statusFilter);
    var sorted := SortDesc(rows, CreatedKey);
    SortDescSorted(rows, CreatedKey);
    SortDescMembers(rows, CreatedKey);
    var n := if limit >= 0 then limit else |table|;
    PrefixIsTop(sorted, rows, CreatedKey, n);
    SqlLimitIsPrefix(sorted, limit, n);
    SqlLimit(sorted, limit)
  }

  /** The rows the status filter lets through, in table order. */
  function FilteredRows(table: seq<Tweet>, statusFilter: string): (r: seq<Tweet>)
    ensures |r| <= |table|
    ensures forall t :: t in r ==> t in table
    ensures StatusFilter(statusFilter).Some? ==> forall t :: t in r ==> t.status == StatusFilter(statusFilter).value
  {
    match StatusFilter(statusFilter)
    case None => table
    case Some(s) => Filter(table, HasStatus(s))
  }

  lemma SqlLimitIsPrefix<T>(s: seq<T>, limit: int, n: nat)
    requires (limit >= 0 && n == limit) || (limit < 0 && n >= |s|)
    ensures SqlLimit(s, limit) == s[..Min(n, |s|)]
  {
  }

  /** A status given in lower case selects that status; an unknown name
      lists every tweet. */
  lemma StatusFilterNames(s: TweetStatus, unknown: string)
    requires unknown != "all" && forall st :: StatusName(st) != Upper(unknown)
    ensures StatusFilter(StatusValue(s)) == Some(s)
    ensures StatusFilter(unknown) == StatusFilter("all")
  {
    match s
    case Pending => assert Upper("pending") == "PENDING";
    case Processed => assert Upper("processed") == "PROCESSED";
    case Approved => assert Upper("approved") == "APPROVED";
    case Published => assert Upper("published") == "PUBLISHED";
    case Failed => assert Upper("failed") == "FAILED";
  }

  /** A `status=` keyword: an enum member, or a string looked up by its
      upper-cased member name. */
  datatype StatusArg = EnumStatus(s: TweetStatus) | StatusText(text: string)

  /** The keyword arguments the dashboard passes to `update_tweet`;
      `None` for a keyword not given. */
  datatype TweetUpdate = TweetUpdate(status: Option<StatusArg>, hebrewDraft: Option<Option<string>>,
                                     scheduledAt: Option<Option<int>>)

  datatype UpdateResult = NotFound | Updated | UnknownStatus(raw: string)

  /** The status an argument stands for, if any. */
  function ResolveStatus(arg: StatusArg): (r: Option<TweetStatus>)
    ensures arg.EnumStatus? ==> r == Some(arg.s)
    ensures arg.StatusText? ==> (r.Some? <==> exists s :: StatusName(s) == Upper(arg.text))
    ensures arg.StatusText? && r.Some? ==> StatusName(r.value) == Upper(arg.text)
  {
    match arg
    case EnumStatus(s) => Some(s)
    case StatusText(t) => StatusFromName(Upper(t))
  }

  /** `update_tweet`: sets the given fields of the row with this id and
      refreshes `updated_at`; `NotFound` (the `False` answer) changes
      nothing. A status string that names no member is handed on as it
      is; the table, whose column holds members only, is left unchanged
      and the raw string is reported. */
  function UpdateTweet(table: seq<Tweet>, id: int, update: TweetUpdate, now: int): (r: (seq<Tweet>, UpdateResult))
    ensures r.1 == NotFound <==> forall i :: 0 <= i < |table| ==> table[i].id != id
    ensures r.1 != Updated ==> r.0 == table
    ensures r.1.UnknownStatus? ==> update.status == Some(StatusText(r.1.raw)) && ResolveStatus(StatusText(r.1.raw)).None?
    ensures |r.0| == |table|
    ensures r.1 == Updated ==>
      var i := FindTweet(table, id).value;
      var t := r.0[i];
      && (forall j :: 0 <= j < |table| && j != i ==> r.0[j] == table[j])
      && t.updatedAt == now
      && (update.status.Some? ==> ResolveStatus(update.status.value) == Some(t.status))
      && (update.status.None? ==> t.status == table[i].status)
      && t.hebrewDraft == update.hebrewDraft.GetOr(table[i].hebrewDraft)
      && t.scheduledAt == update.scheduledAt.GetOr(table[i].scheduledAt)
      && t.(status := table[i].status, hebrewDraft := table[i].hebrewDraft, scheduledAt := table[i].scheduledAt,
            updatedAt := table[i].updatedAt) == table[i]
  {
    match FindTweet(table, id)
    case None => (table, NotFound)
    case Some(i) =>
      if update.status.Some? && ResolveStatus(update.status.value).None? then
        (table, UnknownStatus(update.status.value.text))
      else
        var row := table[i];
        var t := row.(status := if update.status.Some? then ResolveStatus(update.status.value).value else row.status,
                      hebrewDraft := update.hebrewDraft.GetOr(row.hebrewDraft),
                      scheduledAt := update.scheduledAt.GetOr(row.scheduledAt),
                      updatedAt := now);
        (table[i := t], Updated)
  }

  /** The dashboard's "approve" passes the member; passing its lower-case
      value as a string does the same. */
  lemma UpdateByStatusValue(table: seq<Tweet>, id: int, s: TweetStatus, draft: Option<Option<string>>, now: int)
    ensures UpdateTweet(table, id, TweetUpdate(Some(StatusText(StatusValue(s))), draft, None), now) ==
            UpdateTweet(table, id, TweetUpdate(Some(EnumStatus(s)), draft, None), now)
  {
    StatusFilterNames(s, "none");
  }

  /** `delete_tweet`: removes the first row with this id. */
  function DeleteTweet(table: seq<Tweet>, id: int): (r: (seq<Tweet>, bool))
    ensures !r.1 <==> forall i :: 0 <= i < |table| ==> table[i].id != id
    ensures !r.1 ==> r.0 == table
    ensures r.1 ==> var i := FindTweet(table, id).value;
      r.0 == table[..i] + table[i + 1..]
  {
    match FindTweet(table, id)
    case None => (table, false)
    case Some(i) => (table[..i] + table[i + 1..], true)
  }

  /** With ids unique, a deleted tweet is gone and every other row stays. */
  lemma DeleteRemovesOnlyThatRow(table: seq<Tweet>, id: int)
    requires forall i, j :: 0 <= i < j < |table| ==> table[i].id != table[j].id
    ensures var r := DeleteTweet(table, id).0;
      && (forall t :: t in r ==> t.id != id)
      && (forall t :: t in table && t.id != id ==> t in r)
  {
    var r := DeleteTweet(table, id);
    if r.1 {
      var i := FindTweet(table, id).value;
      forall t | t in table && t.id != id ensures t in r.0 {
        var j :| 0 <= j < |table| && table[j] == t;
        if j < i { assert r.0[j] == t; } else { assert r.0[j - 1] == t; }
      }
      forall t | t in r.0 ensures t.id != id {
        var j :| 0 <= j < |r.0| && r.0[j] == t;
        if j < i { assert t == table[j]; } else { assert t == table[j + 1]; }
      }
    }
  }

  /** `delete_trend`: removes the first trend with this id. */
  function DeleteTrend(table: seq<Trend>, id: int): (r: (seq<Trend>, bool))
    ensures !r.1 <==> forall i :: 0 <= i < |table| ==> table[i].id != id
    ensures !r.1 ==> r.0 == table
    ensures r.1 ==> |r.0| == |table| - 1 && exists i :: 0 <= i < |table| && table[i].id == id && r.0 == table[..i] + table[i + 1..]
  {
    match FindIndex(table, (t: Trend) => t.id == id)
    case None => (table, false)
    case Some(i) => (table[..i] + table[i + 1..], true)
  }
}
