/** The trends endpoints of the HTTP API: the filtered, paginated trend
    list and the summary statistics. The query-parameter bounds FastAPI
    enforces before the handler runs are part of the model. */
module TrendsApi {
  import opened Base
  import opened Sorting
  import opened Models

  const DefaultPageSize := 12
  const MaxPageSize := 100

  /** The query parameters of `GET /api/trends`; dates are timestamps. */
  datatype TrendQuery = TrendQuery(source: Option<string>, dateFrom: Option<int>, dateTo: Option<int>,
                                   hasSummary: Option<bool>, page: int, limit: int)

  datatype TrendList = TrendList(trends: seq<Trend>, total: nat, page: int, perPage: int, totalPages: int)

  datatype Response = Ok(list: TrendList) | HttpError(status: int, detail: string)

  /** A trend passes every filter the query sets. */
  predicate Matches(t: Trend, source: Option<TrendSource>, q: TrendQuery) {
    && (source.Some? ==> t.source == source.value)
    && (q.dateFrom.Some? ==> t.discoveredAt >= q.dateFrom.value)
    && (q.dateTo.Some? ==> t.discoveredAt <= q.dateTo.value)
    && (q.hasSummary == Some(true) ==> t.summary.Some?)
    && (q.hasSummary == Some(false) ==> t.summary.None?)
  }

  function MatchesFor(source: Option<TrendSource>, q: TrendQuery): Trend -> bool {
    (t: Trend) => Matches(t, source, q)
  }

  /** Newest first. */
  function DiscoveredKey(t: Trend): Key { (t.discoveredAt, 0) }

  /** `(total + limit - 1) // limit`. */
  function TotalPages(total: nat, limit: int): (r: nat)
    requires limit >= 1
    ensures r * limit >= total
    ensures total > 0 ==> (r - 1) * limit < total
    ensures total == 0 ==> r == 0
  {
    (total + limit - 1) / limit
  }

  /** The filtered trends, newest first, before pagination. */
  function Ordered(table: seq<Trend>, source: Option<TrendSource>, q: TrendQuery): (r: seq<Trend>)
    ensures |r| == CountIf(table, MatchesFor(source, q))
    ensures SortedDesc(r, DiscoveredKey)
    ensures multiset(r) == multiset(Filter(table, MatchesFor(source, q)))
    ensures forall t :: t in r ==> t in table && Matches(t, source, q)
  {
    var rows := Filter(table, MatchesFor(source, q));
    CountIfIsFilterLength(table, MatchesFor(source, q));
    SortDescSorted(rows, DiscoveredKey);
    var r := SortDesc(rows, DiscoveredKey);
    assert forall t :: t in r ==> t in rows by {
      forall t | t in r ensures t in rows {
        assert t in multiset(r);
      }
    }
    r
  }

  /** The source filter a query asks for; an empty string asks for none. */
  function QuerySource(q: TrendQuery): Option<TrendSource> {
    if q.source.Some? && q.source.value != "" then SourceFromValue(q.source.value) else None
  }

  /** The rows a page skips: `(page - 1) * limit`. */
  function Offset(page: int, limit: int): nat
    requires page >= 1 && limit >= 1
  {
    (page - 1) * limit
  }

  /** `.offset((page - 1) * limit).limit(limit)`. */
  function PageSlice(all: seq<Trend>, page: int, limit: int): (r: seq<Trend>)
    requires page >= 1 && limit >= 1
    ensures |r| <= limit
    ensures Offset(page, limit) >= |all| ==> r == []
    ensures Offset(page, limit) < |all| ==>
      r == all[Offset(page, limit)..Min(Offset(page, limit) + limit, |all|)]
  {
    var offset := Offset(page, limit);
    var r := SqlLimit(ApplyOffset(all, offset), limit);
    assert offset < |all| ==> ApplyOffset(all, offset) == all[offset..];
    r
  }

  /** The page `get_trends` answers with once the query is accepted. */
  function Listing(table: seq<Trend>, q: TrendQuery): (r: TrendList)
    requires q.page >= 1 && 1 <= q.limit <= MaxPageSize
    ensures var all := Ordered(table, QuerySource(q), q);
      var offset := Offset(q.page, q.limit);
      && r.total == |all| && r.page == q.page && r.perPage == q.limit
      && r.totalPages == TotalPages(|all|, q.limit)
      && |r.trends| <= q.limit
      && (offset >= |all| ==> r.trends == [])
      && (offset < |all| ==> r.trends == all[offset..Min(offset + q.limit, |all|)])
  {
    var all := Ordered(table, QuerySource(q), q);
    TrendList(PageSlice(all, q.page, q.limit), |all|, q.page, q.limit, TotalPages(|all|, q.limit))
  }

  /** A query is answered when its bounds hold and its source, if any,
      names a `TrendSource`. */
  predicate Accepted(q: TrendQuery) {
    q.page >= 1 && 1 <= q.limit <= MaxPageSize &&
    !(q.source.Some? && q.source.value != "" && SourceFromValue(q.source.value).None?)
  }

  /** `get_trends`: 422 for a page or page size out of bounds, 400 for a
      source that names no `TrendSource` (an empty one filters nothing),
      otherwise the requested page. */
  function GetTrends(table: seq<Trend>, q: TrendQuery): (r: Response)
    ensures r.Ok? <==> Accepted(q)
    ensures q.page < 1 || q.limit < 1 || q.limit > MaxPageSize ==> r.HttpError? && r.status == 422
    ensures q.page >= 1 && 1 <= q.limit <= MaxPageSize && q.source.Some? && q.source.value != "" &&
            SourceFromValue(q.source.value).None? ==>
      r == HttpError(400, "Invalid source: " + q.source.value)
    ensures r.Ok? ==> r.list == Listing(table, q)
  {
    if q.page < 1 || q.limit < 1 || q.limit > MaxPageSize then HttpError(422, "Unprocessable Entity")
    else if q.source.Some? && q.source.value != "" && SourceFromValue(q.source.value).None? then
      HttpError(400, "Invalid source: " + q.source.value)
    else Ok(Listing(table, q))
  }

  lemma RankArithmetic(j: nat, limit: int, total: nat)
    requires limit >= 1 && j < total
    ensures var page := j / limit + 1;
      var offset := Offset(page, limit);
      offset <= j < offset + limit && j - offset == j % limit && page <= TotalPages(total, limit)
  {
    var r := TotalPages(total, limit);
    var k, m := j / limit, j % limit;
    assert j == k * limit + m && 0 <= m < limit;
    assert (k + 1 - 1) * limit == k * limit;
    assert k * limit < r * limit;
    MulLessCancel(k, r, limit);
  }

  /** Every matching trend is on exactly the page its rank says, and that
      page is within `total_pages`. */
  lemma PageOfRank(table: seq<Trend>, q: TrendQuery, j: nat)
    requires 1 <= q.limit <= MaxPageSize && q.page == j / q.limit + 1
    requires j < |Ordered(table, QuerySource(q), q)|
    ensures var r := Listing(table, q);
      && j % q.limit < |r.trends| && r.trends[j % q.limit] == Ordered(table, QuerySource(q), q)[j]
      && q.page <= r.totalPages
  {
    var all := Ordered(table, QuerySource(q), q);
    RankArithmetic(j, q.limit, |all|);
    var offset := Offset(q.page, q.limit);
    var trends := PageSlice(all, q.page, q.limit);
    assert trends == all[offset..Min(offset + q.limit, |all|)];
    assert trends[j - offset] == all[j];
  }

  /** `has_summary` selects exactly the trends with, or without, one. */
  lemma SummaryFilterSplits(table: seq<Trend>, q: TrendQuery)
    requires q.source == None && q.dateFrom == None && q.dateTo == None
    ensures CountIf(table, MatchesFor(None, q.(hasSummary := Some(true)))) +
            CountIf(table, MatchesFor(None, q.(hasSummary := Some(false)))) == |table|
  {
    CountIfComplement(table, MatchesFor(None, q.(hasSummary := Some(true))),
                      MatchesFor(None, q.(hasSummary := Some(false))));
  }

  // ------------------------------------------------------------ statistics

  datatype TrendStats = TrendStats(total: nat, withSummaries: nat, withoutSummaries: int,
                                   bySource: seq<(string, nat)>)

  function HasSummary(): Trend -> bool { (t: Trend) => t.summary.Some? }
  function NoSummary(): Trend -> bool { (t: Trend) => t.summary.None? }
  function FromSource(s: TrendSource): Trend -> bool { (t: Trend) => t.source == s }

  /** The number of trends from source `s`. */
  function SourceCount(table: seq<Trend>, s: TrendSource): nat {
    CountIf(table, FromSource(s))
  }

  /** The `by_source` entries for the given sources, in their order,
      leaving out the ones with no trend. */
  function BySource(table: seq<Trend>, sources: seq<TrendSource>): (r: seq<(string, nat)>)
    ensures forall e :: e in r ==> e.1 > 0 && exists s :: s in sources && e == (SourceValue(s), SourceCount(table, s))
    ensures forall s :: s in sources && SourceCount(table, s) > 0 ==> (SourceValue(s), SourceCount(table, s)) in r
    decreases |sources|
  {
    if |sources| == 0 then []
    else
      var n := SourceCount(table, sources[0]);
      var rest := BySource(table, sources[1..]);
      assert forall s :: s in sources[1..] ==> s in sources;
      (if n > 0 then [(SourceValue(sources[0]), n)] else []) + rest
  }

  function SumCounts(entries: seq<(string, nat)>): nat
    decreases |entries|
  {
    if |entries| == 0 then 0 else entries[0].1 + SumCounts(entries[1..])
  }

  function SourceCountSum(table: seq<Trend>, sources: seq<TrendSource>): nat
    decreases |sources|
  {
    if |sources| == 0 then 0 else SourceCount(table, sources[0]) + SourceCountSum(table, sources[1..])
  }

  lemma {:induction false} BySourceSum(table: seq<Trend>, sources: seq<TrendSource>)
    ensures SumCounts(BySource(table, sources)) == SourceCountSum(table, sources)
    decreases |sources|
  {
    if |sources| > 0 {
      BySourceSum(table, sources[1..]);
      var n := SourceCount(table, sources[0]);
      var head: seq<(string, nat)> := if n > 0 then [(SourceValue(sources[0]), n)] else [];
      SumCountsAppend(head, BySource(table, sources[1..]));
    }
  }

  lemma {:induction false} SumCountsAppend(a: seq<(string, nat)>, b: seq<(string, nat)>)
    ensures SumCounts(a + b) == SumCounts(a) + SumCounts(b)
    decreases |a|
  {
    if |a| > 0 {
      assert (a + b)[1..] == a[1..] + b;
      SumCountsAppend(a[1..], b);
    } else {
      assert a + b == b;
    }
  }

  /** Every trend has exactly one of the seven sources. */
  lemma {:induction false} SourcesCoverTable(table: seq<Trend>)
    ensures SourceCountSum(table, AllSources) == |table|
    decreases |table|
  {
    if |table| > 0 {
      SourcesCoverTable(table[1..]);
      UnrollSources(table);
      UnrollSources(table[1..]);
      SourceCountHead(table);
    } else {
      UnrollSources(table);
    }
  }

  /** The first trend counts once, under its own source. */
  lemma SourceCountHead(table: seq<Trend>)
    requires |table| > 0
    ensures forall s :: SourceCount(table, s) == (if table[0].source == s then 1 else 0) + SourceCount(table[1..], s)
  {
  }

  lemma UnrollSources(table: seq<Trend>)
    ensures SourceCountSum(table, AllSources) ==
      SourceCount(table, XTwitter) + SourceCount(table, YahooFinance) +
      SourceCount(table, Wsj) + SourceCount(table, TechCrunch) +
      SourceCount(table, Bloomberg) + SourceCount(table, MarketWatch) +
      SourceCount(table, Manual)
  {
    var s := AllSources;
    assert s[1..][1..][1..][1..][1..][1..][1..] == [];
  }

  /** Each source with trends is listed with its count. */
  lemma BySourceListsAll(table: seq<Trend>, s: TrendSource)
    requires SourceCount(table, s) > 0
    ensures (SourceValue(s), SourceCount(table, s)) in BySource(table, AllSources)
  {
    SourceValuesIdentify(s);
  }

  /** `entries` holds, for each source with trends and for no other,
      its value and its number of trends. */
  predicate ListsSources(table: seq<Trend>, entries: seq<(string, nat)>) {
    && (forall e :: e in entries ==> e.1 > 0 && exists s :: e == (SourceValue(s), SourceCount(table, s)))
    && (forall s :: SourceCount(table, s) > 0 ==> (SourceValue(s), SourceCount(table, s)) in entries)
  }

  /** The per-source counts list every source with trends, only those,
      and add up to the number of trends. */
  lemma BySourceStats(table: seq<Trend>)
    ensures ListsSources(table, BySource(table, AllSources))
    ensures SumCounts(BySource(table, AllSources)) == |table|
  {
    BySourceSum(table, AllSources);
    SourcesCoverTable(table);
    forall s | SourceCount(table, s) > 0
      ensures (SourceValue(s), SourceCount(table, s)) in BySource(table, AllSources)
    {
      BySourceListsAll(table, s);
    }
  }

  /** `get_trends_stats`. */
  function GetTrendsStats(table: seq<Trend>): TrendStats {
    TrendStats(|table|, CountIf(table, HasSummary()), |table| - CountIf(table, HasSummary()),
               BySource(table, AllSources))
  }

  /** The statistics count every trend once: with or without a summary,
      and under its source. */
  lemma TrendsStatsCount(table: seq<Trend>)
    ensures GetTrendsStats(table).total == |table|
    ensures GetTrendsStats(table).withSummaries == CountIf(table, HasSummary())
    ensures GetTrendsStats(table).withoutSummaries == CountIf(table, NoSummary())
    ensures SumCounts(GetTrendsStats(table).bySource) == GetTrendsStats(table).total
    ensures ListsSources(table, GetTrendsStats(table).bySource)
  {
    SummaryComplement(table);
    BySourceStats(table);
  }

  /** Every trend has a summary or has none. */
  lemma SummaryComplement(table: seq<Trend>)
    ensures CountIf(table, NoSummary()) == |table| - CountIf(table, HasSummary())
  {
    CountIfComplement(table, HasSummary(), NoSummary());
  }
}
