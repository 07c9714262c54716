/** The daily job that adds published page views to the demand ranking. */
module Pageviews {
  import opened Base
  import opened Replica
  import opened Keyset
  import opened Resume
  import opened Repository
  import opened Dates
  import Sorting

  /* ---- One day's file ---- */

  /** One line, cut at its spaces. */
  type Line = seq<string>

  datatype View = View(wiki: string, pageId: nat, count: nat)

  /** What a line counts for, if it counts: long enough, a wanted wiki, numbers, and at least the floor. */
  function ViewOf(line: Line, domains: map<string, string>, minimum: int): Option<View> {
    if |line| < 5 || line[0] !in domains || !IsDigits(line[2]) || !IsDigits(line[4]) || Number(line[4]) < minimum then None
    else Some(View(domains[line[0]], Number(line[2]), Number(line[4])))
  }

  /** The views of one page that count, line by line. */
  function PageViews(lines: seq<Line>, domains: map<string, string>, minimum: int, wiki: string, pageId: nat): seq<nat> {
    if lines == [] then []
    else
      var view := ViewOf(lines[|lines| - 1], domains, minimum);
      PageViews(lines[..|lines| - 1], domains, minimum, wiki, pageId)
      + if view.Some? && view.value.wiki == wiki && view.value.pageId == pageId then [view.value.count] else []
  }

  function Sum(counts: seq<nat>): nat {
    if counts == [] then 0 else Sum(counts[..|counts| - 1]) + counts[|counts| - 1]
  }

  type Totals = map<string, map<nat, nat>>

  /** The page is there when any line counted for it, with the sum of those lines. */
  ghost predicate EntryIs(totals: Totals, wiki: string, pageId: nat, counts: seq<nat>)
    requires wiki in totals
  {
    && (pageId in totals[wiki] <==> counts != [])
    && (pageId in totals[wiki] ==> totals[wiki][pageId] == Sum(counts))
  }

  /** Every wanted wiki has its pages with at least one counting line, each with the sum of its lines. */
  ghost predicate Totalled(totals: Totals, lines: seq<Line>, domains: map<string, string>, minimum: int) {
    && totals.Keys == domains.Values
    && forall wiki, pageId: nat :: wiki in totals ==>
         EntryIs(totals, wiki, pageId, PageViews(lines, domains, minimum, wiki, pageId))
  }

  lemma SumOne(counts: seq<nat>, count: nat)
    ensures Sum(counts + [count]) == Sum(counts) + count
  {
    assert (counts + [count])[..|counts|] == counts;
  }

  /** `bucket[page] = bucket.get(page, 0) + count`. */
  function Bumped(totals: Totals, view: View): Totals
    requires view.wiki in totals
  {
    var bucket := totals[view.wiki];
    var sum: nat := (if view.pageId in bucket then bucket[view.pageId] else 0) + view.count;
    var more: map<nat, nat> := bucket[view.pageId := sum];
    totals[view.wiki := more]
  }

  lemma PageViewsOne(lines: seq<Line>, line: Line, domains: map<string, string>, minimum: int, wiki: string, pageId: nat,
                     view: Option<View>)
    requires view == ViewOf(line, domains, minimum)
    ensures var before := PageViews(lines, domains, minimum, wiki, pageId);
      PageViews(lines + [line], domains, minimum, wiki, pageId) ==
        if view.Some? && view.value.wiki == wiki && view.value.pageId == pageId then before + [view.value.count] else before
  {
    assert (lines + [line])[..|lines|] == lines;
  }

  lemma BumpedEntry(totals: Totals, view: View, wiki: string, pageId: nat, counts: seq<nat>)
    requires wiki in totals && view.wiki in totals && EntryIs(totals, wiki, pageId, counts)
    ensures EntryIs(Bumped(totals, view), wiki, pageId,
      if view.wiki == wiki && view.pageId == pageId then counts + [view.count] else counts)
  {
    SumOne(counts, view.count);
  }

  lemma TotalledNext(totals: Totals, lines: seq<Line>, line: Line, domains: map<string, string>, minimum: int,
                     view: Option<View>)
    requires Totalled(totals, lines, domains, minimum) && view == ViewOf(line, domains, minimum)
    ensures view.Some? ==> view.value.wiki in totals
    ensures Totalled(if view.Some? then Bumped(totals, view.value) else totals, lines + [line], domains, minimum)
  {
    assert view.Some? ==> view.value.wiki in domains.Values;
    var next := if view.Some? then Bumped(totals, view.value) else totals;
    forall wiki, pageId: nat | wiki in next
      ensures EntryIs(next, wiki, pageId, PageViews(lines + [line], domains, minimum, wiki, pageId))
    {
      PageViewsOne(lines, line, domains, minimum, wiki, pageId, view);
      if view.Some? {
        BumpedEntry(totals, view.value, wiki, pageId, PageViews(lines, domains, minimum, wiki, pageId));
      }
    }
  }

  /** The day's totals, line by line. */
  function DayTotals(lines: seq<Line>, domains: map<string, string>, minimum: int): Totals {
    if lines == [] then map wiki | wiki in domains.Values :: map[]
    else
      var before := DayTotals(lines[..|lines| - 1], domains, minimum);
      var view := ViewOf(lines[|lines| - 1], domains, minimum);
      if view.Some? && view.value.wiki in before then Bumped(before, view.value) else before
  }

  lemma {:induction false} DayTotalsAreSums(lines: seq<Line>, domains: map<string, string>, minimum: int)
    ensures Totalled(DayTotals(lines, domains, minimum), lines, domains, minimum)
  {
    if lines != [] {
      var n := |lines| - 1;
      DayTotalsAreSums(lines[..n], domains, minimum);
      TotalledNext(DayTotals(lines[..n], domains, minimum), lines[..n], lines[n], domains, minimum,
                   ViewOf(lines[n], domains, minimum));
      assert lines == lines[..n] + [lines[n]];
    }
  }

  /** The day's views of a page so far. */
  function ViewedOn(totals: Totals, wiki: string, pageId: nat): nat {
    if wiki in totals && pageId in totals[wiki] then totals[wiki][pageId] else 0
  }

  /** One more line, in its own fields: domain, title, page id, access method, views. It adds its views to its page of the
      domain's wiki when it names a wanted domain and reaches the floor, and nothing to any other page. */
  lemma LineAdds(lines: seq<Line>, domain: string, title: string, page: nat, agent: string, views: nat, more: Line,
                 domains: map<string, string>, minimum: int, wiki: string, pageId: nat)
    ensures var line := [domain, title, Text(page), agent, Text(views)] + more;
      ViewedOn(DayTotals(lines + [line], domains, minimum), wiki, pageId)
        == ViewedOn(DayTotals(lines, domains, minimum), wiki, pageId)
           + if domain in domains && domains[domain] == wiki && page == pageId && views >= minimum then views else 0
  {
    var line := [domain, title, Text(page), agent, Text(views)] + more;
    DecimalRoundTrip(page);
    DecimalRoundTrip(views);
    DayTotalsAreSums(lines, domains, minimum);
    assert (lines + [line])[..|lines|] == lines;
  }

  /** A line too short, or without whole numbers for page and views, adds nothing. */
  lemma BadLineAddsNothing(lines: seq<Line>, line: Line, domains: map<string, string>, minimum: int)
    requires |line| < 5 || !IsDigits(line[2]) || !IsDigits(line[4])
    ensures DayTotals(lines + [line], domains, minimum) == DayTotals(lines, domains, minimum)
  {
    assert (lines + [line])[..|lines|] == lines;
  }

  /** `read_daily_views`. */
  method ReadDailyViews(lines: seq<Line>, domains: map<string, string>, minimum: int) returns (totals: Totals)
    ensures totals == DayTotals(lines, domains, minimum) && totals.Keys == domains.Values
  {
    totals := map wiki | wiki in domains.Values :: map[];
    for i := 0 to |lines|
      invariant totals == DayTotals(lines[..i], domains, minimum) && totals.Keys == domains.Values
    {
      assert lines[..i + 1][..i] == lines[..i];
      var view := ViewOf(lines[i], domains, minimum);
      if view.Some? {
        assert domains[lines[i][0]] in domains.Values;
        totals := Bumped(totals, view.value);
      }
    }
    assert lines[..|lines|] == lines;
  }

  /* ---- The pages kept ---- */

  datatype Ranked = Ranked(count: nat, pageId: nat)

  predicate MoreViewed(a: Ranked, b: Ranked) {
    a.count > b.count || (a.count == b.count && a.pageId < b.pageId)
  }

  /** All pages when they fit, otherwise exactly `limit` of them, none viewed less than one left out. */
  ghost predicate IsTop(counts: map<nat, nat>, limit: int, top: map<nat, nat>) {
    && (forall id :: id in top ==> id in counts && top[id] == counts[id])
    && (if limit <= 0 || |counts| <= limit then top == counts else |top| == limit)
    && forall kept, dropped :: kept in top && dropped in counts && dropped !in top ==> counts[dropped] <= counts[kept]
  }

  lemma MoreViewedIsStrict()
    ensures StrictOrder(MoreViewed)
  {
  }

  function RankedLines(counts: map<nat, nat>): set<Ranked> {
    set id: nat | id in counts :: Ranked(counts[id], id)
  }

  lemma {:induction false} RankedSize(counts: map<nat, nat>)
    ensures |RankedLines(counts)| == |counts|
  {
    if counts != map[] {
      var id: nat :| id in counts;
      var rest := counts - {id};
      RankedSize(rest);
      assert counts == rest[id := counts[id]];
      assert RankedLines(counts) == RankedLines(rest) + {Ranked(counts[id], id)};
    }
  }

  /** `top_pages`. */
  method TopPages(counts: map<nat, nat>, limit: int) returns (top: map<nat, nat>)
    ensures IsTop(counts, limit, top)
  {
    if limit <= 0 || |counts| <= limit {
      return counts;
    }
    var lines := RankedLines(counts);
    MoreViewedIsStrict();
    RankedSize(counts);
    var kept := FirstKeys(lines, limit, MoreViewed);
    KeptFills(lines, limit, kept);
    top := map id: nat | id in counts && Ranked(counts[id], id) in kept :: counts[id];
    KeptSize(counts, kept, top);
    forall a: nat, b: nat | a in top && b in counts && b !in top ensures counts[b] <= counts[a] {
      assert Ranked(counts[b], b) in lines;
      assert MoreViewed(Ranked(counts[a], a), Ranked(counts[b], b));
    }
  }

  lemma KeptSize(counts: map<nat, nat>, kept: seq<Ranked>, top: map<nat, nat>)
    requires Sorting.StrictlyRanked(kept, MoreViewed) && forall line :: line in kept ==> line in RankedLines(counts)
    requires top == map id: nat | id in counts && Ranked(counts[id], id) in kept :: counts[id]
    ensures |top| == |kept|
  {
    MoreViewedIsStrict();
    DistinctCount(kept, MoreViewed);
    RankedSize(top);
    forall line ensures line in RankedLines(top) <==> line in KeysOf(kept) {
      if line in kept {
        var id: nat :| id in counts && line == Ranked(counts[id], id);
        assert id in top && top[id] == counts[id];
      }
    }
    assert RankedLines(top) == KeysOf(kept);
  }

  lemma KeptFills(lines: set<Ranked>, limit: nat, kept: seq<Ranked>)
    requires |lines| > limit && IsBatch(lines, None, limit, kept, MoreViewed)
    ensures |kept| == limit
  {
    if |kept| < limit {
      MoreViewedIsStrict();
      DistinctCount(kept, MoreViewed);
      assert lines <= KeysOf(kept);
      SubsetSize(lines, KeysOf(kept));
    }
  }

  /* ---- The job ---- */

  const LAST_DAY_KEY := "demand:pageviews:last-day"

  datatype Config = Config(domains: map<string, string>, minimumViews: int, topPages: int, freshness: int)

  /** One wiki's share of a day. */
  function DayStep(tops: Totals, olderThan: int, now: int): (DemandTable, string) -> DemandTable {
    (t, wiki) =>
      ReleaseStale(if wiki in tops then AddViews(t, wiki, tops[wiki], tops[wiki].Keys, now) else t, wiki, olderThan, now)
  }

  /** The demand after a day was added for every wiki. */
  function AfterDay(t: DemandTable, wikis: seq<string>, tops: Totals, olderThan: int, now: int): DemandTable {
    Fold(t, wikis, DayStep(tops, olderThan, now))
  }

  /** `last_day and last_day >= day.isoformat()`. */
  predicate AlreadyRecorded(state: map<string, string>, day: Date) {
    LAST_DAY_KEY in state && state[LAST_DAY_KEY] != "" && !TextBefore(state[LAST_DAY_KEY], Iso(day))
  }

  /** Once a day is recorded, the marker turns away exactly the days up to it. */
  lemma MarkerRemembers(state: map<string, string>, recorded: Date, day: Date)
    requires IsDate(recorded) && IsDate(day)
    ensures AlreadyRecorded(state[LAST_DAY_KEY := Iso(recorded)], day) <==> !Earlier(recorded, day)
  {
    IsoOrder(recorded, day);
  }

  /** How a run ends: complete, or dead after `wikis` whole wikis and `chunks` transactions of the next one. */
  datatype Ending = Completed | Died(wikis: nat, chunks: nat)

  /** One run of the job, with the pages it keeps of the day. */
  datatype DayRun = DayRun(day: Date, tops: Totals, wikis: seq<string>, olderThan: int, now: int, ending: Ending)

  /** The smaller identifiers of the counted pages. */
  function Below(counts: map<nat, nat>, id: nat): set<nat> {
    set k: nat | k in counts && k < id
  }

  /** The first `n` counted pages by identifier. */
  function FirstIds(counts: map<nat, nat>, n: nat): set<nat> {
    set id: nat | id in counts && |Below(counts, id)| < n
  }

  /** What a run makes of the demand. */
  function AfterRun(t: DemandTable, run: DayRun): DemandTable {
    match run.ending
    case Completed => AfterDay(t, run.wikis, run.tops, run.olderThan, run.now)
    case Died(n, chunks) =>
      if n >= |run.wikis| then AfterDay(t, run.wikis, run.tops, run.olderThan, run.now)
      else AddedChunks(AfterDay(t, run.wikis[..n], run.tops, run.olderThan, run.now), run, run.wikis[n], chunks)
  }

  function AddedChunks(t: DemandTable, run: DayRun, wiki: string, chunks: nat): DemandTable {
    if wiki in run.tops
    then AddViews(t, wiki, run.tops[wiki], FirstIds(run.tops[wiki], CHUNK * chunks), run.now)
    else t
  }

  datatype Store = Store(demand: DemandTable, state: map<string, string>)

  function StoreOf(r: Repository): Store
    reads r
  {
    Store(r.demand, r.state)
  }

  function MarkerAfter(state: map<string, string>, run: DayRun): map<string, string> {
    if !AlreadyRecorded(state, run.day) && run.ending.Completed? then state[LAST_DAY_KEY := Iso(run.day)] else state
  }

  /** `collect`: a recorded day changes nothing; otherwise the demand grows, and the marker is written last. */
  function CollectRun(s: Store, run: DayRun): Store {
    if AlreadyRecorded(s.state, run.day) then s else Store(AfterRun(s.demand, run), MarkerAfter(s.state, run))
  }

  method SortedIds(counts: map<nat, nat>) returns (ids: seq<nat>)
    ensures Rising(ids) && forall id: int :: id in ids <==> id in counts
  {
    ids := FirstKeys<nat>(counts.Keys, |counts|, Ascending);
    DistinctCount<nat>(ids, Ascending);
    if id: nat :| id in counts && id !in ids {
      assert KeysOf(ids) <= counts.Keys - {id};
      SubsetSize(KeysOf(ids), counts.Keys - {id});
    }
  }

  /** Adds one wiki's day to its demand. */
  method RecordWiki(r: Repository, wiki: string, counts: map<nat, nat>, olderThan: int, now: int)
    modifies r`demand
    ensures r.demand == ReleaseStale(AddViews(old(r.demand), wiki, counts, counts.Keys, now), wiki, olderThan, now)
  {
    var ids := SortedIds(counts);
    var _, _ := r.RecordPageViews(wiki, counts, ids, now);
    var _ := r.RequeueStaleDemand(wiki, olderThan, now);
  }

  /** What is kept of a day: the top pages of each wanted wiki by the day's totals. */
  ghost predicate IsDayTops(c: Config, totals: Totals, tops: Totals) {
    && tops.Keys == totals.Keys
    && forall wiki :: wiki in tops ==> IsTop(totals[wiki], c.topPages, tops[wiki])
  }

  /** `collect`, once a day's file has been found, by a process that ends as `ending` says. */
  method Collect(r: Repository, c: Config, day: Date, lines: seq<Line>, wikis: seq<string>, now: int, ending: Ending)
    returns (ghost tops: Totals)
    requires forall wiki :: wiki in wikis <==> wiki in c.domains.Values
    modifies r`demand, r`state
    ensures StoreOf(r) == CollectRun(old(StoreOf(r)), DayRun(day, tops, wikis, c.freshness, now, ending))
    ensures !old(AlreadyRecorded(r.state, day)) ==> IsDayTops(c, DayTotals(lines, c.domains, c.minimumViews), tops)
  {
    tops := map[];
    var last := r.GetState(LAST_DAY_KEY);
    if last.Some? && last.value != "" && !TextBefore(last.value, Iso(day)) {
      return;
    }
    var kept := ReadTops(c, lines, wikis);
    tops := kept;
    if ending.Died? && ending.wikis < |wikis| {
      AddDay(r, kept, wikis[..ending.wikis], c.freshness, now);
      assert wikis[ending.wikis] in wikis;
      RecordSomeChunks(r, wikis[ending.wikis], kept[wikis[ending.wikis]], ending.chunks, now);
    } else {
      AddDay(r, kept, wikis, c.freshness, now);
    }
    if ending.Completed? {
      r.SetState(LAST_DAY_KEY, Iso(day));
    }
  }

  method RecordSomeChunks(r: Repository, wiki: string, counts: map<nat, nat>, chunks: nat, now: int)
    modifies r`demand
    ensures r.demand == AddViews(old(r.demand), wiki, counts, FirstIds(counts, CHUNK * chunks), now)
  {
    var ids := SortedIds(counts);
    SpanIsFirst(counts, ids, CHUNK * chunks);
    var _, _ := r.RecordChunks(wiki, counts, ids, chunks, now);
  }

  lemma {:induction false} SpanIndex(ids: seq<int>, n: nat, k: int) returns (j: nat)
    requires n <= |ids| && k in Span(ids, 0, n)
    ensures j < n && ids[j] == k
    decreases n
  {
    if k == ids[n - 1] {
      j := n - 1;
    } else {
      j := SpanIndex(ids, n - 1, k);
    }
  }

  /** A sorted list's first `n` identifiers are those it holds at an index below `n`. */
  lemma InSpan(ids: seq<nat>, n: nat, i: nat)
    requires Rising(ids) && n <= |ids| && i < |ids|
    ensures ids[i] in Span(ids, 0, n) <==> i < n
  {
    if i < n {
      SpanHas(ids, n, i);
    } else if ids[i] in Span(ids, 0, n) {
      var j := SpanIndex(ids, n, ids[i]);
      assert false;
    }
  }

  lemma LowerIsInSpan(ids: seq<nat>, i: nat, k: nat)
    requires Rising(ids) && i < |ids| && k in ids && k < ids[i]
    ensures k in Span(ids, 0, i)
  {
    var j :| 0 <= j < |ids| && ids[j] == k;
    assert j < i;
    InSpan(ids, i, j);
  }

  lemma BelowIsSpan(counts: map<nat, nat>, ids: seq<nat>, i: nat)
    requires Rising(ids) && (forall id: int :: id in ids <==> id in counts) && i < |ids|
    ensures |Below(counts, ids[i])| == i
  {
    SpanSize(ids, 0, i);
    var below, span := Below(counts, ids[i]), Span(ids, 0, i);
    forall k: int | k in span ensures k in below {
      var j := SpanIndex(ids, i, k);
      assert ids[j] in ids && ids[j] < ids[i];
    }
    forall k: int | k in below ensures k in span {
      LowerIsInSpan(ids, i, k);
    }
    assert below == span;
  }

  /** The chunks of a sorted list are the first identifiers. */
  lemma SpanIsFirst(counts: map<nat, nat>, ids: seq<nat>, n: nat)
    requires Rising(ids) && forall id: int :: id in ids <==> id in counts
    ensures Span(ids, 0, Min(n, |ids|)) == FirstIds(counts, n)
  {
    var m := Min(n, |ids|);
    var first, span := FirstIds(counts, n), Span(ids, 0, m);
    forall k: int | k in span ensures k in first {
      var j := SpanIndex(ids, m, k);
      assert ids[j] in ids;
      BelowIsSpan(counts, ids, j);
    }
    forall k: int | k in first ensures k in span {
      var j :| 0 <= j < |ids| && ids[j] == k;
      BelowIsSpan(counts, ids, j);
      InSpan(ids, m, j);
    }
    assert span == first;
  }

  method ReadTops(c: Config, lines: seq<Line>, wikis: seq<string>) returns (tops: Totals)
    requires forall wiki :: wiki in wikis <==> wiki in c.domains.Values
    ensures IsDayTops(c, DayTotals(lines, c.domains, c.minimumViews), tops) && forall wiki :: wiki in wikis ==> wiki in tops
  {
    var totals := ReadDailyViews(lines, c.domains, c.minimumViews);
    tops := KeepTops(totals, wikis, c.topPages);
  }

  method AddDay(r: Repository, tops: Totals, wikis: seq<string>, olderThan: int, now: int)
    requires forall wiki :: wiki in wikis ==> wiki in tops
    modifies r`demand
    ensures r.demand == AfterDay(old(r.demand), wikis, tops, olderThan, now)
  {
    for i := 0 to |wikis|
      invariant r.demand == Fold(old(r.demand), wikis[..i], DayStep(tops, olderThan, now))
    {
      assert wikis[i] in wikis;
      FoldOne(old(r.demand), wikis, i, DayStep(tops, olderThan, now));
      RecordWiki(r, wikis[i], tops[wikis[i]], olderThan, now);
    }
    assert wikis[..|wikis|] == wikis;
  }

  method KeepTops(totals: Totals, wikis: seq<string>, limit: int) returns (tops: Totals)
    requires forall wiki :: wiki in wikis <==> wiki in totals
    ensures tops.Keys == totals.Keys && forall wiki :: wiki in tops ==> IsTop(totals[wiki], limit, tops[wiki])
  {
    tops := map[];
    for i := 0 to |wikis|
      invariant forall wiki :: wiki in tops <==> wiki in wikis[..i]
      invariant forall wiki :: wiki in tops ==> wiki in totals && IsTop(totals[wiki], limit, tops[wiki])
    {
      assert wikis[i] in wikis && wikis[..i + 1] == wikis[..i] + [wikis[i]];
      var top := TopPages(totals[wikis[i]], limit);
      tops := tops[wikis[i] := top];
    }
    assert wikis[..|wikis|] == wikis;
  }

  /* ---- What a day adds ---- */

  function ViewsIn(t: DemandTable, page: PageRef): nat {
    if page in t then t[page].data.views else 0
  }

  function DayAdds(tops: Totals, page: PageRef): nat {
    if page.wiki in tops && page.pageId >= 0 && page.pageId in tops[page.wiki] then tops[page.wiki][page.pageId] else 0
  }

  lemma ReleaseKeepsViews(t: DemandTable, wiki: string, olderThan: int, now: int, page: PageRef)
    ensures ViewsIn(ReleaseStale(t, wiki, olderThan, now), page) == ViewsIn(t, page)
  {
  }

  lemma AddViewsAdds(t: DemandTable, wiki: string, counts: map<nat, nat>, now: int, page: PageRef)
    ensures var more: nat := if page.wiki == wiki && page.pageId >= 0 && page.pageId in counts then counts[page.pageId] else 0;
      ViewsIn(AddViews(t, wiki, counts, counts.Keys, now), page) == ViewsIn(t, page) + more
  {
    var u := AddViews(t, wiki, counts, counts.Keys, now);
    if page.wiki == wiki && page.pageId in counts {
      assert page == PageRef(wiki, page.pageId) && page in u;
    } else {
      assert page in u <==> page in t;
    }
  }

  lemma StepAdds(t: DemandTable, tops: Totals, wiki: string, olderThan: int, now: int, page: PageRef)
    ensures var u := DayStep(tops, olderThan, now)(t, wiki);
      ViewsIn(u, page) == ViewsIn(t, page) + if page.wiki == wiki then DayAdds(tops, page) else 0
  {
    if wiki in tops {
      AddViewsAdds(t, wiki, tops[wiki], now, page);
      ReleaseKeepsViews(AddViews(t, wiki, tops[wiki], tops[wiki].Keys, now), wiki, olderThan, now, page);
    } else {
      ReleaseKeepsViews(t, wiki, olderThan, now, page);
    }
  }

  /** A recorded day adds each page's kept views once, and nothing to anybody else's. */
  lemma {:induction false} DayAddsOnce(t: DemandTable, wikis: seq<string>, tops: Totals, olderThan: int, now: int, page: PageRef)
    requires NoRepeats(wikis)
    ensures ViewsIn(AfterDay(t, wikis, tops, olderThan, now), page)
      == ViewsIn(t, page) + if page.wiki in wikis then DayAdds(tops, page) else 0
    decreases |wikis|
  {
    if wikis != [] {
      var n := |wikis| - 1;
      DayAddsOnce(t, wikis[..n], tops, olderThan, now, page);
      StepAdds(Fold(t, wikis[..n], DayStep(tops, olderThan, now)), tops, wikis[n], olderThan, now, page);
      assert wikis == wikis[..n] + [wikis[n]];
    }
  }

  /** When the page was handed over, if it has been. */
  function HandedAt(t: DemandTable, page: PageRef): Option<int> {
    if page in t then t[page].data.queuedAt else None
  }

  lemma StepReleases(t: DemandTable, tops: Totals, wiki: string, olderThan: int, now: int, page: PageRef)
    ensures var at := HandedAt(t, page);
      HandedAt(DayStep(tops, olderThan, now)(t, wiki), page)
        == if page.wiki == wiki && at.Some? && at.value + olderThan < now then None else at
  {
    var u := if wiki in tops then AddViews(t, wiki, tops[wiki], tops[wiki].Keys, now) else t;
    assert HandedAt(u, page) == HandedAt(t, page);
    assert DayStep(tops, olderThan, now)(t, wiki) == ReleaseStale(u, wiki, olderThan, now);
  }

  /** A recorded day puts exactly those pages of its wikis back in line that were handed over longer ago than the freshness
      window, and takes no page out of it. */
  lemma {:induction false} DayReleasesStale(t: DemandTable, wikis: seq<string>, tops: Totals, olderThan: int, now: int,
                                            page: PageRef)
    ensures var at := HandedAt(t, page);
      HandedAt(AfterDay(t, wikis, tops, olderThan, now), page)
        == if page.wiki in wikis && at.Some? && at.value + olderThan < now then None else at
    decreases |wikis|
  {
    if wikis != [] {
      var n := |wikis| - 1;
      DayReleasesStale(t, wikis[..n], tops, olderThan, now, page);
      StepReleases(Fold(t, wikis[..n], DayStep(tops, olderThan, now)), tops, wikis[n], olderThan, now, page);
      assert wikis == wikis[..n] + [wikis[n]];
    }
  }

  /* ---- Over many days ---- */

  /** The page is among the first `chunks` transactions of its wiki. */
  predicate InChunks(run: DayRun, page: PageRef, chunks: nat) {
    && page.wiki in run.tops && page.pageId >= 0
    && page.pageId in FirstIds(run.tops[page.wiki], CHUNK * chunks)
  }

  /** The run got as far as adding this page's views. */
  predicate Reaches(run: DayRun, page: PageRef) {
    match run.ending
    case Completed => page.wiki in run.wikis
    case Died(n, chunks) =>
      if n >= |run.wikis| then page.wiki in run.wikis
      else page.wiki in run.wikis[..n] || (page.wiki == run.wikis[n] && InChunks(run, page, chunks))
  }

  lemma ChunksAdd(t: DemandTable, run: DayRun, wiki: string, chunks: nat, page: PageRef)
    ensures ViewsIn(AddedChunks(t, run, wiki, chunks), page) == ViewsIn(t, page) +
      if page.wiki == wiki && wiki in run.tops && page.pageId >= 0 && page.pageId in FirstIds(run.tops[wiki], CHUNK * chunks)
      then DayAdds(run.tops, page) else 0
  {
    if wiki in run.tops {
      var ids := FirstIds(run.tops[wiki], CHUNK * chunks);
      var u := AddViews(t, wiki, run.tops[wiki], ids, run.now);
      if page.wiki == wiki && page.pageId >= 0 && page.pageId in ids {
        assert page == PageRef(wiki, page.pageId) && page in u;
      } else {
        assert page in u <==> page in t;
      }
    }
  }

  /** Whatever a run got done, it added a page's views once if it reached the page and not at all otherwise. */
  lemma RunAdds(t: DemandTable, run: DayRun, page: PageRef)
    requires NoRepeats(run.wikis)
    ensures ViewsIn(AfterRun(t, run), page) == ViewsIn(t, page) + if Reaches(run, page) then DayAdds(run.tops, page) else 0
  {
    if run.ending.Died? && run.ending.wikis < |run.wikis| {
      var n := run.ending.wikis;
      DayAddsOnce(t, run.wikis[..n], run.tops, run.olderThan, run.now, page);
      ChunksAdd(AfterDay(t, run.wikis[..n], run.tops, run.olderThan, run.now), run, run.wikis[n], run.ending.chunks, page);
      assert run.wikis[n] !in run.wikis[..n];
    } else {
      DayAddsOnce(t, run.wikis, run.tops, run.olderThan, run.now, page);
    }
  }

  function AfterRuns(s: Store, runs: seq<DayRun>): Store
    decreases |runs|
  {
    if runs == [] then s else AfterRuns(CollectRun(s, runs[0]), runs[1..])
  }

  /** The views the runs add to a page: those of every run that the marker let through and that reached the page. */
  function Added(state: map<string, string>, runs: seq<DayRun>, page: PageRef): nat
    decreases |runs|
  {
    if runs == [] then 0
    else
      (if !AlreadyRecorded(state, runs[0].day) && Reaches(runs[0], page) then DayAdds(runs[0].tops, page) else 0)
      + Added(MarkerAfter(state, runs[0]), runs[1..], page)
  }

  /** Over any runs, complete or dead after any of their transactions, a page's views grow by exactly what the runs that
      reached it before the marker was written add. */
  lemma {:induction false} ViewsGrowExactly(s: Store, runs: seq<DayRun>, page: PageRef)
    requires forall run :: run in runs ==> NoRepeats(run.wikis)
    ensures ViewsIn(AfterRuns(s, runs).demand, page) == ViewsIn(s.demand, page) + Added(s.state, runs, page)
    decreases |runs|
  {
    if runs != [] {
      var run := runs[0];
      assert run in runs;
      if !AlreadyRecorded(s.state, run.day) {
        RunAdds(s.demand, run, page);
      }
      assert CollectRun(s, run).state == MarkerAfter(s.state, run);
      ViewsGrowExactly(CollectRun(s, run), runs[1..], page);
    }
  }

  /** How many runs over one day add the page's views. */
  function TimesAdded(state: map<string, string>, runs: seq<DayRun>, day: Date, page: PageRef): nat
    decreases |runs|
  {
    if runs == [] then 0
    else
      (if runs[0].day == day && !AlreadyRecorded(state, day) && Reaches(runs[0], page) then 1 else 0)
      + TimesAdded(MarkerAfter(state, runs[0]), runs[1..], day, page)
  }

  /** The runs over the day that died after reaching the page. */
  function DeathsAfter(runs: seq<DayRun>, day: Date, page: PageRef): nat {
    if runs == [] then 0
    else
      var died := runs[0].day == day && runs[0].ending.Died? && Reaches(runs[0], page);
      DeathsAfter(runs[1..], day, page) + if died then 1 else 0
  }

  /** When every run is over the same day's file, the growth is that day's views times the runs that reached the page. */
  lemma {:induction false} GrowthIsTimesDay(state: map<string, string>, runs: seq<DayRun>, day: Date, tops: Totals, page: PageRef)
    requires forall run :: run in runs ==> run.day == day && run.tops == tops
    ensures Added(state, runs, page) == TimesAdded(state, runs, day, page) * DayAdds(tops, page)
    decreases |runs|
  {
    if runs != [] {
      assert runs[0] in runs;
      GrowthIsTimesDay(MarkerAfter(state, runs[0]), runs[1..], day, tops, page);
      var rest, v := TimesAdded(MarkerAfter(state, runs[0]), runs[1..], day, page), DayAdds(tops, page);
      assert (1 + rest) * v == v + rest * v;
    }
  }

  /** A recorded day stays recorded. */
  lemma MarkerOnlyRises(state: map<string, string>, run: DayRun, day: Date)
    requires AlreadyRecorded(state, day)
    ensures AlreadyRecorded(MarkerAfter(state, run), day)
  {
    if !AlreadyRecorded(state, run.day) && run.ending.Completed? {
      TextBeforeIsAsymmetric(state[LAST_DAY_KEY], Iso(run.day));
      TextTransitive(Iso(run.day), state[LAST_DAY_KEY], Iso(day));
      IsoIsText(run.day);
    }
  }

  lemma IsoIsText(d: Date)
    ensures Iso(d) != ""
  {
    assert |Pad(d.year, 4)| == 4;
  }

  /** A day's views are added to a page at most once, and once more for each run that died between reaching the page and
      the marker; a day the marker already names or passes is never added. */
  lemma {:induction false} DaysAddedOnce(state: map<string, string>, runs: seq<DayRun>, day: Date, page: PageRef)
    ensures TimesAdded(state, runs, day, page) <=
      if AlreadyRecorded(state, day) then 0 else DeathsAfter(runs, day, page) + 1
    decreases |runs|
  {
    if runs != [] {
      var run := runs[0];
      DaysAddedOnce(MarkerAfter(state, run), runs[1..], day, page);
      if AlreadyRecorded(state, day) {
        MarkerOnlyRises(state, run, day);
      } else if run.day == day && run.ending.Completed? {
        TextIrreflexive(Iso(day));
        IsoIsText(day);
      }
    }
  }

  /** Until some run over the day completes or a later day is recorded, the count is exact: every run over the day that
      reached the page, dead or not, has added it. */
  lemma {:induction false} EveryDeathCounts(state: map<string, string>, runs: seq<DayRun>, day: Date, page: PageRef)
    requires !AlreadyRecorded(state, day) && forall run :: run in runs ==> run.ending.Died?
    ensures TimesAdded(state, runs, day, page) == DeathsAfter(runs, day, page)
    decreases |runs|
  {
    if runs != [] {
      assert runs[0] in runs && MarkerAfter(state, runs[0]) == state;
      EveryDeathCounts(state, runs[1..], day, page);
    }
  }
}
