/** The repository: every transaction as a method on the tables, specified by the functions of the table modules.

    `now` is the clock reading of a call, and `rival` what another process inserts between a call's read and its own
    insert, if it does. */
module Repository {
  import opened Base
  import opened WorkQueue
  import opened Results
  import opened Keyset
  import Counters

  datatype PageRef = PageRef(wiki: string, pageId: int)

  datatype DemandData = DemandData(
    views: nat,
    lastViewedAt: Option<int>,
    lastRequestedAt: Option<int>,
    queuedAt: Option<int>,
    createdAt: int)

  type DemandTable = Counters.Table<PageRef, DemandData>

  datatype UsageKey = UsageKey(day: int, wiki: string, outcome: string)

  /* ---- Demand ---- */

  /** One line of the demand ranking of a wiki. */
  datatype Wanted = Wanted(requests: nat, views: nat, pageId: int)

  /** `ORDER BY requests DESC, views DESC, page_id DESC`. */
  predicate MoreWanted(a: Wanted, b: Wanted) {
    || a.requests > b.requests
    || (a.requests == b.requests && a.views > b.views)
    || (a.requests == b.requests && a.views == b.views && a.pageId > b.pageId)
  }

  function WantedLine(t: DemandTable, page: PageRef): Wanted
    requires page in t
  {
    Wanted(t[page].requests, t[page].data.views, page.pageId)
  }

  predicate Waiting(t: DemandTable, wiki: string, page: PageRef) {
    page in t && page.wiki == wiki && t[page].data.queuedAt.None?
  }

  /** The demand of a wiki that has not been handed to the queue yet. */
  function WaitingLines(t: DemandTable, wiki: string): set<Wanted> {
    set page | page in t && Waiting(t, wiki, page) :: WantedLine(t, page)
  }

  /** The ranking in its own fields: requests fall, then views, then identifiers; every line is a page of the wiki not yet
      handed over, with its counts; and a page left out comes after every line, of which there are then `limit`. */
  ghost predicate IsTopDemand(t: DemandTable, wiki: string, limit: nat, lines: seq<Wanted>) {
    && |lines| <= limit
    && (forall i, j :: 0 <= i < j < |lines| ==>
          || lines[i].requests > lines[j].requests
          || (lines[i].requests == lines[j].requests && lines[i].views > lines[j].views)
          || (lines[i].requests == lines[j].requests && lines[i].views == lines[j].views
              && lines[i].pageId > lines[j].pageId))
    && (forall line :: line in lines ==> var page := PageRef(wiki, line.pageId);
          && page in t && t[page].data.queuedAt.None?
          && line.requests == t[page].requests && line.views == t[page].data.views)
    && forall page :: page in t && page.wiki == wiki && t[page].data.queuedAt.None? && page.pageId !in PageIds(lines) ==>
         && |lines| == limit
         && forall line :: line in lines ==>
              || line.requests > t[page].requests
              || (line.requests == t[page].requests && line.views > t[page].data.views)
              || (line.requests == t[page].requests && line.views == t[page].data.views && line.pageId > page.pageId)
  }

  lemma TopDemand(t: DemandTable, wiki: string, limit: nat, lines: seq<Wanted>)
    requires IsBatch(WaitingLines(t, wiki), None, limit, lines, MoreWanted)
    ensures IsTopDemand(t, wiki, limit, lines)
  {
    forall i, j | 0 <= i < j < |lines| ensures MoreWanted(lines[i], lines[j]) {
    }
    forall line | line in lines
      ensures var page := PageRef(wiki, line.pageId);
        page in t && t[page].data.queuedAt.None? && line == WantedLine(t, page)
    {
      var page :| page in t && Waiting(t, wiki, page) && WantedLine(t, page) == line;
    }
    forall page | page in t && Waiting(t, wiki, page) && page.pageId !in PageIds(lines)
      ensures |lines| == limit && forall line :: line in lines ==> MoreWanted(line, WantedLine(t, page))
    {
      var own := WantedLine(t, page);
      assert own in WaitingLines(t, wiki);
      assert own !in lines by {
        assert forall i :: 0 <= i < |lines| ==> PageIds(lines)[i] == lines[i].pageId;
      }
    }
  }

  function PageIds(lines: seq<Wanted>): seq<int> {
    seq(|lines|, i requires 0 <= i < |lines| => lines[i].pageId)
  }

  /** `mark_demand_queued`: rows that are not there stay absent. */
  function MarkQueued(t: DemandTable, wiki: string, pageIds: seq<int>, now: int): DemandTable {
    map page | page in t ::
      if page.wiki == wiki && page.pageId in pageIds
      then t[page].(data := t[page].data.(queuedAt := Some(now)))
      else t[page]
  }

  /** The rows a mark meets. */
  function Marked(t: DemandTable, wiki: string, pageIds: seq<int>): set<PageRef> {
    set page | page in t && page.wiki == wiki && page.pageId in pageIds
  }

  lemma MarkingLeaves(t: DemandTable, wiki: string, pageIds: seq<int>, now: int)
    ensures var u := MarkQueued(t, wiki, pageIds, now);
      && (pageIds == [] ==> u == t)
      && forall line :: line in WaitingLines(u, wiki) <==> line in WaitingLines(t, wiki) && line.pageId !in pageIds
  {
    var u := MarkQueued(t, wiki, pageIds, now);
    forall line ensures line in WaitingLines(u, wiki) <==> line in WaitingLines(t, wiki) && line.pageId !in pageIds {
      if line in WaitingLines(u, wiki) {
        var page :| page in u && Waiting(u, wiki, page) && WantedLine(u, page) == line;
        assert Waiting(t, wiki, page) && WantedLine(t, page) == line;
      }
      if line in WaitingLines(t, wiki) && line.pageId !in pageIds {
        var page :| page in t && Waiting(t, wiki, page) && WantedLine(t, page) == line;
        assert Waiting(u, wiki, page) && WantedLine(u, page) == line;
      }
    }
  }

  /** Nobody viewed the page, asked for it or created its row since the cutoff. */
  predicate Forgotten(d: DemandData, cutoff: int) {
    && (d.lastViewedAt.None? || d.lastViewedAt.value < cutoff)
    && (d.lastRequestedAt.None? || d.lastRequestedAt.value < cutoff)
    && d.createdAt < cutoff
  }

  /** Cleanup of demand: what goes was created, last viewed and last asked for before the cutoff; what stays is as it was, and
      was created, viewed or asked for since. */
  ghost predicate ForgottenGone(t: DemandTable, u: DemandTable, cutoff: int) {
    && (forall page :: page in u ==> page in t && u[page] == t[page])
    && forall page :: page in t ==> var d := t[page].data;
         page in u <==>
           || d.createdAt >= cutoff || (d.lastViewedAt.Some? && d.lastViewedAt.value >= cutoff)
           || (d.lastRequestedAt.Some? && d.lastRequestedAt.value >= cutoff)
  }

  /** Cleanup of the queue: what goes was dead or superseded and last touched before the cutoff, and all of that goes. */
  ghost predicate OldSettledGone(t: WorkTable, u: WorkTable, cutoff: int) {
    && (forall id :: id in u ==> id in t && u[id] == t[id])
    && forall id :: id in t ==> (id !in u <==> !t[id].state.Pending? && !t[id].state.Leased? && t[id].updatedAt < cutoff)
  }

  /** Cleanup of answers: what goes is older than the cutoff and than an answer of its page that stays. */
  ghost predicate ObsoleteGone(t: ResultTable, u: ResultTable, cutoff: int) {
    && (forall id :: id in u ==> id in t && u[id] == t[id])
    && forall id :: id in t && id !in u ==>
         && t[id].computedAt < cutoff
         && exists newer :: newer in u && u[newer].page == t[id].page && u[newer].computedAt > t[id].computedAt
  }

  /** The pages of a wiki handed over more than `olderThan` ago. */
  function Overdue(t: DemandTable, wiki: string, olderThan: int, now: int): set<PageRef> {
    set page | page in t && page.wiki == wiki && t[page].data.queuedAt.Some? && t[page].data.queuedAt.value < now - olderThan
  }

  /** `requeue_stale_demand`: pages handed over long enough ago are back in line. */
  function ReleaseStale(t: DemandTable, wiki: string, olderThan: int, now: int): DemandTable {
    map page | page in t ::
      if page.wiki == wiki && t[page].data.queuedAt.Some? && t[page].data.queuedAt.value < now - olderThan
      then t[page].(data := t[page].data.(queuedAt := None))
      else t[page]
  }

  /** One chunk of `record_page_views`: views are added, missing rows created without requests. */
  function AddViews(t: DemandTable, wiki: string, counts: map<int, nat>, pageIds: set<int>, now: int): DemandTable
    requires pageIds <= counts.Keys
  {
    map page | page in t.Keys + (set id | id in pageIds :: PageRef(wiki, id)) ::
      if page.wiki == wiki && page.pageId in pageIds then
        if page in t then
          t[page].(data := t[page].data.(views := t[page].data.views + counts[page.pageId], lastViewedAt := Some(now)))
        else
          Counters.Row(0, DemandData(counts[page.pageId], Some(now), None, None, now))
      else t[page]
  }

  /* ---- Results behind the recompute cursor ---- */

  predicate Ascending(a: nat, b: nat) {
    a < b
  }

  predicate WeakResult(t: ResultTable, algorithm: string, metric: string, before: int, id: nat) {
    id in t && t[id].page.algorithm == algorithm && t[id].answer.metric == metric && t[id].computedAt < before
  }

  function WeakResults(t: ResultTable, algorithm: string, metric: string, before: int): set<nat> {
    set id | id in t && WeakResult(t, algorithm, metric, before, id)
  }

  /** A sweep in its own fields: weak old answers behind the cursor in rising order, and one left out comes after all
      of them, of which there are then `limit`. */
  ghost predicate IsSweep(t: ResultTable, algorithm: string, metric: string, before: int, limit: nat, afterId: nat,
                          ids: seq<nat>)
  {
    && |ids| <= limit && (forall i, j :: 0 <= i < j < |ids| ==> ids[i] < ids[j])
    && (forall id :: id in ids ==> id in t && t[id].page.algorithm == algorithm && t[id].answer.metric == metric)
    && forall id :: id in t && t[id].page.algorithm == algorithm && t[id].answer.metric == metric ==>
         && (id in ids ==> id > afterId && t[id].computedAt < before)
         && (id > afterId && t[id].computedAt < before && id !in ids ==> |ids| == limit && forall k :: k in ids ==> k < id)
  }

  const CHUNK := 500

  /** The queue and the results as other processes may leave them. */
  datatype Tables = Tables(work: WorkTable, nextWork: nat, results: ResultTable, nextResult: nat)
  {
    ghost predicate Valid() {
      && (forall id :: id in work ==> id < nextWork) && UniqueWork(work)
      && nextResult > 0 && (forall id :: id in results ==> 0 < id < nextResult) && UniqueResults(results)
    }
  }

  class Repository {
    var work: WorkTable
    var nextWork: nat
    var results: ResultTable
    var nextResult: nat
    var demand: DemandTable
    var usage: Counters.Table<UsageKey, int>
    var state: map<string, string>

    /** Identifiers come from counters that start at 1, and the unique constraints hold. */
    ghost predicate Valid()
      reads this`work, this`nextWork, this`results, this`nextResult
    {
      Tables(work, nextWork, results, nextResult).Valid()
    }

    constructor ()
      ensures Valid() && work == map[] && results == map[] && demand == map[] && usage == map[] && state == map[]
    {
      work, nextWork, results, nextResult := map[], 1, map[], 1;
      demand, usage, state := map[], map[], map[];
    }

    /** Other processes commit their own transactions. */
    method Become(t: Tables)
      requires t.Valid()
      modifies this`work, this`nextWork, this`results, this`nextResult
      ensures Valid() && work == t.work && nextWork == t.nextWork && results == t.results && nextResult == t.nextResult
    {
      work, nextWork, results, nextResult := t.work, t.nextWork, t.results, t.nextResult;
    }

    /* ---- Results ---- */

    method GetLatestResult(page: PageKey) returns (row: Option<ResultRow>)
      ensures row.None? <==> forall id :: id in results ==> results[id].page != page
      ensures row.Some? ==> exists id :: IsLatest(results, page, id) && results[id] == row.value
      ensures row.Some? ==>
        && row.value.page == page
        && forall id :: id in results && results[id].page == page ==> results[id].computedAt <= row.value.computedAt
      ensures forall since :: ReadySince(results, page, since) <==> row.Some? && row.value.computedAt >= since
    {
      if some :| some in results && results[some].page == page {
        ghost var latest := LatestExists(results, page, some);
        var id :| id in results && IsLatest(results, page, id);
        row := Some(results[id]);
      } else {
        row := None;
      }
    }

    method SaveResult(row: ResultRow)
      requires Valid()
      modifies this`results, this`nextResult
      ensures Valid() && results == SaveTx(old(results), old(nextResult), row) && nextResult == old(nextResult) + 1
    {
      SaveKeepsOnePerKey(results, nextResult, row);
      if id :| id in results && results[id].Names(row.page, row.revision) {
        assert forall k :: k in results && results[k].Names(row.page, row.revision) ==> k == id;
        results := results[id := row];
      } else {
        results := results[nextResult := row];
      }
      nextResult := nextResult + 1;
    }

    /* ---- The queue ---- */

    method GetWork(page: PageKey, revision: int) returns (id: nat, item: Option<WorkItem>)
      requires Valid()
      ensures item.Some? <==> HasWork(work, page, revision)
      ensures item.Some? ==> id in work && work[id] == item.value && item.value.Names(page, revision)
    {
      if found :| found in work && work[found].Names(page, revision) {
        id, item := found, Some(work[found]);
      } else {
        id, item := 0, None;
      }
    }

    /** Turned away by a cached result, by newer live work, or by its own dead or superseded row; otherwise queued. */
    method Enqueue(page: PageKey, revision: int, priority: int, allowCachedResult: bool, rival: Option<Rival>, now: int)
      requires Valid()
      modifies this`work, this`nextWork
      ensures Valid()
      ensures !allowCachedResult && HasResult(results, page, revision) ==> work == old(work) && nextWork == old(nextWork)
      ensures allowCachedResult || !HasResult(results, page, revision) ==>
        && nextWork == old(nextWork) + IdsTaken(old(work), page, revision, rival)
        && work == EnqueueRivalled(old(work), old(nextWork), page, revision, priority, now, rival)
    {
      if !allowCachedResult && HasResult(results, page, revision) {
        return;
      }
      RivalledKeepsUnique(work, nextWork, page, revision, priority, now, rival);
      var id := nextWork;
      nextWork := nextWork + 1;
      var _, existing := GetWork(page, revision);
      if existing.None? && HasNewerLive(work, page, revision) {
        return;
      }
      if existing.None? && rival.Some? {
        work := EnqueueTx(work, id, page, revision, rival.value.priority, rival.value.at);
        nextWork := nextWork + 1;
        work := EnqueueRace(work, page, revision, priority, now);
        return;
      }
      if existing.None? {
        work := work[id := NewItem(page, revision, priority, now)];
      } else {
        work := Boost(work, page, revision, priority, now);
      }
      work := SupersedeOlder(work, page, revision, now);
    }

    /** Queues the page unless its latest answer is still fresh, and says whether its job is now live. */
    method EnqueueIfStale(page: PageKey, revision: int, priority: int, freshness: int, rival: Option<Rival>, now: int)
      returns (queued: bool)
      requires Valid()
      modifies this`work, this`nextWork
      ensures Valid()
      ensures ReadySince(results, page, now - freshness) ==> !queued && work == old(work) && nextWork == old(nextWork)
      ensures !ReadySince(results, page, now - freshness) ==>
        && nextWork == old(nextWork) + IdsTaken(old(work), page, revision, rival)
        && work == EnqueueRivalled(old(work), old(nextWork), page, revision, priority, now, rival)
        && (queued <==> exists id :: id in work && work[id].Names(page, revision) && work[id].Live())
    {
      var latest := GetLatestResult(page);
      if latest.Some? && latest.value.computedAt >= now - freshness {
        return false;
      }
      Enqueue(page, revision, priority, true, rival, now);
      var _, item := GetWork(page, revision);
      queued := item.Some? && item.value.Live();
    }

    /** Leases the first claimable row that no other transaction holds; finds one whenever there is one. */
    method Claim(workerId: string, leaseSeconds: int, locked: set<nat>, now: int) returns (lease: Option<WorkLease>)
      requires Valid()
      modifies this`work
      ensures Valid()
      ensures lease.None? <==> forall id :: id in old(work) && id !in locked ==> !Claimable(old(work)[id], now)
      ensures lease.None? ==> work == old(work)
      ensures lease.Some? ==> var id := lease.value.id;
        && FirstClaim(old(work), locked, now, id)
        && work == ClaimTx(old(work), id, workerId, leaseSeconds, now)
        && lease.value == LeaseOf(work, id)
      ensures lease.Some? ==> forall j :: j in old(work) && j !in locked && Claimable(old(work)[j], now) ==>
        var a, b := old(work)[lease.value.id], old(work)[j];
        b.priority < a.priority || (b.priority == a.priority && b.createdAt >= a.createdAt)
      ensures lease.Some? ==> var row := old(work)[lease.value.id];
        && lease.value.page == row.page && lease.value.revision == row.revision && lease.value.priority == row.priority
        && lease.value.attempts == row.attempts + 1
    {
      if start :| start in work && start !in locked && Claimable(work[start], now) {
        ghost var rows := set id | id in work && id !in locked && Claimable(work[id], now);
        ghost var best := ClaimFindsWork(work, locked, now, rows, start);
        assert forall j :: j in work && j !in locked && Claimable(work[j], now) ==> j in rows;
        assert FirstClaim(work, locked, now, best);
        var id :| id in work && FirstClaim(work, locked, now, id);
        assert forall i, j :: i in work && j in work && work[i].Names(work[j].page, work[j].revision) ==> i == j;
        var item := work[id];
        work := work[id := item.(
          state := Leased, workerId := Some(workerId), leaseUntil := Some(now + leaseSeconds),
          attempts := item.attempts + 1, updatedAt := now)];
        lease := Some(WorkLease(id, item.page, item.revision, item.priority, item.attempts + 1));
      } else {
        lease := None;
      }
    }

    method Complete(id: nat)
      requires Valid()
      modifies this`work
      ensures Valid() && work == CompleteTx(old(work), id)
    {
      assert forall i, j :: i in work && j in work && work[i].Names(work[j].page, work[j].revision) ==> i == j;
      work := work - {id};
    }

    method Supersede(id: nat, reason: string, now: int)
      requires Valid()
      modifies this`work
      ensures Valid() && work == SupersedeTx(old(work), id, reason, now)
    {
      assert forall i, j :: i in work && j in work && work[i].Names(work[j].page, work[j].revision) ==> i == j;
      if id in work {
        var item := work[id];
        work := work[id := item.(
          state := Superseded, leaseUntil := None, workerId := None,
          errorCode := Some("revision_superseded"), lastError := Some(Take(reason, 2000)), updatedAt := now)];
      }
    }

    method Fail(lease: WorkLease, code: string, message: string, maxAttempts: int, permanent: bool, now: int)
      requires Valid()
      modifies this`work
      ensures Valid() && work == FailTx(old(work), lease, code, message, maxAttempts, permanent, now)
    {
      assert forall i, j :: i in work && j in work && work[i].Names(work[j].page, work[j].revision) ==> i == j;
      var isDead := permanent || lease.attempts >= maxAttempts;
      var delay := Min(6 * 60 * 60, 30 * Pow2(Max(0, lease.attempts - 1)));
      if lease.id in work {
        var item := work[lease.id];
        work := work[lease.id := item.(
          state := if isDead then Dead else Pending, availableAt := now + delay, leaseUntil := None, workerId := None,
          errorCode := Some(Take(code, 64)), lastError := Some(Take(message, 2000)), isPermanent := permanent,
          updatedAt := now)];
      }
    }

    method Revive(id: nat, priority: int, now: int)
      requires Valid()
      modifies this`work
      ensures Valid() && work == ReviveTx(old(work), id, priority, now)
    {
      assert forall i, j :: i in work && j in work && work[i].Names(work[j].page, work[j].revision) ==> i == j;
      if id in work && work[id].state.Dead? {
        var item := work[id];
        work := work[id := item.(
          state := Pending, attempts := 0, priority := priority, availableAt := now, errorCode := None, lastError := None,
          updatedAt := now)];
      }
    }

    /** Drops settled rows, demand and usage past their cutoffs, and up to the limit of obsolete answers: every page
        keeps its latest answer, and demand anybody viewed or asked for since the cutoff stays. */
    method Cleanup(workCutoff: int, resultCutoff: int, demandCutoff: int, usageCutoff: int)
      returns (removedWork: nat, removedResults: nat, removedDemand: nat, removedUsage: nat)
      requires Valid()
      modifies this`work, this`results, this`demand, this`usage
      ensures Valid() && work == CleanWork(old(work), workCutoff) && removedWork == |old(work)| - |work|
      ensures OldSettledGone(old(work), work, workCutoff)
      ensures ObsoleteGone(old(results), results, resultCutoff)
      ensures Purged(old(results), results, resultCutoff, removedResults)
      ensures KeepsLatest(old(results), results)
      ensures removedDemand == |old(demand)| - |demand| && removedUsage == |old(usage)| - |usage|
      ensures ForgottenGone(old(demand), demand, demandCutoff)
      ensures forall key :: key in usage <==> key in old(usage) && key.day >= usageCutoff
      ensures forall key :: key in usage ==> usage[key] == old(usage)[key]
    {
      removedWork := CleanQueue(workCutoff);
      removedResults := CleanAnswers(resultCutoff);
      removedDemand, removedUsage := CleanCounters(demandCutoff, usageCutoff);
    }

    method CleanQueue(cutoff: int) returns (removed: nat)
      requires Valid()
      modifies this`work
      ensures Valid() && work == CleanWork(old(work), cutoff) && removed == |old(work)| - |work|
      ensures OldSettledGone(old(work), work, cutoff)
    {
      CleanWorkKeeps(work, cutoff);
      var kept := CleanWork(work, cutoff);
      removed := |work| - |kept|;
      work := kept;
    }

    method CleanAnswers(cutoff: int) returns (removed: nat)
      requires Valid()
      modifies this`results
      ensures Valid()
      ensures Purged(old(results), results, cutoff, removed)
      ensures ObsoleteGone(old(results), results, cutoff)
      ensures KeepsLatest(old(results), results)
    {
      var doomed := ChooseDoomed(results, cutoff);
      CleanResultsKeeps(results, cutoff, doomed);
      DoomedHaveNewer(results, cutoff, doomed);
      if |doomed| < 10_000 {
        FewAreAll(results, cutoff, doomed);
      }
      results := results - doomed;
      removed := |doomed|;
    }

    method CleanCounters(demandCutoff: int, usageCutoff: int) returns (removedDemand: nat, removedUsage: nat)
      requires Valid()
      modifies this`demand, this`usage
      ensures Valid()
      ensures removedDemand == |old(demand)| - |demand| && removedUsage == |old(usage)| - |usage|
      ensures ForgottenGone(old(demand), demand, demandCutoff)
      ensures forall key :: key in usage <==> key in old(usage) && key.day >= usageCutoff
      ensures forall key :: key in usage ==> usage[key] == old(usage)[key]
    {
      var wanted := map page | page in demand && !Forgotten(demand[page].data, demandCutoff) :: demand[page];
      var recent := map key | key in usage && key.day >= usageCutoff :: usage[key];
      SubsetSize(wanted.Keys, demand.Keys);
      SubsetSize(recent.Keys, usage.Keys);
      removedDemand, removedUsage := |demand| - |wanted|, |usage| - |recent|;
      demand, usage := wanted, recent;
    }

    /* ---- Counters ---- */

    /** Counts one request for the page. `rival` is the row another worker inserted after this call's update found
        none, if it did: the insert then fails and the update is tried again. */
    method RecordPageRequest(page: PageRef, rival: Option<Counters.Row<DemandData>>, now: int)
      modifies this`demand
      ensures Counters.Requests(demand, page) ==
        1 + if page !in old(demand) && rival.Some? then rival.value.requests else Counters.Requests(old(demand), page)
      ensures page in demand && demand[page].data.lastRequestedAt == Some(now)
      ensures page in old(demand) ==>
        demand[page].data == old(demand)[page].data.(lastRequestedAt := Some(now))
      ensures forall other :: other != page ==> (other in demand <==> other in old(demand))
      ensures forall other :: other != page && other in demand ==> demand[other] == old(demand)[other]
    {
      if page in demand {
        demand := Counters.Increment(demand, page, demand[page].data.(lastRequestedAt := Some(now)));
        return;
      }
      if rival.Some? {
        demand := demand[page := rival.value];
      }
      if page !in demand {
        demand := demand[page := Counters.Row(1, DemandData(0, None, Some(now), None, now))];
      } else {
        demand := Counters.Increment(demand, page, demand[page].data.(lastRequestedAt := Some(now)));
      }
    }

    method CountRequest(key: UsageKey, rival: Option<nat>, now: int)
      modifies this`usage
      ensures Counters.Requests(usage, key) ==
        1 + if key !in old(usage) && rival.Some? then rival.value else Counters.Requests(old(usage), key)
      ensures forall other :: other != key ==> Counters.Requests(usage, other) == Counters.Requests(old(usage), other)
    {
      if key in usage {
        usage := Counters.Increment(usage, key, now);
        return;
      }
      if rival.Some? {
        usage := usage[key := Counters.Row(rival.value, now)];
      }
      if key !in usage {
        usage := usage[key := Counters.Row(1, now)];
      } else {
        usage := Counters.Increment(usage, key, now);
      }
    }

    /** Adds a day of views in chunks; afterwards every counted page has them added once, and nobody's requests moved. */
    method RecordPageViews(wiki: string, counts: map<int, nat>, pageIds: seq<int>, now: int)
      returns (created: nat, updated: nat)
      requires Rising(pageIds) && forall id :: id in pageIds <==> id in counts
      modifies this`demand
      ensures demand == AddViews(old(demand), wiki, counts, counts.Keys, now)
      ensures created + updated == |counts|
      ensures created == |Created(old(demand), wiki, counts.Keys)|
      ensures forall page :: Counters.Requests(demand, page) == Counters.Requests(old(demand), page)
      ensures forall id :: id in counts ==> var page := PageRef(wiki, id);
        && page in demand && demand[page].data.lastViewedAt == Some(now)
        && demand[page].data.views == counts[id] + if page in old(demand) then old(demand)[page].data.views else 0
      ensures forall page :: page in demand && (page.wiki != wiki || page.pageId !in counts) ==>
        page in old(demand) && demand[page] == old(demand)[page]
    {
      created, updated := RecordChunks(wiki, counts, pageIds, |pageIds|, now);
      WholeSpan(pageIds, counts.Keys);
      AddViewsKeepsRequests(old(demand), wiki, counts, counts.Keys, now);
    }

    /** The chunk loop, one transaction a chunk, by a process that dies after `chunks` of them. */
    method RecordChunks(wiki: string, counts: map<int, nat>, pageIds: seq<int>, chunks: nat, now: int)
      returns (created: nat, updated: nat)
      requires Rising(pageIds) && forall id :: id in pageIds <==> id in counts
      modifies this`demand
      ensures var done := Span(pageIds, 0, Min(500 * chunks, |pageIds|));
        && done <= counts.Keys && demand == AddViews(old(demand), wiki, counts, done, now)
        && created + updated == |done| && created == |Created(old(demand), wiki, done)|
    {
      created, updated := 0, 0;
      var start, chunksDone := 0, 0;
      AddViewsKeepsRequests(demand, wiki, counts, {}, now);
      while start < |pageIds| && chunksDone < chunks
        invariant 0 <= start <= |pageIds| && chunksDone <= chunks && start == Min(CHUNK * chunksDone, |pageIds|)
        invariant Span(pageIds, 0, start) <= counts.Keys
        invariant demand == AddViews(old(demand), wiki, counts, Span(pageIds, 0, start), now)
        invariant created + updated == start && created == |Created(old(demand), wiki, Span(pageIds, 0, start))|
      {
        var end := Min(start + CHUNK, |pageIds|);
        ChunkStep(old(demand), wiki, counts, pageIds, start, end, now);
        var chunk := Span(pageIds, start, end);
        var missing := Created(demand, wiki, chunk);
        created, updated := created + |missing|, updated + |chunk| - |missing|;
        demand := AddViews(demand, wiki, counts, chunk, now);
        start, chunksDone := end, chunksDone + 1;
      }
      assert start == Min(CHUNK * chunks, |pageIds|);
      SpanSize(pageIds, 0, start);
    }

    method PendingDemand(wiki: string, limit: nat) returns (lines: seq<Wanted>)
      ensures IsBatch(WaitingLines(demand, wiki), None, limit, lines, MoreWanted)
      ensures IsTopDemand(demand, wiki, limit, lines)
    {
      lines := FirstKeys(WaitingLines(demand, wiki), limit, MoreWanted);
      TopDemand(demand, wiki, limit, lines);
    }

    /** Takes the pages out of the ranking: exactly their lines leave it, no count moves, and the rows there were are
        counted. */
    method MarkDemandQueued(wiki: string, pageIds: seq<int>, now: int) returns (marked: nat)
      modifies this`demand
      ensures demand == MarkQueued(old(demand), wiki, pageIds, now)
      ensures marked == |Marked(old(demand), wiki, pageIds)|
      ensures forall line :: line in WaitingLines(demand, wiki) <==>
        line in WaitingLines(old(demand), wiki) && line.pageId !in pageIds
      ensures forall page :: page in demand <==> page in old(demand)
      ensures forall page :: page in demand ==>
        && demand[page].requests == old(demand)[page].requests
        && demand[page].data.views == old(demand)[page].data.views
        && (page.wiki != wiki || page.pageId !in pageIds ==> demand[page] == old(demand)[page])
        && (page.wiki == wiki && page.pageId in pageIds ==> demand[page].data.queuedAt == Some(now))
    {
      marked := 0;
      if pageIds == [] {
        MarkingLeaves(demand, wiki, pageIds, now);
        assert Marked(demand, wiki, pageIds) == {};
        return;
      }
      MarkingLeaves(demand, wiki, pageIds, now);
      var rows := Marked(demand, wiki, pageIds);
      marked := |rows|;
      demand := map page | page in demand ::
        if page in rows then demand[page].(data := demand[page].data.(queuedAt := Some(now))) else demand[page];
    }

    /** Clears the mark of exactly the wiki's pages handed over more than `olderThan` ago, and counts them. */
    method RequeueStaleDemand(wiki: string, olderThan: int, now: int) returns (released: nat)
      modifies this`demand
      ensures demand == ReleaseStale(old(demand), wiki, olderThan, now)
      ensures released == |Overdue(old(demand), wiki, olderThan, now)|
      ensures forall page :: page in demand <==> page in old(demand)
      ensures forall page :: page in demand ==>
        demand[page] == if page in Overdue(old(demand), wiki, olderThan, now)
                        then old(demand)[page].(data := old(demand)[page].data.(queuedAt := None)) else old(demand)[page]
      ensures forall page :: page in demand ==>
        (demand[page].data.queuedAt != old(demand)[page].data.queuedAt <==>
           page.wiki == wiki && old(demand)[page].data.queuedAt.Some?
           && old(demand)[page].data.queuedAt.value + olderThan < now)
    {
      var rows := Overdue(demand, wiki, olderThan, now);
      released := |rows|;
      demand := map page | page in demand ::
        if page in rows then demand[page].(data := demand[page].data.(queuedAt := None)) else demand[page];
    }

    /* ---- Sweeping weak results ---- */

    method ResultsWithMetric(algorithm: string, metric: string, before: int, limit: nat, afterId: nat)
      returns (ids: seq<nat>)
      ensures IsBatch(WeakResults(results, algorithm, metric, before), Some(afterId), limit, ids, Ascending)
      ensures IsSweep(results, algorithm, metric, before, limit, afterId, ids)
    {
      var keys := WeakResults(results, algorithm, metric, before);
      ids := FirstKeys<nat>((set id: nat | id in keys && id > afterId), limit, Ascending);
      assert forall i, j :: 0 <= i < j < |ids| ==> Ascending(ids[i], ids[j]);
      assert forall id :: id in keys && Past(Some(afterId), id, Ascending) && id !in ids ==>
        |ids| == limit && forall k :: k in ids ==> Ascending(k, id);
      assert forall id :: id in results && WeakResult(results, algorithm, metric, before, id) ==> id in keys;
    }

    /* ---- Named texts ---- */

    method GetState(key: string) returns (value: Option<string>)
      ensures value == if key in state then Some(state[key]) else None
    {
      value := if key in state then Some(state[key]) else None;
    }

    method SetState(key: string, value: string)
      modifies this`state
      ensures state == old(state)[key := value]
    {
      state := state[key := value];
    }
  }

  lemma CleanWorkKeeps(t: WorkTable, cutoff: int)
    requires UniqueWork(t)
    ensures var u := CleanWork(t, cutoff); UniqueWork(u) && u.Keys <= t.Keys && |u| <= |t|
  {
    var u := CleanWork(t, cutoff);
    forall i, j | i in u && j in u && u[i].Names(u[j].page, u[j].revision) ensures i == j {
      assert t[i].Names(t[j].page, t[j].revision);
    }
    SubsetSize(u.Keys, t.Keys);
  }

  lemma CleanResultsKeeps(t: ResultTable, cutoff: int, doomed: set<nat>)
    requires UniqueResults(t) && IsDoomed(t, cutoff, doomed)
    ensures UniqueResults(t - doomed)
    ensures forall page, id :: IsLatest(t, page, id) <==> IsLatest(t - doomed, page, id)
  {
    forall page, id ensures IsLatest(t, page, id) <==> IsLatest(t - doomed, page, id) {
      CleanupKeepsLatest(t, cutoff, doomed, page, id);
    }
  }

  /** No answer older than the cutoff stands beside a newer one of its page. */
  ghost predicate NothingObsolete(t: ResultTable, cutoff: int) {
    forall id, newer :: id in t && newer in t && t[newer].page == t[id].page ==>
      t[newer].computedAt <= t[id].computedAt || t[id].computedAt >= cutoff
  }

  /** Every page has the very same latest answer in both. */
  ghost predicate KeepsLatest(t: ResultTable, u: ResultTable) {
    forall page, id :: IsLatest(t, page, id) <==> IsLatest(u, page, id)
  }

  /** One cleanup of answers: it deletes obsolete ones, at most 10,000, and all of them when there are fewer. */
  ghost predicate Purged(t: ResultTable, u: ResultTable, cutoff: int, removed: nat) {
    && removed <= 10_000 && (removed < 10_000 ==> NothingObsolete(u, cutoff))
    && exists doomed :: IsDoomed(t, cutoff, doomed) && u == t - doomed && removed == |doomed|
  }

  /** Deleting fewer than the limit deletes all there are. */
  lemma FewAreAll(t: ResultTable, cutoff: int, doomed: set<nat>)
    requires IsDoomed(t, cutoff, doomed) && |doomed| < 10_000
    ensures NothingObsolete(t - doomed, cutoff)
  {
    var obsolete := set id | id in t && Obsolete(t, cutoff, id);
    SameSize(doomed, obsolete);
  }

  lemma {:induction false} SameSize<T>(part: set<T>, whole: set<T>)
    requires part <= whole && |part| == |whole|
    ensures part == whole
  {
    SubsetSize(whole - part, whole);
    assert |whole| == |part| + |whole - part| by {
      assert whole == part + (whole - part);
    }
  }

  /** What is deleted is older than the cutoff and than an answer that stays. */
  lemma DoomedHaveNewer(t: ResultTable, cutoff: int, doomed: set<nat>)
    requires IsDoomed(t, cutoff, doomed)
    ensures forall id :: id in doomed ==>
      && id in t && t[id].computedAt < cutoff
      && exists newer :: newer in t - doomed && t[newer].page == t[id].page && t[newer].computedAt > t[id].computedAt
  {
    forall id | id in doomed
      ensures id in t && t[id].computedAt < cutoff
      ensures exists newer :: newer in t - doomed && t[newer].page == t[id].page && t[newer].computedAt > t[id].computedAt
    {
      assert Obsolete(t, cutoff, id);
      var top := LatestExists(t, t[id].page, id);
      assert !Obsolete(t, cutoff, top);
      assert top in t - doomed;
    }
  }

  /** The rows one cleanup deletes: obsolete ones, up to the limit. */
  method ChooseDoomed(t: ResultTable, cutoff: int) returns (doomed: set<nat>)
    ensures IsDoomed(t, cutoff, doomed)
  {
    var obsolete: set<nat> := set id | id in t && Obsolete(t, cutoff, id);
    doomed := {};
    var left := obsolete;
    while left != {} && |doomed| < CLEANUP_LIMIT
      invariant doomed + left == obsolete && doomed !! left && |doomed| <= CLEANUP_LIMIT
      decreases left
    {
      var id :| id in left;
      doomed, left := doomed + {id}, left - {id};
    }
    assert |obsolete| == |doomed| + |left|;
  }

  /* ---- Chunks of a day's views ---- */

  function Span(pageIds: seq<int>, start: nat, end: nat): set<int>
    requires start <= end <= |pageIds|
    decreases end - start
  {
    if start == end then {} else Span(pageIds, start, end - 1) + {pageIds[end - 1]}
  }

  function Created(t: DemandTable, wiki: string, pageIds: set<int>): set<int> {
    set id | id in pageIds && PageRef(wiki, id) !in t
  }

  lemma AddViewsTwice(t: DemandTable, wiki: string, counts: map<int, nat>, done: set<int>, chunk: set<int>, now: int)
    requires done <= counts.Keys && chunk <= counts.Keys && done !! chunk
    ensures AddViews(AddViews(t, wiki, counts, done, now), wiki, counts, chunk, now)
      == AddViews(t, wiki, counts, done + chunk, now)
  {
  }

  lemma CreatedTwice(t: DemandTable, u: DemandTable, wiki: string, counts: map<int, nat>, done: set<int>, chunk: set<int>,
                     now: int)
    requires done <= counts.Keys && chunk <= counts.Keys && done !! chunk && u == AddViews(t, wiki, counts, done, now)
    ensures |Created(t, wiki, done + chunk)| == |Created(t, wiki, done)| + |Created(u, wiki, chunk)|
  {
    assert Created(u, wiki, chunk) == Created(t, wiki, chunk);
    assert Created(t, wiki, done + chunk) == Created(t, wiki, done) + Created(t, wiki, chunk);
  }

  ghost predicate Rising(pageIds: seq<int>) {
    forall i, j :: 0 <= i < j < |pageIds| ==> pageIds[i] < pageIds[j]
  }

  lemma {:induction false} SpanSize(pageIds: seq<int>, start: nat, end: nat)
    requires Rising(pageIds) && start <= end <= |pageIds|
    ensures |Span(pageIds, start, end)| == end - start
    ensures forall id :: id in Span(pageIds, start, end) ==> id in pageIds && pageIds[start] <= id <= pageIds[end - 1]
    decreases end - start
  {
    if start < end {
      SpanSize(pageIds, start, end - 1);
      assert pageIds[end - 1] in pageIds;
    }
  }

  lemma {:induction false} SpanGrows(pageIds: seq<int>, start: nat, end: nat)
    requires Rising(pageIds) && start <= end <= |pageIds|
    ensures Span(pageIds, 0, end) == Span(pageIds, 0, start) + Span(pageIds, start, end)
    ensures Span(pageIds, 0, start) !! Span(pageIds, start, end)
    decreases end - start
  {
    if start < end {
      SpanGrows(pageIds, start, end - 1);
      SpanSize(pageIds, 0, start);
    }
  }

  lemma {:induction false} SpanHas(pageIds: seq<int>, end: nat, i: nat)
    requires i < end <= |pageIds|
    ensures pageIds[i] in Span(pageIds, 0, end)
  {
    if i < end - 1 {
      SpanHas(pageIds, end - 1, i);
    }
  }

  lemma WholeSpan(pageIds: seq<int>, all: set<int>)
    requires Rising(pageIds) && forall id :: id in pageIds <==> id in all
    ensures Span(pageIds, 0, |pageIds|) == all && |all| == |pageIds|
  {
    SpanSize(pageIds, 0, |pageIds|);
    forall id | id in all ensures id in Span(pageIds, 0, |pageIds|) {
      var i :| 0 <= i < |pageIds| && pageIds[i] == id;
      SpanHas(pageIds, |pageIds|, i);
    }
    var span := Span(pageIds, 0, |pageIds|);
    forall id | id in span ensures id in all {
      assert id in Span(pageIds, 0, |pageIds|);
      assert id in pageIds;
    }
    assert span == all;
  }

  lemma AddViewsKeepsRequests(t: DemandTable, wiki: string, counts: map<int, nat>, pageIds: set<int>, now: int)
    requires pageIds <= counts.Keys
    ensures forall page :: Counters.Requests(AddViews(t, wiki, counts, pageIds, now), page) == Counters.Requests(t, page)
    ensures pageIds == {} ==> AddViews(t, wiki, counts, pageIds, now) == t
  {
  }

  /** One chunk of views: what it adds to the table and to the count of rows created. */
  lemma ChunkStep(t: DemandTable, wiki: string, counts: map<int, nat>, pageIds: seq<int>, start: nat, end: nat, now: int)
    requires Rising(pageIds) && start <= end <= |pageIds| && Span(pageIds, 0, start) <= counts.Keys
    requires forall id :: id in pageIds ==> id in counts
    ensures var done, chunk, next := Span(pageIds, 0, start), Span(pageIds, start, end), Span(pageIds, 0, end);
      var u := AddViews(t, wiki, counts, done, now);
      && chunk <= counts.Keys && next <= counts.Keys && |chunk| == end - start
      && AddViews(u, wiki, counts, chunk, now) == AddViews(t, wiki, counts, next, now)
      && |Created(t, wiki, next)| == |Created(t, wiki, done)| + |Created(u, wiki, chunk)|
      && |Created(u, wiki, chunk)| <= |chunk|
  {
    var done, chunk := Span(pageIds, 0, start), Span(pageIds, start, end);
    SpanSize(pageIds, start, end);
    SpanGrows(pageIds, start, end);
    var u := AddViews(t, wiki, counts, done, now);
    AddViewsTwice(t, wiki, counts, done, chunk, now);
    CreatedTwice(t, u, wiki, counts, done, chunk, now);
    SubsetSize(Created(u, wiki, chunk), chunk);
  }
}
