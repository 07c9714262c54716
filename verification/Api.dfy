/** The decision structure of the v2 endpoint: what a request is answered, and what it asks of the queue. */
module Api {
  import opened Base
  import opened WorkQueue
  import opened Results
  import opened Repository
  import opened Handover
  import opened Presentation
  import Counters

  const READER_PRIORITY := 100

  datatype ApiSettings = ApiSettings(freshness: int, deadRetry: int)

  datatype Response =
    | Ready(row: ResultRow, fields: Fields, isFresh: bool, refreshing: bool)
    | Unavailable(errorCode: Option<string>)
    | Accepted

  /** A dead job that may be tried again. */
  predicate MayRevive(c: ApiSettings, item: WorkItem, now: int) {
    !item.isPermanent && item.updatedAt + c.deadRetry <= now
  }

  ghost predicate HasDead(t: WorkTable, page: PageKey, revision: int) {
    exists id :: id in t && t[id].Names(page, revision) && t[id].state.Dead?
  }

  /** The revision has a dead row that stays dead for now. */
  ghost predicate Refused(c: ApiSettings, t: WorkTable, page: PageKey, revision: int, now: int) {
    exists id :: id in t && t[id].Names(page, revision) && t[id].state.Dead? && !MayRevive(c, t[id], now)
  }

  ghost predicate HasLive(t: WorkTable, page: PageKey, revision: int) {
    exists id :: id in t && t[id].Names(page, revision) && t[id].Live()
  }

  /** Dead jobs of the revision whose time has come are revived at a reader's priority. */
  function Revived(c: ApiSettings, t: WorkTable, page: PageKey, revision: int, now: int): WorkTable {
    map id | id in t ::
      if t[id].Names(page, revision) && MayRevive(c, t[id], now) then ReviveTx(t, id, READER_PRIORITY, now)[id] else t[id]
  }

  /** What asking for the page makes of the queue. */
  ghost function Asked(c: ApiSettings, q: Queue, results: ResultTable, page: PageKey, revision: int, now: int,
                       rival: Option<Rival>): Queue
  {
    Offered(Queue(Revived(c, q.work, page, revision, now), q.next), results,
            Offer(page, revision, READER_PRIORITY, c.freshness, rival, now))
  }

  lemma RevivedOne(c: ApiSettings, t: WorkTable, page: PageKey, revision: int, now: int, id: nat)
    requires UniqueWork(t) && id in t && t[id].Names(page, revision)
    ensures Revived(c, t, page, revision, now) ==
      if t[id].state.Dead? && MayRevive(c, t[id], now) then ReviveTx(t, id, READER_PRIORITY, now) else t
  {
    forall k | k in t && k != id ensures !t[k].Names(page, revision) {
      assert t[k].Names(t[id].page, t[id].revision) <==> t[k].Names(page, revision);
    }
  }

  method ReviveIfDue(r: Repository, c: ApiSettings, page: PageKey, revision: int, now: int)
    requires r.Valid()
    modifies r`work
    ensures r.Valid() && r.work == Revived(c, old(r.work), page, revision, now)
  {
    var id, item := r.GetWork(page, revision);
    if item.Some? {
      RevivedOne(c, r.work, page, revision, now, id);
      if item.value.state.Dead? && MayRevive(c, item.value, now) {
        r.Revive(id, READER_PRIORITY, now);
      }
    } else {
      assert Revived(c, r.work, page, revision, now) == r.work;
    }
  }

  /** What asking comes to: a fresh answer and no dead job mean no change; without a fresh answer the page is attended
      to; a refused job stays dead, and any other dead job is live. */
  ghost predicate AskedWell(c: ApiSettings, t: WorkTable, u: WorkTable, results: ResultTable, page: PageKey, revision: int,
                            now: int)
  {
    var isFresh := ReadySince(results, page, now - c.freshness);
    && (isFresh && !HasDead(t, page, revision) ==> u == t)
    && (!isFresh ==> HasWork(u, page, revision) || HasNewerLive(u, page, revision))
    && (HasDead(t, page, revision) ==> (Refused(c, t, page, revision, now) <==> !HasLive(u, page, revision)))
  }

  lemma AskedMeans(c: ApiSettings, q: Queue, results: ResultTable, page: PageKey, revision: int, now: int,
                   rival: Option<Rival>, u: WorkTable)
    requires UniqueWork(q.work) && IdsBelow(q) && u == Asked(c, q, results, page, revision, now, rival).work
    ensures AskedWell(c, q.work, u, results, page, revision, now)
  {
    if !ReadySince(results, page, now - c.freshness) {
      AskedAttends(c, q, results, page, revision, now, rival);
    }
    if HasDead(q.work, page, revision) {
      var id :| id in q.work && q.work[id].Names(page, revision) && q.work[id].state.Dead?;
      DeadRowAfter(c, q, results, page, revision, now, rival, id);
      RefusedIs(c, q.work, page, revision, now, id);
    } else {
      NothingRevived(c, q.work, page, revision, now);
    }
  }

  lemma AskedAttends(c: ApiSettings, q: Queue, results: ResultTable, page: PageKey, revision: int, now: int, rival: Option<Rival>)
    requires IdsBelow(q) && !ReadySince(results, page, now - c.freshness)
    ensures var u := Asked(c, q, results, page, revision, now, rival).work;
      HasWork(u, page, revision) || HasNewerLive(u, page, revision)
  {
    RivalledClearsOlder(Revived(c, q.work, page, revision, now), q.next, page, revision, READER_PRIORITY, now, rival);
  }

  lemma NothingRevived(c: ApiSettings, t: WorkTable, page: PageKey, revision: int, now: int)
    requires !HasDead(t, page, revision)
    ensures Revived(c, t, page, revision, now) == t
  {
  }

  lemma RefusedIs(c: ApiSettings, t: WorkTable, page: PageKey, revision: int, now: int, id: nat)
    requires UniqueWork(t) && id in t && t[id].Names(page, revision) && t[id].state.Dead?
    ensures Refused(c, t, page, revision, now) <==> !MayRevive(c, t[id], now)
  {
    forall k | k in t && t[k].Names(page, revision) ensures k == id {
      assert t[k].Names(t[id].page, t[id].revision);
    }
  }

  /** When a failed job may be tried again by a reader: a permanent failure never, one that used up the attempts from
      `deadRetry` after it on, any other failure has not killed the job. */
  lemma FailureIsRefused(c: ApiSettings, t: WorkTable, lease: WorkLease, code: string, message: string, maxAttempts: int,
                         permanent: bool, now: int, later: int)
    requires UniqueWork(t) && lease.id in t && t[lease.id].Names(lease.page, lease.revision)
    ensures Refused(c, FailTx(t, lease, code, message, maxAttempts, permanent, now), lease.page, lease.revision, later) <==>
      permanent || (lease.attempts >= maxAttempts && later < now + c.deadRetry)
  {
    var u := FailTx(t, lease, code, message, maxAttempts, permanent, now);
    assert u[lease.id].Names(lease.page, lease.revision);
    forall k | k in u && u[k].Names(lease.page, lease.revision) ensures k == lease.id {
      assert t[k].Names(t[lease.id].page, t[lease.id].revision);
    }
  }

  /** One reader's request: which revision of which page, when, and the rival whose insert comes first, if any. */
  datatype Ask = Ask(page: PageKey, revision: int, now: int, rival: Option<Rival>)

  /** Readers ask one after another. */
  ghost function AskedAll(c: ApiSettings, q: Queue, results: ResultTable, asks: seq<Ask>): Queue
    decreases |asks|
  {
    if asks == [] then q
    else AskedAll(c, Asked(c, q, results, asks[0].page, asks[0].revision, asks[0].now, asks[0].rival), results, asks[1..])
  }

  /** So a job that failed for good stays dead, its row untouched, whatever readers ask for and however late. */
  lemma {:induction false} PermanentStaysDead(c: ApiSettings, q: Queue, results: ResultTable, asks: seq<Ask>, id: nat)
    requires IdsBelow(q) && id in q.work && q.work[id].state.Dead? && q.work[id].isPermanent
    ensures var u := AskedAll(c, q, results, asks).work; id in u && u[id] == q.work[id]
    decreases |asks|
  {
    if asks != [] {
      var a := asks[0];
      AskingKeepsPermanent(c, q, results, a, id);
      PermanentStaysDead(c, Asked(c, q, results, a.page, a.revision, a.now, a.rival), results, asks[1..], id);
    }
  }

  lemma AskingKeepsPermanent(c: ApiSettings, q: Queue, results: ResultTable, a: Ask, id: nat)
    requires IdsBelow(q) && id in q.work && q.work[id].state.Dead? && q.work[id].isPermanent
    ensures var u := Asked(c, q, results, a.page, a.revision, a.now, a.rival);
      IdsBelow(u) && id in u.work && u.work[id] == q.work[id]
  {
    var t := Revived(c, q.work, a.page, a.revision, a.now);
    assert t.Keys == q.work.Keys && t[id] == q.work[id];
    RivalledKeepsSettled(t, q.next, a.page, a.revision, READER_PRIORITY, a.now, a.rival, id);
    OfferTouchesItsPage(Queue(t, q.next), results, Offer(a.page, a.revision, READER_PRIORITY, c.freshness, a.rival, a.now));
  }

  /** Handler and queue judge the same answer differently at one clock reading and no other: the very instant it stops
      being fresh, when the handler calls it stale and the queue still takes it for fresh. */
  lemma FreshnessBoundary(c: ApiSettings, results: ResultTable, page: PageKey, row: ResultRow, now: int)
    requires IsReady(results, page, row)
    ensures !IsFresh(c, row, now) && ReadySince(results, page, now - c.freshness) <==> row.computedAt + c.freshness == now
    ensures IsFresh(c, row, now) ==> ReadySince(results, page, now - c.freshness)
  {
    var id :| IsLatest(results, page, id) && results[id] == row;
    LatestIsReady(results, page, id, now - c.freshness);
  }

  /** Without a dead job, asking makes the revision's job live exactly when it was live before, or when the queue does not
      take the answer for fresh and neither a row of the revision nor newer live work turns the call away. */
  lemma AskingQueues(c: ApiSettings, q: Queue, results: ResultTable, page: PageKey, revision: int, now: int,
                     rival: Option<Rival>)
    requires UniqueWork(q.work) && IdsBelow(q) && !HasDead(q.work, page, revision)
    ensures HasLive(Asked(c, q, results, page, revision, now, rival).work, page, revision) <==>
      || HasLive(q.work, page, revision)
      || (!ReadySince(results, page, now - c.freshness) && Inserts(q.work, page, revision))
  {
    NothingRevived(c, q.work, page, revision, now);
    if !ReadySince(results, page, now - c.freshness) {
      EnqueueingMakesLive(q.work, q.next, page, revision, now, rival);
    }
  }

  lemma EnqueueingMakesLive(t: WorkTable, next: nat, page: PageKey, revision: int, now: int, rival: Option<Rival>)
    requires UniqueWork(t) && next !in t && !HasDead(t, page, revision)
    ensures var u := EnqueueRivalled(t, next, page, revision, READER_PRIORITY, now, rival);
      HasLive(u, page, revision) <==> HasLive(t, page, revision) || Inserts(t, page, revision)
  {
    if id :| id in t && t[id].Names(page, revision) {
      KnownRowAfter(t, next, page, revision, now, rival, id);
      OnlyRowOfKey(t, page, revision, id);
    } else if Inserts(t, page, revision) {
      NewRowIsLive(t, next, page, revision, now, rival);
    }
  }

  lemma NewRowIsLive(t: WorkTable, next: nat, page: PageKey, revision: int, now: int, rival: Option<Rival>)
    requires next !in t && Inserts(t, page, revision)
    ensures HasLive(EnqueueRivalled(t, next, page, revision, READER_PRIORITY, now, rival), page, revision)
  {
    var first := if rival.Some? then rival.value else Rival(READER_PRIORITY, now);
    RivalledLikeAlone(t, next, page, revision, READER_PRIORITY, now, first);
    assert EnqueueRivalled(t, next, page, revision, READER_PRIORITY, now, rival)[next].Live();
  }

  /** So for a revision that nothing stands for yet, calling an answer stale and queueing the revision's job are the same
      thing at every clock reading but that one. */
  lemma StaleMeansQueued(c: ApiSettings, q: Queue, results: ResultTable, page: PageKey, revision: int, now: int,
                         rival: Option<Rival>, row: ResultRow)
    requires UniqueWork(q.work) && IdsBelow(q) && IsReady(results, page, row) && Inserts(q.work, page, revision)
    ensures (!IsFresh(c, row, now) <==> HasLive(Asked(c, q, results, page, revision, now, rival).work, page, revision))
            <==> row.computedAt + c.freshness != now
  {
    FreshnessBoundary(c, results, page, row, now);
    AskingQueues(c, q, results, page, revision, now, rival);
  }

  /** Readers go first: once a reader has asked for a revision nothing stands for yet, no claim takes a job of lower
      priority than a reader's, 100, until that one has been claimed. */
  lemma ReadersGoFirst(c: ApiSettings, q: Queue, results: ResultTable, page: PageKey, revision: int, now: int,
                       rival: Option<Rival>, later: int, id: nat)
    requires IdsBelow(q) && Inserts(q.work, page, revision) && !ReadySince(results, page, now - c.freshness)
    requires now <= later && (rival.Some? ==> rival.value.at <= later)
    requires FirstClaim(Asked(c, q, results, page, revision, now, rival).work, {}, later, id)
    ensures Asked(c, q, results, page, revision, now, rival).work[id].priority >= 100
  {
    NothingRevived(c, q.work, page, revision, now);
    var first := if rival.Some? then rival.value else Rival(READER_PRIORITY, now);
    RivalledLikeAlone(q.work, q.next, page, revision, READER_PRIORITY, now, first);
    var u := Asked(c, q, results, page, revision, now, rival).work;
    assert u == EnqueueRivalled(q.work, q.next, page, revision, READER_PRIORITY, now, rival);
    assert q.next in u && u[q.next].priority == READER_PRIORITY;
    assert Claimable(u[q.next], later) by {
      EnqueuedIsClaimable(q.work, q.next, page, revision, first.priority, first.at, later);
    }
  }

  /** Asking about a revision that has a row keeps that row's liveness and makes no other row of the revision. */
  lemma KnownRowAfter(t: WorkTable, next: nat, page: PageKey, revision: int, now: int, rival: Option<Rival>, id: nat)
    requires UniqueWork(t) && next !in t && id in t && t[id].Names(page, revision)
    ensures var u := EnqueueRivalled(t, next, page, revision, READER_PRIORITY, now, rival);
      HasLive(u, page, revision) <==> t[id].Live()
  {
    assert HasWork(t, page, revision);
    var u := EnqueueTx(t, next, page, revision, READER_PRIORITY, now);
    EnqueueRows(t, next, page, revision, READER_PRIORITY, now);
    assert id in u && u[id].Names(page, revision) && (u[id].Live() <==> t[id].Live());
    forall k | k in u && u[k].Names(page, revision) ensures k == id {
      assert t[k].Names(t[id].page, t[id].revision);
    }
  }

  /** A dead job is live after asking exactly when it may be revived. */
  lemma DeadRowAfter(c: ApiSettings, q: Queue, results: ResultTable, page: PageKey, revision: int, now: int,
                     rival: Option<Rival>, id: nat)
    requires UniqueWork(q.work) && IdsBelow(q)
    requires id in q.work && q.work[id].Names(page, revision) && q.work[id].state.Dead?
    ensures var u := Asked(c, q, results, page, revision, now, rival).work;
      HasLive(u, page, revision) <==> MayRevive(c, q.work[id], now)
  {
    var t := Revived(c, q.work, page, revision, now);
    RevivedKeepsUnique(c, q.work, page, revision, now);
    assert t[id].Names(page, revision) && (t[id].Live() <==> MayRevive(c, q.work[id], now));
    if ReadySince(results, page, now - c.freshness) {
      OnlyRowOfKey(t, page, revision, id);
    } else {
      KnownRowAfter(t, q.next, page, revision, now, rival, id);
    }
  }

  lemma RevivedKeepsUnique(c: ApiSettings, t: WorkTable, page: PageKey, revision: int, now: int)
    requires UniqueWork(t)
    ensures var u := Revived(c, t, page, revision, now); UniqueWork(u) && u.Keys == t.Keys
  {
    var u := Revived(c, t, page, revision, now);
    forall i, j | i in u && j in u && u[i].Names(u[j].page, u[j].revision) ensures i == j {
      assert t[i].Names(t[j].page, t[j].revision);
    }
  }

  lemma OnlyRowOfKey(t: WorkTable, page: PageKey, revision: int, id: nat)
    requires UniqueWork(t) && id in t && t[id].Names(page, revision)
    ensures HasLive(t, page, revision) <==> t[id].Live()
  {
    forall k | k in t && t[k].Names(page, revision) ensures k == id {
      assert t[k].Names(t[id].page, t[id].revision);
    }
  }

  /** The rest of the handler once an answer, or none, has been read: revives a dead job whose time has come, enqueues
      unless the answer is fresh to the queue, and says whether the job is live. */
  method AskForWork(r: Repository, c: ApiSettings, page: PageKey, revision: int, now: int, rival: Option<Rival>)
    returns (live: bool)
    requires r.Valid()
    modifies r`work, r`nextWork
    ensures r.Valid()
    ensures QueueOf(r) == Asked(c, old(QueueOf(r)), r.results, page, revision, now, rival)
    ensures AskedWell(c, old(r.work), r.work, r.results, page, revision, now)
    ensures live <==> HasLive(r.work, page, revision)
  {
    AskedMeans(c, QueueOf(r), r.results, page, revision, now, rival,
               Asked(c, QueueOf(r), r.results, page, revision, now, rival).work);
    ReviveIfDue(r, c, page, revision, now);
    var _ := r.EnqueueIfStale(page, revision, READER_PRIORITY, c.freshness, rival, now);
    var _, after := r.GetWork(page, revision);
    live := after.Some? && after.value.Live();
    assert live ==> HasLive(r.work, page, revision);
    if HasLive(r.work, page, revision) {
      var k :| k in r.work && r.work[k].Names(page, revision) && r.work[k].Live();
      assert r.work[k].Names(page, revision);
    }
  }

  /** What a request finds before anything is asked of the queue. */
  ghost predicate IsReady(t: ResultTable, page: PageKey, row: ResultRow) {
    exists id :: IsLatest(t, page, id) && t[id] == row
  }

  predicate IsFresh(c: ApiSettings, row: ResultRow, now: int) {
    row.computedAt + c.freshness > now
  }

  /** The v2 handler, for a wiki it serves. A page with any answer is served it, however old; a page without one is
      refused only while its job is dead, and otherwise its job is asked for. */
  method PageAttribution(r: Repository, c: ApiSettings, v: View, optedOut: bool, page: PageKey, revision: int, day: int,
                         rival: Option<Rival>, rivalDemand: Option<Counters.Row<DemandData>>, rivalUsage: Option<nat>,
                         now: int)
    returns (response: Response)
    requires r.Valid()
    modifies r`work, r`nextWork, r`demand, r`usage
    ensures r.Valid()
    ensures response.Ready? <==> exists id :: id in r.results && r.results[id].page == page
    ensures response.Ready? ==>
      && IsReady(r.results, page, response.row)
      && response.fields == AttributionFields(v, optedOut, response.row.answer.contributors,
                                              response.row.answer.distinctContributors)
      && response.isFresh == IsFresh(c, response.row, now)
      && response.refreshing == (!response.isFresh && HasLive(r.work, page, revision))
    ensures !response.Ready? ==> (response.Unavailable? <==> Refused(c, old(r.work), page, revision, now))
    ensures response.Unavailable? ==> exists id :: id in r.work && r.work[id].Names(page, revision)
                                        && r.work[id].state.Dead? && r.work[id].errorCode == response.errorCode
    ensures if response.Unavailable? || (response.Ready? && response.isFresh) then QueueOf(r) == old(QueueOf(r))
            else
              && QueueOf(r) == Asked(c, old(QueueOf(r)), r.results, page, revision, now, rival)
              && AskedWell(c, old(r.work), r.work, r.results, page, revision, now)
    ensures var asked := PageRef(page.wiki, page.pageId);
      && Counters.Requests(r.demand, asked) ==
           1 + (if asked !in old(r.demand) && rivalDemand.Some? then rivalDemand.value.requests
                else old(Counters.Requests(r.demand, asked)))
      && forall other :: other != asked ==> Counters.Requests(r.demand, other) == old(Counters.Requests(r.demand, other))
    ensures var outcome := if response.Ready? then "ready" else if response.Unavailable? then "unavailable" else "pending";
      var key := UsageKey(day, page.wiki, outcome);
      && Counters.Requests(r.usage, key) ==
           1 + (if key !in old(r.usage) && rivalUsage.Some? then rivalUsage.value else old(Counters.Requests(r.usage, key)))
      && forall other :: other != key ==> Counters.Requests(r.usage, other) == old(Counters.Requests(r.usage, other))
  {
    r.RecordPageRequest(PageRef(page.wiki, page.pageId), rivalDemand, now);
    response := Respond(r, c, v, optedOut, page, revision, now, rival);
    r.CountRequest(UsageKey(day, page.wiki, Outcome(response)), rivalUsage, now);
  }

  /** The handler between its two counters. */
  method Respond(r: Repository, c: ApiSettings, v: View, optedOut: bool, page: PageKey, revision: int, now: int,
                 rival: Option<Rival>)
    returns (response: Response)
    requires r.Valid()
    modifies r`work, r`nextWork
    ensures r.Valid()
    ensures response.Ready? <==> exists id :: id in r.results && r.results[id].page == page
    ensures response.Ready? ==>
      && IsReady(r.results, page, response.row)
      && response.fields == AttributionFields(v, optedOut, response.row.answer.contributors,
                                              response.row.answer.distinctContributors)
      && response.isFresh == IsFresh(c, response.row, now)
      && response.refreshing == (!response.isFresh && HasLive(r.work, page, revision))
    ensures !response.Ready? ==> (response.Unavailable? <==> Refused(c, old(r.work), page, revision, now))
    ensures response.Unavailable? ==> exists id :: id in r.work && r.work[id].Names(page, revision)
                                        && r.work[id].state.Dead? && r.work[id].errorCode == response.errorCode
    ensures if response.Unavailable? || (response.Ready? && response.isFresh) then QueueOf(r) == old(QueueOf(r))
            else
              && QueueOf(r) == Asked(c, old(QueueOf(r)), r.results, page, revision, now, rival)
              && AskedWell(c, old(r.work), r.work, r.results, page, revision, now)
  {
    var latest := r.GetLatestResult(page);
    if latest.Some? {
      var row := latest.value;
      var isFresh, refreshing := IsFresh(c, row, now), false;
      if !isFresh {
        refreshing := AskForWork(r, c, page, revision, now, rival);
      }
      var fields := AttributionFields(v, optedOut, row.answer.contributors, row.answer.distinctContributors);
      response := Ready(row, fields, isFresh, refreshing);
    } else {
      var id, item := r.GetWork(page, revision);
      if item.Some? && item.value.state.Dead? {
        RefusedIs(c, r.work, page, revision, now, id);
        if !MayRevive(c, item.value, now) {
          return Unavailable(item.value.errorCode);
        }
      } else {
        NotRefused(c, r.work, page, revision, now, id, item);
      }
      var _ := AskForWork(r, c, page, revision, now, rival);
      response := Accepted;
    }
  }

  lemma NotRefused(c: ApiSettings, t: WorkTable, page: PageKey, revision: int, now: int, id: nat, item: Option<WorkItem>)
    requires UniqueWork(t) && (item.Some? <==> HasWork(t, page, revision))
    requires item.Some? ==> id in t && t[id] == item.value && t[id].Names(page, revision) && !t[id].state.Dead?
    ensures !Refused(c, t, page, revision, now)
  {
    if item.Some? {
      forall k | k in t && t[k].Names(page, revision) ensures k == id {
        assert t[k].Names(t[id].page, t[id].revision);
      }
    }
  }

  function Outcome(response: Response): string {
    match response
    case Ready(_, _, _, _) => "ready"
    case Unavailable(_) => "unavailable"
    case Accepted => "pending"
  }
}
