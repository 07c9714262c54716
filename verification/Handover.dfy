/** Handing pages to the queue one after the other, each through `enqueue_if_stale`. */
module Handover {
  import opened Base
  import opened WorkQueue
  import opened Results
  import opened Resume
  import opened Repository

  datatype Queue = Queue(work: WorkTable, next: nat)

  function QueueOf(r: Repository): Queue
    reads r
  {
    Queue(r.work, r.nextWork)
  }

  /** One call of `enqueue_if_stale`, and the rival whose insert comes first, if there is one. */
  datatype Offer = Offer(page: PageKey, revision: int, priority: int, freshness: int, rival: Option<Rival>, now: int)

  ghost function Offered(q: Queue, results: ResultTable, o: Offer): Queue {
    if ReadySince(results, o.page, o.now - o.freshness) then q
    else Queue(EnqueueRivalled(q.work, q.next, o.page, o.revision, o.priority, o.now, o.rival),
               q.next + IdsTaken(q.work, o.page, o.revision, o.rival))
  }

  ghost function Offering(results: ResultTable): (Queue, Offer) -> Queue {
    (q, o) => Offered(q, results, o)
  }

  ghost function HandOver(q: Queue, results: ResultTable, offers: seq<Offer>): Queue {
    Fold(q, offers, Offering(results))
  }

  /** `enqueue_if_stale` answers that the offered revision's job is live now. */
  ghost predicate Takes(q: Queue, results: ResultTable, o: Offer) {
    && !ReadySince(results, o.page, o.now - o.freshness)
    && exists id :: id in Offered(q, results, o).work && Offered(q, results, o).work[id].Names(o.page, o.revision)
                    && Offered(q, results, o).work[id].Live()
  }

  /** How many of the offers were taken, each judged when it was made. */
  ghost function TakenCount(q: Queue, results: ResultTable, offers: seq<Offer>): nat {
    if offers == [] then 0
    else
      var n := |offers| - 1;
      TakenCount(q, results, offers[..n]) + if Takes(HandOver(q, results, offers[..n]), results, offers[n]) then 1 else 0
  }

  lemma TakenOne(q: Queue, results: ResultTable, offers: seq<Offer>, o: Offer)
    ensures TakenCount(q, results, offers + [o])
      == TakenCount(q, results, offers) + if Takes(HandOver(q, results, offers), results, o) then 1 else 0
    ensures HandOver(q, results, offers + [o]) == Offered(HandOver(q, results, offers), results, o)
  {
    assert (offers + [o])[..|offers|] == offers;
  }

  lemma HandOverAppend(q: Queue, results: ResultTable, first: seq<Offer>, second: seq<Offer>)
    ensures HandOver(q, results, first + second) == HandOver(HandOver(q, results, first), results, second)
  {
    FoldAppend(q, first, second, Offering(results));
  }

  ghost predicate IdsBelow(q: Queue) {
    forall id :: id in q.work ==> id < q.next
  }

  /** The two queues hold the same rows of every page but one. */
  ghost predicate SameElsewhere(t: WorkTable, u: WorkTable, page: PageKey) {
    && (forall k :: k in t && t[k].page != page ==> k in u && u[k] == t[k])
    && (forall k :: k in u && u[k].page != page ==> k in t && u[k] == t[k])
  }

  lemma OfferTouchesItsPage(q: Queue, results: ResultTable, o: Offer)
    requires IdsBelow(q)
    ensures IdsBelow(Offered(q, results, o)) && SameElsewhere(q.work, Offered(q, results, o).work, o.page)
  {
    RivalledFrame(q.work, q.next, o.page, o.revision, o.priority, o.now, o.rival);
    var first := if o.rival.Some? then o.rival.value else Rival(o.priority, o.now);
    EnqueueRows(q.work, q.next, o.page, o.revision, first.priority, first.at);
    EnqueueRows(q.work, q.next, o.page, o.revision, o.priority, o.now);
  }

  /** The page is served by a fresh answer, or its revision has a row, or newer work of the page is live. */
  ghost predicate Attended(q: Queue, results: ResultTable, o: Offer) {
    || ReadySince(results, o.page, o.now - o.freshness)
    || HasWork(q.work, o.page, o.revision)
    || HasNewerLive(q.work, o.page, o.revision)
  }

  lemma AttendedAtOnce(q: Queue, results: ResultTable, o: Offer)
    requires IdsBelow(q)
    ensures Attended(Offered(q, results, o), results, o)
  {
    RivalledClearsOlder(q.work, q.next, o.page, o.revision, o.priority, o.now, o.rival);
  }

  lemma AttendedAfterOther(q: Queue, results: ResultTable, o: Offer, other: Offer)
    requires IdsBelow(q) && Attended(q, results, o) && other.page != o.page
    ensures Attended(Offered(q, results, other), results, o)
  {
    OfferTouchesItsPage(q, results, other);
    AttendedElsewhere(q, Offered(q, results, other), results, o, other.page);
  }

  lemma {:induction false} HandOverKeepsIds(q: Queue, results: ResultTable, offers: seq<Offer>)
    requires IdsBelow(q)
    ensures IdsBelow(HandOver(q, results, offers))
  {
    if offers != [] {
      var n := |offers| - 1;
      HandOverKeepsIds(q, results, offers[..n]);
      OfferTouchesItsPage(HandOver(q, results, offers[..n]), results, offers[n]);
    }
  }

  lemma OfferAtPriority(q: Queue, results: ResultTable, o: Offer)
    requires IdsBelow(q)
    ensures AtPriority(q.work, Offered(q, results, o).work, o.priority)
  {
    if !ReadySince(results, o.page, o.now - o.freshness) {
      RivalledAtPriority(q.work, q.next, o.page, o.revision, o.priority, o.now, o.rival);
    }
  }

  /** So however many pages a job offers, and whoever races it, nothing it adds outranks its own priority and nothing
      queued before is demoted. */
  lemma {:induction false} OffersAtPriority(q: Queue, results: ResultTable, offers: seq<Offer>, priority: int)
    requires IdsBelow(q) && forall o :: o in offers ==> o.priority == priority
    ensures AtPriority(q.work, HandOver(q, results, offers).work, priority)
  {
    if offers != [] {
      var n := |offers| - 1;
      OffersAtPriority(q, results, offers[..n], priority);
      HandOverKeepsIds(q, results, offers[..n]);
      OfferAtPriority(HandOver(q, results, offers[..n]), results, offers[n]);
    }
  }

  /** Nothing is left to do for the page at this revision: it has an answer at least that new, or a row of the revision, or
      newer live work. */
  ghost predicate IsAttended(t: WorkTable, results: ResultTable, page: PageKey, revision: int, since: int) {
    || (exists id :: id in results && results[id].page == page && results[id].computedAt >= since)
    || (exists id :: id in t && t[id].page == page && t[id].revision == revision)
    || (exists id :: id in t && t[id].page == page && t[id].revision > revision && t[id].Live())
  }

  lemma AttendedIs(q: Queue, results: ResultTable, o: Offer)
    requires Attended(q, results, o)
    ensures IsAttended(q.work, results, o.page, o.revision, o.now - o.freshness)
  {
    if HasWork(q.work, o.page, o.revision) {
      var id :| id in q.work && q.work[id].Names(o.page, o.revision);
    }
  }

  /** Nothing offered is dropped, raced or not: after the whole batch every offered page is attended to. */
  lemma {:induction false} HandOverAttendsAll(q: Queue, results: ResultTable, offers: seq<Offer>, i: nat)
    requires IdsBelow(q) && i < |offers|
    requires forall j :: i < j < |offers| ==> offers[j].page != offers[i].page
    ensures Attended(HandOver(q, results, offers), results, offers[i])
    decreases |offers|
  {
    var n := |offers| - 1;
    var before := HandOver(q, results, offers[..n]);
    HandOverKeepsIds(q, results, offers[..n]);
    if i < n {
      HandOverAttendsAll(q, results, offers[..n], i);
      AttendedAfterOther(before, results, offers[i], offers[n]);
    } else {
      AttendedAtOnce(before, results, offers[n]);
    }
  }

  lemma AttendedElsewhere(q: Queue, q': Queue, results: ResultTable, o: Offer, page: PageKey)
    requires Attended(q, results, o) && o.page != page && SameElsewhere(q.work, q'.work, page)
    ensures Attended(q', results, o)
  {
    if HasWork(q.work, o.page, o.revision) {
      var k :| k in q.work && q.work[k].Names(o.page, o.revision);
      assert q'.work[k] == q.work[k];
    } else if HasNewerLive(q.work, o.page, o.revision) {
      var k :| k in q.work && q.work[k].page == o.page && q.work[k].revision > o.revision && q.work[k].Live();
      assert q'.work[k] == q.work[k];
    }
  }
}
