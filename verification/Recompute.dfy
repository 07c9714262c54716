/** The sweep that re-queues answers computed with a weaker metric, one bounded pass at a time. */
module Recompute {
  import opened Base
  import opened Sorting
  import opened Keyset
  import opened Replica
  import opened WorkQueue
  import opened Results
  import opened Repository
  import opened Handover

  const RECOMPUTE_PRIORITY := 5

  /** What a pass goes over, and what each row's enqueue will meet: its clock reading, and a rival if there is one. */
  datatype Pass = Pass(algorithm: string, metric: string, minAge: int, limit: nat, clock: nat -> int, rival: nat -> Option<Rival>)
  {
    function CursorKey(): string {
      "recompute:" + algorithm + ":" + metric + ":cursor"
    }

    /** Answers computed at or after this are left alone for now. */
    function Cutoff(now: int): int {
      now - minAge
    }

    function OfferOf(t: ResultTable, id: nat): Offer
      requires id in t
    {
      Offer(t[id].page, t[id].revision, RECOMPUTE_PRIORITY, minAge, rival(id), clock(id))
    }

    function Offers(t: ResultTable, ids: seq<nat>): seq<Offer>
      requires forall id :: id in ids ==> id in t
    {
      seq(|ids|, i requires 0 <= i < |ids| => OfferOf(t, ids[i]))
    }
  }

  function StoredCursor(state: map<string, string>, key: string): nat {
    if key in state && IsDigits(state[key]) then Number(state[key]) else 0
  }

  /** Where the sweep goes on after a pass: an empty one starts the next lap. */
  function Onward(ids: seq<nat>): nat {
    if ids == [] then 0 else ids[|ids| - 1]
  }

  lemma TextRoundTrip(n: nat)
    ensures IsDigits(Text(n)) && Number(Text(n)) == n
  {
    DecimalRoundTrip(n);
  }

  lemma OneMoreRow(p: Pass, t: ResultTable, rows: seq<nat>, i: nat)
    requires i < |rows| && forall id :: id in rows ==> id in t
    ensures p.Offers(t, rows[..i + 1]) == p.Offers(t, rows[..i]) + [p.OfferOf(t, rows[i])]
  {
  }

  ghost predicate OnePagePerRow(t: ResultTable, rows: seq<nat>)
    requires forall id :: id in rows ==> id in t
  {
    forall i, j :: 0 <= i < j < |rows| ==> t[rows[i]].page != t[rows[j]].page
  }

  /** Every row's page is attended to at the row's own revision. */
  ghost predicate RowsAttended(t: WorkTable, results: ResultTable, p: Pass, rows: seq<nat>)
    requires forall id :: id in rows ==> id in results
  {
    forall id :: id in rows ==> IsAttended(t, results, results[id].page, results[id].revision, p.clock(id) - p.minAge)
  }

  lemma RowsAreAttended(q: Queue, results: ResultTable, p: Pass, rows: seq<nat>)
    requires forall id :: id in rows ==> id in results
    requires IdsBelow(q) && OnePagePerRow(results, rows)
    ensures RowsAttended(HandOver(q, results, p.Offers(results, rows)).work, results, p, rows)
  {
    var offers := p.Offers(results, rows);
    var after := HandOver(q, results, offers);
    forall id | id in rows
      ensures IsAttended(after.work, results, results[id].page, results[id].revision, p.clock(id) - p.minAge)
    {
      var i :| 0 <= i < |rows| && rows[i] == id;
      HandOverAttendsAll(q, results, offers, i);
      AttendedIs(after, results, offers[i]);
    }
  }

  method EnqueueRows(r: Repository, p: Pass, rows: seq<nat>) returns (queued: nat)
    requires r.Valid() && forall id :: id in rows ==> id in r.results
    modifies r`work, r`nextWork
    ensures r.Valid() && QueueOf(r) == HandOver(old(QueueOf(r)), r.results, p.Offers(r.results, rows))
    ensures queued == TakenCount(old(QueueOf(r)), r.results, p.Offers(r.results, rows))
    ensures forall id :: id in r.work && id !in old(r.work) ==> r.work[id].priority == 5
    ensures OnePagePerRow(r.results, rows) ==> RowsAttended(r.work, r.results, p, rows)
  {
    queued := 0;
    ghost var q, offers := QueueOf(r), [];
    for i := 0 to |rows|
      invariant r.Valid() && offers == p.Offers(r.results, rows[..i])
      invariant QueueOf(r) == HandOver(q, r.results, offers) && queued == TakenCount(q, r.results, offers)
    {
      assert rows[i] in rows;
      var o := p.OfferOf(r.results, rows[i]);
      OneMoreRow(p, r.results, rows, i);
      TakenOne(q, r.results, offers, o);
      var isQueued := r.EnqueueIfStale(o.page, o.revision, o.priority, o.freshness, o.rival, o.now);
      offers := offers + [o];
      if isQueued {
        queued := queued + 1;
      }
    }
    assert rows[..|rows|] == rows;
    OffersAtPriority(q, r.results, offers, RECOMPUTE_PRIORITY);
    if OnePagePerRow(r.results, rows) {
      RowsAreAttended(q, r.results, p, rows);
    }
  }

  /** What a pass reads: the weak rows behind the stored cursor. */
  method ReadRows(r: Repository, p: Pass, now: int) returns (afterId: nat, rows: seq<nat>)
    ensures afterId == StoredCursor(r.state, p.CursorKey())
    ensures IsBatch(WeakResults(r.results, p.algorithm, p.metric, p.Cutoff(now)), Some(afterId), p.limit, rows, Ascending)
    ensures IsSweep(r.results, p.algorithm, p.metric, now - p.minAge, p.limit, afterId, rows)
    ensures forall id :: id in rows ==> id in r.results
  {
    var cursor := r.GetState(p.CursorKey());
    afterId := if cursor.Some? && IsDigits(cursor.value) then Number(cursor.value) else 0;
    rows := r.ResultsWithMetric(p.algorithm, p.metric, p.Cutoff(now), p.limit, afterId);
  }

  /** The cursor moves to the last row read; an empty pass starts the next lap. */
  method StoreNext(r: Repository, key: string, afterId: nat, rows: seq<nat>)
    requires afterId == StoredCursor(r.state, key)
    modifies r`state
    ensures StoredCursor(r.state, key) == Onward(rows) == if rows == [] then 0 else rows[|rows| - 1]
    ensures forall other :: other != key ==>
      (other in r.state <==> other in old(r.state)) && (other in r.state ==> r.state[other] == old(r.state)[other])
  {
    if rows != [] {
      TextRoundTrip(rows[|rows| - 1]);
      r.SetState(key, Text(rows[|rows| - 1]));
    } else if afterId > 0 {
      TextRoundTrip(0);
      r.SetState(key, Text(0));
    }
  }

  /** One pass: the next weak rows in order of identifier, each offered at the revision it describes. */
  method Sweep(r: Repository, p: Pass, now: int) returns (queued: nat, ghost ids: seq<nat>)
    requires r.Valid()
    modifies r`work, r`nextWork, r`state
    ensures r.Valid()
    ensures IsBatch(WeakResults(r.results, p.algorithm, p.metric, p.Cutoff(now)),
                    Some(StoredCursor(old(r.state), p.CursorKey())), p.limit, ids, Ascending)
    ensures IsSweep(r.results, p.algorithm, p.metric, now - p.minAge, p.limit, StoredCursor(old(r.state), p.CursorKey()), ids)
    ensures p.CursorKey() !in old(r.state) ==>
      IsSweep(r.results, p.algorithm, p.metric, now - p.minAge, p.limit, 0, ids)
    ensures StoredCursor(r.state, p.CursorKey()) == Onward(ids) == if ids == [] then 0 else ids[|ids| - 1]
    ensures forall id :: id in ids ==> id in r.results
    ensures QueueOf(r) == HandOver(old(QueueOf(r)), r.results, p.Offers(r.results, ids))
    ensures queued == TakenCount(old(QueueOf(r)), r.results, p.Offers(r.results, ids))
    ensures forall id :: id in r.work && id !in old(r.work) ==> r.work[id].priority == 5
    ensures OnePagePerRow(r.results, ids) ==> RowsAttended(r.work, r.results, p, ids)
    ensures forall key :: key != p.CursorKey() ==>
      (key in r.state <==> key in old(r.state)) && (key in r.state ==> r.state[key] == old(r.state)[key])
  {
    var afterId, rows := ReadRows(r, p, now);
    ids := rows;
    queued := 0;
    if rows != [] {
      queued := EnqueueRows(r, p, rows);
    }
    StoreNext(r, p.CursorKey(), afterId, rows);
  }

  /** Results as other jobs have left them when a pass reads them. */
  ghost predicate IsResultTable(t: ResultTable, next: nat) {
    (forall id :: id in t ==> 0 < id < next) && UniqueResults(t)
  }

  /** Successive passes, with the results changing in any way in between: each goes on from the cursor the one before
      stored, so together they are a walk from lap to lap over what each found eligible. */
  method Sweeps(r: Repository, p: Pass, tables: seq<ResultTable>, nows: seq<int>)
    returns (ghost snapshots: seq<set<nat>>, ghost batches: seq<seq<nat>>)
    requires r.Valid() && |tables| == |nows| && forall t :: t in tables ==> IsResultTable(t, r.nextResult)
    modifies r`work, r`nextWork, r`results, r`nextResult, r`state
    ensures r.Valid() && |snapshots| == |tables|
    ensures forall i :: 0 <= i < |tables| ==>
      snapshots[i] == WeakResults(tables[i], p.algorithm, p.metric, p.Cutoff(nows[i]))
    ensures Passes(StoredCursor(old(r.state), p.CursorKey()), snapshots, batches, p.limit)
    ensures StoredCursor(r.state, p.CursorKey()) == CursorOf(StoredCursor(old(r.state), p.CursorKey()), batches)
  {
    snapshots, batches := [], [];
    ghost var start := StoredCursor(r.state, p.CursorKey());
    for i := 0 to |tables|
      invariant r.Valid() && r.nextResult == old(r.nextResult) && |snapshots| == i
      invariant forall k :: 0 <= k < i ==> snapshots[k] == WeakResults(tables[k], p.algorithm, p.metric, p.Cutoff(nows[k]))
      invariant Passes(start, snapshots, batches, p.limit)
      invariant StoredCursor(r.state, p.CursorKey()) == CursorOf(start, batches)
    {
      assert tables[i] in tables;
      ghost var ids := SweepOver(r, p, tables[i], nows[i]);
      ghost var found := WeakResults(tables[i], p.algorithm, p.metric, p.Cutoff(nows[i]));
      OneMorePass(start, snapshots, batches, found, ids, p.limit);
      snapshots, batches := snapshots + [found], batches + [ids];
    }
  }

  /** One pass over the results as they are by then. */
  method SweepOver(r: Repository, p: Pass, table: ResultTable, now: int) returns (ghost ids: seq<nat>)
    requires r.Valid() && IsResultTable(table, r.nextResult)
    modifies r`work, r`nextWork, r`results, r`nextResult, r`state
    ensures r.Valid() && r.nextResult == old(r.nextResult)
    ensures IsBatch(WeakResults(table, p.algorithm, p.metric, p.Cutoff(now)),
                    Some(StoredCursor(old(r.state), p.CursorKey())), p.limit, ids, Ascending)
    ensures StoredCursor(r.state, p.CursorKey()) == Onward(ids)
  {
    r.Become(Tables(r.work, r.nextWork, table, r.nextResult));
    var queued;
    queued, ids := Sweep(r, p, now);
  }

  /** Where the sweep stands after `batches`. */
  function CursorOf(cursor: nat, batches: seq<seq<nat>>): nat {
    if batches == [] then cursor else Onward(batches[|batches| - 1])
  }

  lemma {:induction false} OneMorePass(cursor: nat, snapshots: seq<set<nat>>, batches: seq<seq<nat>>, keys: set<nat>,
                                       ids: seq<nat>, limit: nat)
    requires Passes(cursor, snapshots, batches, limit)
    requires IsBatch(keys, Some(CursorOf(cursor, batches)), limit, ids, Ascending)
    ensures Passes(cursor, snapshots + [keys], batches + [ids], limit)
    decreases |batches|
  {
    if batches == [] {
      assert (snapshots + [keys])[1..] == [] && (batches + [ids])[1..] == [];
    } else {
      assert CursorOf(Onward(batches[0]), batches[1..]) == CursorOf(cursor, batches);
      OneMorePass(Onward(batches[0]), snapshots[1..], batches[1..], keys, ids, limit);
      assert (snapshots + [keys])[1..] == snapshots[1..] + [keys] && (batches + [ids])[1..] == batches[1..] + [ids];
    }
  }

  /* ---- Laps ---- */

  /** Successive passes from `cursor`; `snapshots` are the rows eligible when each pass reads them. */
  ghost predicate Passes(cursor: nat, snapshots: seq<set<nat>>, batches: seq<seq<nat>>, limit: nat)
    decreases |batches|
  {
    && |snapshots| == |batches|
    && (batches != [] ==>
          && IsBatch(snapshots[0], Some(cursor), limit, batches[0], Ascending)
          && Passes(Onward(batches[0]), snapshots[1..], batches[1..], limit))
  }

  /** No pass before the last one comes back empty. */
  ghost predicate OneLap(batches: seq<seq<nat>>) {
    batches != [] && batches[|batches| - 1] == [] && forall i :: 0 <= i < |batches| - 1 ==> batches[i] != []
  }

  lemma {:induction false} LapIsWalk(cursor: nat, snapshots: seq<set<nat>>, batches: seq<seq<nat>>, limit: nat)
    requires Passes(cursor, snapshots, batches, limit)
    requires forall i :: 0 <= i < |batches| - 1 ==> batches[i] != []
    ensures IsWalk(Some(cursor), snapshots, batches, limit, Ascending)
    decreases |batches|
  {
    if |batches| > 1 {
      assert batches[0] != [];
      LapIsWalk(Onward(batches[0]), snapshots[1..], batches[1..], limit);
    }
  }

  /** One lap, from cursor 0 to the pass that resets it, while rows come, go and change eligibility: identifiers come
      up in strictly rising order, so none twice, and every row that stayed eligible comes up. */
  lemma LapSeesEachRowOnce(snapshots: seq<set<nat>>, batches: seq<seq<nat>>, limit: nat, id: nat)
    requires limit > 0 && Passes(0, snapshots, batches, limit) && OneLap(batches)
    requires id > 0 && forall keys :: keys in snapshots ==> id in keys
    ensures StrictlyRanked(Visited(batches), Ascending) && id in Visited(batches)
  {
    LapIsWalk(0, snapshots, batches, limit);
    WalkIsStrict(Some(0), snapshots, batches, limit, Ascending);
    ShortBatchEndsWalk(Some(0), snapshots, batches, limit, Ascending, id);
  }

  /** Until it resets, every pass moves the cursor up; with rows only from `ids`, a lap has at most one pass for each
      of them behind the cursor, and then the empty one. */
  lemma {:induction false} LapEnds(cursor: nat, snapshots: seq<set<nat>>, batches: seq<seq<nat>>, limit: nat, ids: set<nat>)
    requires Passes(cursor, snapshots, batches, limit)
    requires forall i :: 0 <= i < |batches| ==> batches[i] != []
    requires forall keys :: keys in snapshots ==> keys <= ids
    ensures |batches| <= |Above(ids, cursor)|
    decreases |batches|
  {
    if batches != [] {
      var batch := batches[0];
      var next := Onward(batch);
      assert next in batch && snapshots[0] in snapshots;
      LapEnds(next, snapshots[1..], batches[1..], limit, ids);
      assert Above(ids, next) <= Above(ids, cursor) - {next};
      SubsetSize(Above(ids, next), Above(ids, cursor) - {next});
    }
  }

  function Above(ids: set<nat>, cursor: nat): set<nat> {
    set id | id in ids && id > cursor
  }

  /** Why the sweep offers the revision its row describes: the answer that comes back replaces the row under the same
      identifier, and takes exactly that row out of the sweep until it has aged again. */
  lemma RecomputedRowLeavesSweep(t: ResultTable, newId: nat, row: ResultRow, metric: string, before: int, id: nat)
    requires UniqueResults(t) && id in t && t[id].Names(row.page, row.revision)
    requires row.computedAt >= before
    ensures var u := SaveTx(t, newId, row);
      && u.Keys == t.Keys
      && WeakResults(u, row.page.algorithm, metric, before) == WeakResults(t, row.page.algorithm, metric, before) - {id}
  {
    var u := SaveTx(t, newId, row);
    assert HasResult(t, row.page, row.revision);
    forall k | k in t && k != id ensures u[k] == t[k] {
      assert !t[k].Names(t[id].page, t[id].revision);
    }
  }
}
