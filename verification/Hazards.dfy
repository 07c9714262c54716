/** What the queue's protocol does not promise, each with the exact condition under which it happens. */
module Hazards {
  import opened Base
  import opened WorkQueue
  import opened Results
  import opened QueueSystem

  /* ---- Two waiting revisions, and abandoned ones ---- */

  ghost predicate OnePending(t: WorkTable, page: PageKey) {
    forall i, j :: i in t && j in t && t[i].page == page && t[j].page == page && t[i].state.Pending? && t[j].state.Pending?
      ==> i == j
  }

  /** The step puts row `id` back in line: a failure that is not fatal, or a revival of a dead row. */
  predicate Reopens(c: Settings, s: System, a: Action, id: nat) {
    && id in s.work
    && ((a.Revive? && a.id == id && s.work[id].state.Dead?)
        || (a.FailJob? && a.worker in s.workers && s.workers[a.worker].lease.id == id
            && !IsFatal(s.workers[a.worker].lease, c.maxAttempts, a.permanent)))
  }

  /** Two revisions of a page come to wait at once exactly when a row is put back in line while another row of its page
      is waiting. */
  lemma SecondPending(c: Settings, s: System, a: Action, page: PageKey)
    requires Inv(c, s) && Enabled(c, s, a) && OnePending(s.work, page)
    ensures !OnePending(Apply(c, s, a).work, page) <==>
      exists id, other :: id != other && Reopens(c, s, a, id) && s.work[id].page == page
        && other in s.work && s.work[other].page == page && s.work[other].state.Pending?
  {
    if Asks(a) {
      AskingKeepsOnePending(c, s, a, page);
    } else if a.Revive? || a.FailJob? {
      ReopeningPending(c, s, a, page);
    } else {
      OtherStepsAddNoPending(c, s, a, page);
    }
  }

  lemma OtherStepsAddNoPending(c: Settings, s: System, a: Action, page: PageKey)
    requires Enabled(c, s, a) && OnePending(s.work, page) && !Asks(a) && !a.Revive? && !a.FailJob?
    ensures OnePending(Apply(c, s, a).work, page)
  {
    var u := Apply(c, s, a).work;
    assert forall k :: k in u && u[k].state.Pending? ==> k in s.work && s.work[k].state.Pending? && s.work[k].page == u[k].page;
  }

  lemma AskingKeepsOnePending(c: Settings, s: System, a: Action, page: PageKey)
    requires Inv(c, s) && Enabled(c, s, a) && Asks(a) && OnePending(s.work, page)
    ensures OnePending(Apply(c, s, a).work, page)
  {
    if a.Enqueue? {
      EnqueueKeepsOnePending(s.work, s.nextWork, a.page, a.revision, a.priority, a.at, page);
    } else if a.Requeue? {
      var h := s.workers[a.worker];
      EnqueueKeepsOnePending(s.work, s.nextWork, h.lease.page, h.phase.current, h.lease.priority, a.at, page);
    }
  }

  lemma EnqueueKeepsOnePending(t: WorkTable, id: nat, asked: PageKey, revision: int, priority: int, now: int, page: PageKey)
    requires id !in t && OnePending(t, page)
    ensures OnePending(EnqueueTx(t, id, asked, revision, priority, now), page)
  {
    var u := EnqueueTx(t, id, asked, revision, priority, now);
    EnqueueRows(t, id, asked, revision, priority, now);
    forall i, j | i in u && j in u && u[i].page == page && u[j].page == page && u[i].state.Pending? && u[j].state.Pending?
      ensures i == j
    {
      if i in t && j in t {
        assert t[i].state.Pending? && t[j].state.Pending?;
      }
    }
  }

  /** One row changes, and comes to wait exactly when `reopens` says so. */
  lemma OneRowReopens(t: WorkTable, u: WorkTable, page: PageKey, id: nat, reopens: bool)
    requires OnePending(t, page) && u.Keys == t.Keys && forall k :: k in u && k != id ==> u[k] == t[k]
    requires id in t ==> u[id].page == t[id].page && (u[id].state.Pending? <==> reopens || t[id].state.Pending?)
    requires id in t && reopens ==> !t[id].state.Pending?
    ensures !OnePending(u, page) <==>
      id in t && reopens && t[id].page == page
      && exists other :: other != id && other in t && t[other].page == page && t[other].state.Pending?
  {
    if id in t && reopens && t[id].page == page {
      if other :| other != id && other in t && t[other].page == page && t[other].state.Pending? {
        assert u[other].state.Pending? && u[id].state.Pending?;
      }
    }
    if !OnePending(u, page) {
      var i, j :| i in u && j in u && u[i].page == page && u[j].page == page
        && u[i].state.Pending? && u[j].state.Pending? && i != j;
      assert i == id || j == id;
    }
  }

  lemma ReopeningPending(c: Settings, s: System, a: Action, page: PageKey)
    requires Inv(c, s) && Enabled(c, s, a) && OnePending(s.work, page) && (a.Revive? || a.FailJob?)
    ensures !OnePending(Apply(c, s, a).work, page) <==>
      exists id, other :: id != other && Reopens(c, s, a, id) && s.work[id].page == page
        && other in s.work && s.work[other].page == page && s.work[other].state.Pending?
  {
    var id := if a.Revive? then a.id else s.workers[a.worker].lease.id;
    if a.FailJob? {
      assert Holds(s, s.workers[a.worker]);
    }
    OneRowReopens(s.work, Apply(c, s, a).work, page, id, Reopens(c, s, a, id));
    assert forall k :: Reopens(c, s, a, k) ==> k == id;
  }

  /* ---- When a page runs out of live work ---- */

  ghost predicate PageIsLive(t: WorkTable, page: PageKey) {
    exists id :: id in t && t[id].page == page && t[id].Live()
  }

  /** Row `id` is the page's only live row. */
  ghost predicate LastLive(t: WorkTable, page: PageKey, id: nat) {
    && id in t && t[id].page == page && t[id].Live()
    && forall other :: other in t && t[other].page == page && t[other].Live() ==> other == id
  }

  /** The step ends live row `id`: completed, refused, superseded as stale, or failed for good. */
  predicate EndsRow(c: Settings, s: System, a: Action, id: nat) {
    && id in s.work && s.work[id].Live()
    && (a.Refuse? || a.SupersedeStale? || a.Complete? || a.FailJob?)
    && a.worker in s.workers && s.workers[a.worker].lease.id == id
    && (a.FailJob? ==> IsFatal(s.workers[a.worker].lease, c.maxAttempts, a.permanent))
  }

  /** Asking for this revision puts an end to the page's work: it is settled, and everything live is older and pending. */
  ghost predicate Silences(t: WorkTable, page: PageKey, revision: int) {
    && Settled(t, page, revision)
    && forall k :: k in t && t[k].page == page && t[k].Live() ==> t[k].state.Pending? && t[k].revision < revision
  }

  /** The step is an enqueue that silences the page. */
  ghost predicate AsksSilencing(s: System, a: Action, page: PageKey) {
    || (a.Enqueue? && a.page == page && Silences(s.work, page, a.revision))
    || (a.Requeue? && a.worker in s.workers && s.workers[a.worker].phase.Requeueing?
        && s.workers[a.worker].lease.page == page && Silences(s.work, page, s.workers[a.worker].phase.current))
  }

  /** A page goes from live work to none exactly when its only live row is ended by its own worker, or when an enqueue of
      a settled revision supersedes all that was waiting. */
  lemma PageGoesQuiet(c: Settings, s: System, a: Action, page: PageKey)
    requires Inv(c, s) && Enabled(c, s, a) && PageIsLive(s.work, page)
    ensures !PageIsLive(Apply(c, s, a).work, page) <==>
      || AsksSilencing(s, a, page)
      || exists id :: EndsRow(c, s, a, id) && LastLive(s.work, page, id)
  {
    if Asks(a) {
      AskingQuiets(c, s, a, page);
    } else if a.Refuse? || a.SupersedeStale? || a.Complete? || a.FailJob? {
      EndingQuiets(c, s, a, page);
    } else {
      OthersStayLive(c, s, a, page);
    }
  }

  lemma OthersStayLive(c: Settings, s: System, a: Action, page: PageKey)
    requires Enabled(c, s, a) && PageIsLive(s.work, page) && (LeavesQueue(a) || a.Claim? || a.Revive? || a.CleanUp?)
    ensures PageIsLive(Apply(c, s, a).work, page)
  {
    var id :| id in s.work && s.work[id].page == page && s.work[id].Live();
    var u := Apply(c, s, a).work;
    assert id in u && u[id].page == page && u[id].Live();
  }

  lemma AskingQuiets(c: Settings, s: System, a: Action, page: PageKey)
    requires Inv(c, s) && Enabled(c, s, a) && Asks(a) && PageIsLive(s.work, page)
    ensures !PageIsLive(Apply(c, s, a).work, page) <==> AsksSilencing(s, a, page)
  {
    if a.Enqueue? {
      EnqueueQuiets(s.work, s.nextWork, a.page, a.revision, a.priority, a.at, page);
    } else if a.Requeue? {
      var h := s.workers[a.worker];
      EnqueueQuiets(s.work, s.nextWork, h.lease.page, h.phase.current, h.lease.priority, a.at, page);
    } else {
      var id :| id in s.work && s.work[id].page == page && s.work[id].Live();
      var u := Apply(c, s, a).work;
      assert id in u && u[id].page == page && u[id].Live();
    }
  }

  lemma EnqueueQuiets(t: WorkTable, id: nat, asked: PageKey, revision: int, priority: int, now: int, page: PageKey)
    requires id !in t && UniqueWork(t) && PageIsLive(t, page)
    ensures !PageIsLive(EnqueueTx(t, id, asked, revision, priority, now), page) <==>
      asked == page && Silences(t, page, revision)
  {
    var u := EnqueueTx(t, id, asked, revision, priority, now);
    var live :| live in t && t[live].page == page && t[live].Live();
    EnqueueRows(t, id, asked, revision, priority, now);
    if asked != page {
      EnqueueFrame(t, id, asked, revision, priority, now, live);
      assert u[live].Live();
    } else if !Silences(t, page, revision) {
      EnqueueLeavesLive(t, id, page, revision, priority, now, live);
    } else {
      SilencedIsQuiet(t, id, page, revision, priority, now);
    }
  }

  lemma SilencedIsQuiet(t: WorkTable, id: nat, page: PageKey, revision: int, priority: int, now: int)
    requires id !in t && Silences(t, page, revision)
    ensures !PageIsLive(EnqueueTx(t, id, page, revision, priority, now), page)
  {
    var settled :| settled in t && t[settled].Names(page, revision) && !t[settled].Live();
    assert HasWork(t, page, revision);
  }

  lemma EnqueueLeavesLive(t: WorkTable, id: nat, page: PageKey, revision: int, priority: int, now: int, live: nat)
    requires id !in t && UniqueWork(t) && live in t && t[live].page == page && t[live].Live() && !Silences(t, page, revision)
    ensures PageIsLive(EnqueueTx(t, id, page, revision, priority, now), page)
  {
    var u := EnqueueTx(t, id, page, revision, priority, now);
    if k :| k in t && t[k].page == page && t[k].Live() && !(t[k].state.Pending? && t[k].revision < revision) {
      assert k in u && u[k].page == page && u[k].Live();
    } else {
      assert !HasWork(t, page, revision) && !HasNewerLive(t, page, revision);
      assert id in u && u[id].page == page && u[id].Live();
    }
  }

  /** One row changes, and `ends` says whether that takes it from live to not live or away. */
  lemma OneRowEnds(t: WorkTable, u: WorkTable, page: PageKey, id: nat, ends: bool)
    requires PageIsLive(t, page)
    requires forall k :: k != id ==> (k in u <==> k in t) && (k in u ==> u[k] == t[k])
    requires id in u ==> id in t && u[id].page == t[id].page
    requires ends <==> id in t && t[id].Live() && !(id in u && u[id].Live())
    ensures !PageIsLive(u, page) <==> ends && LastLive(t, page, id)
  {
    var live :| live in t && t[live].page == page && t[live].Live();
    if ends && LastLive(t, page, id) {
      assert live == id;
    } else if other :| other in t && t[other].page == page && t[other].Live() && other != id {
      assert other in u && u[other].page == page && u[other].Live();
    } else {
      assert live == id && u[id].page == page && u[id].Live();
    }
  }

  lemma EndingQuiets(c: Settings, s: System, a: Action, page: PageKey)
    requires Inv(c, s) && Enabled(c, s, a) && (a.Refuse? || a.SupersedeStale? || a.Complete? || a.FailJob?)
    requires PageIsLive(s.work, page)
    ensures !PageIsLive(Apply(c, s, a).work, page) <==> exists id :: EndsRow(c, s, a, id) && LastLive(s.work, page, id)
  {
    var id := s.workers[a.worker].lease.id;
    assert Holds(s, s.workers[a.worker]);
    OneRowEnds(s.work, Apply(c, s, a).work, page, id, EndsRow(c, s, a, id));
    assert forall k :: EndsRow(c, s, a, k) ==> k == id;
  }

  /* ---- The stale path ---- */

  /** Nothing answers for the page's current revision and nothing will: no answer, no row of it, no newer live work, and
      the stale job itself is not live. */
  ghost predicate Abandoned(s: System, page: PageKey, current: int, id: nat) {
    && !HasResult(s.results, page, current) && !HasWork(s.work, page, current) && !HasNewerLive(s.work, page, current)
    && !(id in s.work && s.work[id].Live())
  }

  /** The stale path is not crash-atomic. When the worker that superseded a stale job lets go of it, the current revision
      is abandoned exactly when nothing answered for it before and the worker crashed, failed fatally or after a cleanup
      removed its row, or lost the insert to a row that was gone again when it updated it. */
  lemma StaleJobAbandoned(c: Settings, s: System, a: Action, w: nat)
    requires Inv(c, s) && Enabled(c, s, a) && Alive(s, w) && s.workers[w].phase.Requeueing?
    requires w !in Apply(c, s, a).workers
    ensures var h := s.workers[w];
      Abandoned(Apply(c, s, a), h.lease.page, h.phase.current, h.lease.id) <==>
        && Abandoned(s, h.lease.page, h.phase.current, h.lease.id)
        && (a.Crash? || a.RequeueConflict? || (a.FailJob? && (IsFatal(h.lease, c.maxAttempts, a.permanent) || h.lease.id !in s.work)))
  {
    var h := s.workers[w];
    assert Holds(s, h);
    assert a.worker == w;
    if a.Requeue? {
      EnqueueClearsOlder(s.work, s.nextWork, h.lease.page, h.phase.current, h.lease.priority, a.at);
    } else if a.RequeueConflict? {
      SameLiveKeys(s.work, Apply(c, s, a).work, h.lease.page, h.phase.current);
    } else if a.FailJob? {
      FailedStaleJob(c, s, a, w);
    }
  }

  /** The same keys with the same liveness answer the same questions. */
  lemma SameLiveKeys(t: WorkTable, u: WorkTable, page: PageKey, revision: int)
    requires u.Keys == t.Keys
    requires forall k :: k in t ==> u[k].Names(t[k].page, t[k].revision) && (u[k].Live() <==> t[k].Live())
    ensures HasWork(u, page, revision) <==> HasWork(t, page, revision)
    ensures HasNewerLive(u, page, revision) <==> HasNewerLive(t, page, revision)
  {
    if HasWork(t, page, revision) {
      var k :| k in t && t[k].Names(page, revision);
      assert u[k].Names(page, revision);
    }
    if HasNewerLive(t, page, revision) {
      var k :| k in t && t[k].page == page && t[k].revision > revision && t[k].Live();
      assert u[k].page == page && u[k].revision > revision && u[k].Live();
    }
  }

  lemma FailedStaleJob(c: Settings, s: System, a: Action, w: nat)
    requires Enabled(c, s, a) && a.FailJob? && a.worker == w && Holds(s, s.workers[w]) && s.workers[w].phase.Requeueing?
    ensures var h := s.workers[w]; var s' := Apply(c, s, a);
      if IsFatal(h.lease, c.maxAttempts, a.permanent) || h.lease.id !in s.work then
        Abandoned(s', h.lease.page, h.phase.current, h.lease.id) <==> Abandoned(s, h.lease.page, h.phase.current, h.lease.id)
      else !Abandoned(s', h.lease.page, h.phase.current, h.lease.id)
  {
    var h := s.workers[w];
    if IsFatal(h.lease, c.maxAttempts, a.permanent) || h.lease.id !in s.work {
      SameLiveKeys(s.work, Apply(c, s, a).work, h.lease.page, h.phase.current);
    }
  }

  /* ---- Why the lease discipline is needed ---- */

  /** A worker that fails its job after losing the row to another worker un-leases the row under that worker:
      a third one can claim it while the second lease still runs exactly when the late failure is not fatal and its
      backoff ends before that lease does. */
  lemma LateFailureBreaksExclusion(c: Settings, t: WorkTable, late: WorkLease, until: int, at: int, permanent: bool)
    requires late.id in t && t[late.id].state.Leased? && t[late.id].leaseUntil == Some(until)
    ensures (exists now :: now <= until && Claimable(FailTx(t, late, "", "", c.maxAttempts, permanent, at)[late.id], now))
            <==> !IsFatal(late, c.maxAttempts, permanent) && at + Backoff(late.attempts) <= until
  {
    var row := FailTx(t, late, "", "", c.maxAttempts, permanent, at)[late.id];
    assert Claimable(row, until) <==> row.state.Pending? && row.availableAt <= until;
  }

  /** A worker that completes its job after losing the row deletes it under the worker that has it: a request for the same
      revision then makes a second job that a third worker can claim while that lease still runs, exactly when the page
      has no newer live work to turn the request away. */
  lemma LateCompleteBreaksExclusion(t: WorkTable, id: nat, newId: nat, priority: int, at: int)
    requires UniqueWork(t) && id in t && t[id].state.Leased? && newId !in t
    ensures var u := EnqueueTx(CompleteTx(t, id), newId, t[id].page, t[id].revision, priority, at);
      (exists k :: k in u && u[k].Names(t[id].page, t[id].revision) && Claimable(u[k], at))
      <==> !HasNewerLive(CompleteTx(t, id), t[id].page, t[id].revision)
  {
    var gone := CompleteTx(t, id);
    var page, revision := t[id].page, t[id].revision;
    forall k | k in gone ensures !gone[k].Names(page, revision) {
      assert t[k].Names(t[id].page, t[id].revision) ==> k == id;
    }
    var u := EnqueueTx(gone, newId, page, revision, priority, at);
    if !HasNewerLive(gone, page, revision) {
      assert newId in u && u[newId].Names(page, revision) && Claimable(u[newId], at);
    }
  }

  /** From the empty system: a job whose first worker `v` outlived its lease and whose row worker `w` holds now. */
  lemma OutlivedLease(c: Settings, s: System, page: PageKey, v: nat, w: nat) returns (actions: seq<Action>, last: System)
    requires Init(s) && s.now == 0 && v != w && c.leaseSeconds >= 0
    ensures Run(c, s, actions, last) && v in last.workers && !Alive(last, v) && Alive(last, w)
    ensures last.now == c.leaseSeconds + 1 && last.workers[w].until == 2 * c.leaseSeconds + 1
    ensures var id := s.nextWork;
      && last.workers[v].lease.id == last.workers[w].lease.id == id && last.workers[v].lease.attempts == 1
      && last.work.Keys == {id} && last.work[id].page == page && last.work[id].state.Leased?
      && last.work[id].leaseUntil == Some(last.workers[w].until)
      && last.nextWork == id + 1
  {
    var id := s.nextWork;
    var a0, a1 := Enqueue(page, 1, 0, 0), Claim(v, "", {}, id, 0);
    var a2, a3 := Tick(c.leaseSeconds + 1), Claim(w, "", {}, id, c.leaseSeconds + 1);
    var s1 := Apply(c, s, a0);
    assert s1.work == map[id := NewItem(page, 1, 0, 0)];
    var s2 := Apply(c, s1, a1);
    assert s2.work.Keys == {id} && s2.work[id].state.Leased? && s2.work[id].leaseUntil == Some(c.leaseSeconds);
    var s3 := Apply(c, s2, a2);
    last := Apply(c, s3, a3);
    actions := [a0, a1, a2, a3];
    FourSteps(c, s, s1, s2, s3, last, a0, a1, a2, a3);
  }

  lemma FourSteps(c: Settings, s: System, s1: System, s2: System, s3: System, last: System,
                  a0: Action, a1: Action, a2: Action, a3: Action)
    requires Enabled(c, s, a0) && s1 == Apply(c, s, a0) && Enabled(c, s1, a1) && s2 == Apply(c, s1, a1)
    requires Enabled(c, s2, a2) && s3 == Apply(c, s2, a2) && Enabled(c, s3, a3) && last == Apply(c, s3, a3)
    ensures Run(c, s, [a0, a1, a2, a3], last)
  {
    assert Run(c, last, [], last);
    assert [a3][1..] == [] && Run(c, s3, [a3], last);
    assert [a2, a3][1..] == [a3] && Run(c, s2, [a2, a3], last);
    assert [a1, a2, a3][1..] == [a2, a3] && Run(c, s1, [a1, a2, a3], last);
    assert [a0, a1, a2, a3][1..] == [a1, a2, a3];
  }

  /** The discipline is needed from the first job on: there is a run to a state where the late `fail` of the worker that
      lost the row makes it claimable under the lease of the one that has it, if leases last 30 seconds and retries are
      left, and where its late `complete` lets the same revision be claimed twice at once. */
  lemma DisciplineIsNeeded(c: Settings, s: System, page: PageKey, v: nat, w: nat) returns (actions: seq<Action>, last: System)
    requires Init(s) && s.now == 0 && v != w && c.leaseSeconds >= 0
    ensures Run(c, s, actions, last) && v in last.workers && Alive(last, w)
    ensures var late := last.workers[v].lease; var until := last.workers[w].until;
      && late.id == last.workers[w].lease.id && late.id in last.work
      && (c.maxAttempts >= 2 && c.leaseSeconds >= 30 ==>
            exists now :: now <= until && Claimable(FailTx(last.work, late, "", "", c.maxAttempts, false, last.now)[late.id], now))
      && (var u := EnqueueTx(CompleteTx(last.work, late.id), last.nextWork, page, last.work[late.id].revision, 0, last.now);
          exists k :: k in u && u[k].Names(page, last.work[late.id].revision) && Claimable(u[k], last.now))
      && last.now <= until
  {
    actions, last := OutlivedLease(c, s, page, v, w);
    var late := last.workers[v].lease;
    LateFailureBreaksExclusion(c, last.work, late, last.workers[w].until, last.now, false);
    assert Backoff(1) == 30 by {
      assert Pow2(0) == 1;
    }
    LateCompleteBreaksExclusion(last.work, late.id, last.nextWork, 0, last.now);
  }
}
