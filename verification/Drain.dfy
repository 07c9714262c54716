/** With every page's current revision fixed, no new requests and no crashes, the workers run out of work.

    Leased rows left behind by earlier crashes may be there at the start, and workers may run side by side. */
module Drain {
  import opened Base
  import opened WorkQueue
  import opened QueueSystem

  /** The step asks for nothing new and loses no lease: nobody enqueues or revives from outside, nobody crashes or
      outlives a lease, and `get_page` answers with `current`. Workers are numbered below `count`. */
  ghost predicate DrainStep(c: Settings, current: PageKey -> int, count: nat, s: System, a: Action) {
    && Enabled(c, s, a)
    && match a
       case Enqueue(_, _, _, _) => false
       case EnqueueConflict(_, _, _, _) => false
       case Revive(_, _, _) => false
       case Crash(_) => false
       case Tick(to) => forall w :: w in s.workers ==> to <= s.workers[w].until
       case Claim(w, _, _, _, at) => w < count && s.now <= at + c.leaseSeconds
       case SupersedeStale(w, revision, _, _) => revision == current(s.workers[w].lease.page)
       case _ => true
  }

  ghost predicate DrainRun(c: Settings, current: PageKey -> int, count: nat, s: System, actions: seq<Action>)
    decreases |actions|
  {
    actions == [] ||
    (DrainStep(c, current, count, s, actions[0])
     && DrainRun(c, current, count, Apply(c, s, actions[0]), actions[1..]))
  }

  /** Every step but the passing of time and the cleanup is taken by a worker. */
  predicate ByWorker(a: Action) {
    !a.Tick? && !a.CleanUp?
  }

  function WorkerSteps(actions: seq<Action>): nat {
    if actions == [] then 0 else (if ByWorker(actions[0]) then 1 else 0) + WorkerSteps(actions[1..])
  }

  /** Every holding belongs to a worker that is still inside its lease. */
  ghost predicate Calm(count: nat, s: System) {
    forall w :: w in s.workers ==> w < count && Alive(s, w)
  }

  /* ---- The potential ---- */

  /** The attempts a row may still use, and one more. */
  function Left(c: Settings, attempts: int): nat {
    Max(0, c.maxAttempts - attempts) + 1
  }

  /** A row of a stale revision may turn into a new row of the current one, so it weighs more. */
  function StaleWeight(c: Settings): int {
    5 * (c.maxAttempts + 1)
  }

  function Unit(c: Settings, current: PageKey -> int, row: WorkItem): int {
    if row.revision == current(row.page) then 5 else StaleWeight(c)
  }

  ghost predicate Held(s: System, id: nat) {
    exists w :: w in s.workers && s.workers[w].lease.id == id
  }

  ghost function RowWeight(c: Settings, current: PageKey -> int, s: System, id: nat): int {
    if id in s.work && s.work[id].Live() then
      (Left(c, s.work[id].attempts) + if s.work[id].state.Leased? && !Held(s, id) then 1 else 0)
        * Unit(c, current, s.work[id])
    else 0
  }

  ghost function WorkerWeight(c: Settings, s: System, w: nat): int {
    if w !in s.workers then 0
    else match s.workers[w].phase
      case Working => 4
      case Stamped(_) => 3
      case Saved(_) => 2
      case Completed(_) => 1
      case Requeueing(_) => 1 + Left(c, s.workers[w].lease.attempts) * StaleWeight(c)
  }

  ghost function Rows(c: Settings, current: PageKey -> int, s: System): int {
    SumBelow(s.nextWork, (id: nat) => RowWeight(c, current, s, id))
  }

  ghost function Workers(c: Settings, count: nat, s: System): int {
    SumBelow(count, (w: nat) => WorkerWeight(c, s, w))
  }

  ghost function Potential(c: Settings, current: PageKey -> int, count: nat, s: System): int {
    Rows(c, current, s) + Workers(c, count, s)
  }

  lemma {:induction false} ScaleUp(a: int, b: int, unit: int)
    requires a + 1 <= b && 0 <= unit
    ensures a * unit + unit <= b * unit
    decreases b - a
  {
    assert b * unit == (b - 1) * unit + unit;
    if a + 1 < b {
      ScaleUp(a, b - 1, unit);
    }
  }

  lemma PotentialIsNatural(c: Settings, current: PageKey -> int, count: nat, s: System)
    requires c.maxAttempts >= 1
    ensures 0 <= Potential(c, current, count, s)
  {
    forall id: nat ensures 0 <= RowWeight(c, current, s, id) {
      if id in s.work && s.work[id].Live() {
        var k := Left(c, s.work[id].attempts) + if s.work[id].state.Leased? && !Held(s, id) then 1 else 0;
        ScaleUp(-1, k, Unit(c, current, s.work[id]));
      }
    }
    forall w: nat ensures 0 <= WorkerWeight(c, s, w) {
      if w in s.workers && s.workers[w].phase.Requeueing? {
        ScaleUp(-1, Left(c, s.workers[w].lease.attempts), StaleWeight(c));
      }
    }
    SumBelowNonNegative(s.nextWork, (id: nat) => RowWeight(c, current, s, id));
    SumBelowNonNegative(count, (w: nat) => WorkerWeight(c, s, w));
  }

  /** No row but `id` gains weight and `id` loses `d`, so the rows lose `d` in all. */
  lemma RowsLose(c: Settings, current: PageKey -> int, s: System, s': System, id: nat, d: int)
    requires id < s.nextWork && s'.nextWork == s.nextWork
    requires forall k: nat :: k < s.nextWork && k != id ==> RowWeight(c, current, s', k) <= RowWeight(c, current, s, k)
    requires RowWeight(c, current, s', id) + d <= RowWeight(c, current, s, id)
    ensures Rows(c, current, s') + d <= Rows(c, current, s)
  {
    SumBelowDrop(s.nextWork, (k: nat) => RowWeight(c, current, s, k), (k: nat) => RowWeight(c, current, s', k), id, d);
  }

  lemma RowsDoNotGain(c: Settings, current: PageKey -> int, s: System, s': System)
    requires s'.nextWork == s.nextWork
    requires forall k: nat :: k < s.nextWork ==> RowWeight(c, current, s', k) <= RowWeight(c, current, s, k)
    ensures Rows(c, current, s') <= Rows(c, current, s)
  {
    SumBelowMonotone(s.nextWork, (k: nat) => RowWeight(c, current, s', k), (k: nat) => RowWeight(c, current, s, k));
  }

  /** Only worker `w` changes weight, by `-d`. */
  lemma WorkersLose(c: Settings, count: nat, s: System, s': System, w: nat, d: int)
    requires w < count
    requires forall v: nat :: v != w ==> WorkerWeight(c, s', v) == WorkerWeight(c, s, v)
    requires WorkerWeight(c, s', w) + d <= WorkerWeight(c, s, w)
    ensures Workers(c, count, s') + d <= Workers(c, count, s)
  {
    SumBelowDrop(count, (v: nat) => WorkerWeight(c, s, v), (v: nat) => WorkerWeight(c, s', v), w, d);
  }

  /* ---- Every worker step lowers it ---- */

  lemma CalmStep(c: Settings, current: PageKey -> int, count: nat, s: System, a: Action)
    requires c.maxAttempts >= 1 && Inv(c, s) && Calm(count, s) && DrainStep(c, current, count, s, a)
    ensures Calm(count, Apply(c, s, a))
  {
  }

  lemma IdleStep(c: Settings, current: PageKey -> int, count: nat, s: System, a: Action)
    requires c.maxAttempts >= 1 && DrainStep(c, current, count, s, a) && (a.Tick? || a.CleanUp?)
    ensures Potential(c, current, count, Apply(c, s, a)) <= Potential(c, current, count, s)
  {
    var s' := Apply(c, s, a);
    forall k: nat ensures RowWeight(c, current, s', k) <= RowWeight(c, current, s, k) {
      assert Held(s', k) <==> Held(s, k);
      if k in s'.work {
        assert s'.work[k] == s.work[k];
      }
    }
    RowsDoNotGain(c, current, s, s');
    SumBelowMonotone(count, (v: nat) => WorkerWeight(c, s', v), (v: nat) => WorkerWeight(c, s, v));
  }

  lemma ClaimStep(c: Settings, current: PageKey -> int, count: nat, s: System, a: Action)
    requires c.maxAttempts >= 1 && Inv(c, s) && Calm(count, s) && DrainStep(c, current, count, s, a) && a.Claim?
    ensures Potential(c, current, count, Apply(c, s, a)) + 1 <= Potential(c, current, count, s)
  {
    var s' := Apply(c, s, a);
    var row := s.work[a.id];
    if Held(s, a.id) {
      var w :| w in s.workers && s.workers[w].lease.id == a.id;
      LiveLeaseIsNotClaimable(c, s, w, a.at);
      assert false;
    }
    assert s'.workers[a.worker].lease.id == a.id;
    assert Held(s', a.id);
    var k := Left(c, row.attempts) + if row.state.Leased? then 1 else 0;
    ScaleUp(Left(c, row.attempts + 1), k, Unit(c, current, row));
    OtherRowsKeepWeight(c, current, s, s', a.worker, a.id);
    RowsLose(c, current, s, s', a.id, 5);
    WorkersLose(c, count, s, s', a.worker, -4);
  }

  /** Worker `w` has or had a lease on `id` only; every other row is as before and weighs the same. */
  lemma OtherRowsKeepWeight(c: Settings, current: PageKey -> int, s: System, s': System, w: nat, id: nat)
    requires forall v :: v != w ==> (v in s.workers <==> v in s'.workers)
    requires forall v :: v in s.workers && v != w ==> s.workers[v] == s'.workers[v]
    requires w in s.workers ==> s.workers[w].lease.id == id
    requires w in s'.workers ==> s'.workers[w].lease.id == id
    requires forall k :: k != id ==> (k in s.work <==> k in s'.work)
    requires forall k :: k in s.work && k != id ==> s.work[k] == s'.work[k]
    ensures forall k: nat :: k != id ==> RowWeight(c, current, s', k) == RowWeight(c, current, s, k)
    ensures forall v: nat :: v != w ==> WorkerWeight(c, s', v) == WorkerWeight(c, s, v)
  {
    forall k: nat | k != id ensures RowWeight(c, current, s', k) == RowWeight(c, current, s, k) {
      if Held(s, k) {
        var v :| v in s.workers && s.workers[v].lease.id == k;
        assert v in s'.workers && s'.workers[v].lease.id == k;
      }
      if Held(s', k) {
        var v :| v in s'.workers && s'.workers[v].lease.id == k;
        assert v in s.workers && s.workers[v].lease.id == k;
      }
    }
  }

  /** Steps inside a job that leave its row alone. */
  lemma InnerStep(c: Settings, current: PageKey -> int, count: nat, s: System, a: Action)
    requires c.maxAttempts >= 1 && Inv(c, s) && Calm(count, s) && DrainStep(c, current, count, s, a)
    requires a.Stamp? || a.Save? || a.Finish? || a.RequeueSkip?
    ensures Potential(c, current, count, Apply(c, s, a)) + 1 <= Potential(c, current, count, s)
  {
    var s' := Apply(c, s, a);
    var h := s.workers[a.worker];
    assert Holds(s, h);
    if a.RequeueSkip? {
      ScaleUp(-1, Left(c, h.lease.attempts), StaleWeight(c));
    }
    OtherRowsKeepWeight(c, current, s, s', a.worker, h.lease.id);
    assert a.worker in s'.workers ==> s'.workers[a.worker].lease.id == h.lease.id;
    assert Held(s, h.lease.id);
    assert a.Stamp? || a.Save? ==> Held(s', h.lease.id);
    RowsLose(c, current, s, s', h.lease.id, 0);
    WorkersLose(c, count, s, s', a.worker, 1);
  }

  /** The row of worker `w`'s job stops being live: its whole weight goes. */
  lemma SettledRowLoses(c: Settings, current: PageKey -> int, s: System, s': System, w: nat)
    requires w in s.workers && StillLeased(s, s.workers[w]) && s.workers[w].lease.id < s.nextWork == s'.nextWork
    requires RowWeight(c, current, s', s.workers[w].lease.id) == 0
    requires forall k: nat :: k != s.workers[w].lease.id ==> RowWeight(c, current, s', k) == RowWeight(c, current, s, k)
    ensures var h := s.workers[w];
      Rows(c, current, s') + Left(c, h.lease.attempts) * Unit(c, current, s.work[h.lease.id]) <= Rows(c, current, s)
  {
    var h := s.workers[w];
    assert Held(s, h.lease.id);
    RowsLose(c, current, s, s', h.lease.id, Left(c, h.lease.attempts) * Unit(c, current, s.work[h.lease.id]));
  }

  /** Steps that settle the job's row take at least a row's weight of five off the rows. */
  lemma SettlingLoses(c: Settings, current: PageKey -> int, count: nat, s: System, a: Action)
    requires c.maxAttempts >= 1 && Inv(c, s) && Calm(count, s) && DrainStep(c, current, count, s, a)
    requires a.Refuse? || a.SupersedeStale? || a.Complete?
    ensures var s' := Apply(c, s, a); var h := s.workers[a.worker];
      && StillLeased(s, h) && 0 <= Left(c, h.lease.attempts) * Unit(c, current, s.work[h.lease.id])
      && Rows(c, current, s') + Left(c, h.lease.attempts) * Unit(c, current, s.work[h.lease.id]) <= Rows(c, current, s)
      && forall v: nat :: v != a.worker ==> WorkerWeight(c, s', v) == WorkerWeight(c, s, v)
  {
    var s' := Apply(c, s, a);
    var h := s.workers[a.worker];
    assert Holds(s, h) && StillLeased(s, h);
    OtherRowsKeepWeight(c, current, s, s', a.worker, h.lease.id);
    SettledRowLoses(c, current, s, s', a.worker);
    ScaleUp(-1, Left(c, h.lease.attempts), Unit(c, current, s.work[h.lease.id]));
  }

  lemma SettleStep(c: Settings, current: PageKey -> int, count: nat, s: System, a: Action)
    requires c.maxAttempts >= 1 && Inv(c, s) && Calm(count, s) && DrainStep(c, current, count, s, a)
    requires a.Refuse? || a.Complete?
    ensures Potential(c, current, count, Apply(c, s, a)) + 1 <= Potential(c, current, count, s)
  {
    SettlingLoses(c, current, count, s, a);
    WorkersLose(c, count, s, Apply(c, s, a), a.worker, 1);
  }

  /** A stale job's row gives its whole weight to the worker that will requeue the page. */
  lemma SupersedeStep(c: Settings, current: PageKey -> int, count: nat, s: System, a: Action)
    requires c.maxAttempts >= 1 && Inv(c, s) && Calm(count, s) && DrainStep(c, current, count, s, a) && a.SupersedeStale?
    ensures Potential(c, current, count, Apply(c, s, a)) + 1 <= Potential(c, current, count, s)
  {
    SettlingLoses(c, current, count, s, a);
    var h := s.workers[a.worker];
    assert Unit(c, current, s.work[h.lease.id]) == StaleWeight(c);
    WorkersLose(c, count, s, Apply(c, s, a), a.worker, 3 - Left(c, h.lease.attempts) * StaleWeight(c));
  }

  /** A failed job's row goes back to pending at the weight it had while held, or stops counting. */
  lemma FailedRowWeight(c: Settings, current: PageKey -> int, s: System, s': System, lease: WorkLease, code: string,
                        message: string, permanent: bool, at: int)
    requires c.maxAttempts >= 1 && lease.id in s.work && SameJob(s.work[lease.id], lease)
    requires s'.work == FailTx(s.work, lease, code, message, c.maxAttempts, permanent, at)
    ensures 0 <= RowWeight(c, current, s', lease.id) <= Left(c, lease.attempts) * Unit(c, current, s.work[lease.id])
    ensures RowWeight(c, current, s', lease.id) <= Left(c, lease.attempts) * StaleWeight(c)
  {
    var unit := Unit(c, current, s.work[lease.id]);
    ScaleUp(-1, Left(c, lease.attempts), unit);
    ScaleUp(-1, Left(c, lease.attempts), StaleWeight(c) - unit);
    assert Left(c, lease.attempts) * (StaleWeight(c) - unit)
      == Left(c, lease.attempts) * StaleWeight(c) - Left(c, lease.attempts) * unit;
  }

  lemma FailStep(c: Settings, current: PageKey -> int, count: nat, s: System, a: Action)
    requires c.maxAttempts >= 1 && Inv(c, s) && Calm(count, s) && DrainStep(c, current, count, s, a) && a.FailJob?
    ensures Potential(c, current, count, Apply(c, s, a)) + 1 <= Potential(c, current, count, s)
  {
    var s' := Apply(c, s, a);
    var h := s.workers[a.worker];
    var id := h.lease.id;
    assert Holds(s, h) && Held(s, id);
    OtherRowsKeepWeight(c, current, s, s', a.worker, id);
    if id in s.work {
      FailedRowWeight(c, current, s, s', h.lease, a.code, a.message, a.permanent, a.at);
    }
    if h.phase.Requeueing? {
      var weight := Left(c, h.lease.attempts) * StaleWeight(c);
      ScaleUp(-1, Left(c, h.lease.attempts), StaleWeight(c));
      RowsLose(c, current, s, s', id, -weight);
      WorkersLose(c, count, s, s', a.worker, 1 + weight);
    } else {
      RowsLose(c, current, s, s', id, 0);
      WorkersLose(c, count, s, s', a.worker, 1);
    }
  }

  /** A row that keeps its key and attempts and is superseded at most weighs no more. */
  lemma SameRowNoHeavier(c: Settings, current: PageKey -> int, s: System, s': System, k: nat)
    requires c.maxAttempts >= 1 && k in s.work && k in s'.work
    requires s'.work[k].page == s.work[k].page && s'.work[k].revision == s.work[k].revision
    requires s'.work[k].attempts == s.work[k].attempts
    requires s'.work[k].state == s.work[k].state || s'.work[k].state.Superseded?
    requires Held(s, k) && s.work[k].state.Leased? ==> Held(s', k)
    ensures RowWeight(c, current, s', k) <= RowWeight(c, current, s, k)
  {
    if s.work[k].Live() {
      var n := Left(c, s.work[k].attempts) + if s.work[k].state.Leased? && !Held(s, k) then 1 else 0;
      var m := Left(c, s.work[k].attempts) + if s.work[k].state.Leased? && !Held(s', k) then 1 else 0;
      var unit := Unit(c, current, s.work[k]);
      ScaleUp(-1, n, unit);
      assert m <= n;
      if m < n {
        ScaleUp(m, n, unit);
      }
    }
  }

  /** An enqueue adds at most one row's full weight to the rows. */
  lemma EnqueueRowsGain(c: Settings, current: PageKey -> int, s: System, s': System, page: PageKey, priority: int, at: int)
    requires c.maxAttempts >= 1 && WorkOk(c, s)
    requires s'.work == EnqueueTx(s.work, s.nextWork, page, current(page), priority, at)
    requires s'.nextWork == s.nextWork + 1
    requires forall k :: Held(s, k) && k in s.work && s.work[k].state.Leased? ==> Held(s', k)
    ensures Rows(c, current, s') <= Rows(c, current, s) + StaleWeight(c)
  {
    var f := (k: nat) => RowWeight(c, current, s, k);
    var g := (k: nat) => RowWeight(c, current, s', k);
    forall k: nat | k < s.nextWork ensures g(k) <= f(k) {
      EnqueueRows(s.work, s.nextWork, page, current(page), priority, at);
      if k in s.work {
        SameRowNoHeavier(c, current, s, s', k);
      }
    }
    SumBelowMonotone(s.nextWork, g, f);
    NewRowWeight(c, current, s, s', page, priority, at);
  }

  lemma NewRowWeight(c: Settings, current: PageKey -> int, s: System, s': System, page: PageKey, priority: int, at: int)
    requires c.maxAttempts >= 1 && WorkOk(c, s)
    requires s'.work == EnqueueTx(s.work, s.nextWork, page, current(page), priority, at)
    ensures RowWeight(c, current, s', s.nextWork) <= StaleWeight(c)
  {
    EnqueueRows(s.work, s.nextWork, page, current(page), priority, at);
    if s.nextWork in s'.work {
      assert s'.work[s.nextWork] == NewItem(page, current(page), priority, at);
    }
  }

  lemma RequeueStep(c: Settings, current: PageKey -> int, count: nat, s: System, a: Action)
    requires c.maxAttempts >= 1 && Inv(c, s) && Calm(count, s) && DrainStep(c, current, count, s, a)
    requires a.Requeue? && s.workers[a.worker].phase.current == current(s.workers[a.worker].lease.page)
    ensures Potential(c, current, count, Apply(c, s, a)) + 1 <= Potential(c, current, count, s)
  {
    var s' := Apply(c, s, a);
    var h := s.workers[a.worker];
    assert Holds(s, h);
    forall k | Held(s, k) && k in s.work && s.work[k].state.Leased? ensures Held(s', k) {
      var w :| w in s.workers && s.workers[w].lease.id == k;
      assert w in s'.workers && s'.workers[w].lease.id == k;
    }
    EnqueueRowsGain(c, current, s, s', h.lease.page, h.lease.priority, a.at);
    ScaleUp(0, Left(c, h.lease.attempts), StaleWeight(c));
    WorkersLose(c, count, s, s', a.worker, 1 + StaleWeight(c));
  }

  lemma ConflictStep(c: Settings, current: PageKey -> int, count: nat, s: System, a: Action)
    requires c.maxAttempts >= 1 && Inv(c, s) && Calm(count, s) && DrainStep(c, current, count, s, a)
    requires a.RequeueConflict?
    ensures Potential(c, current, count, Apply(c, s, a)) + 1 <= Potential(c, current, count, s)
  {
    var s' := Apply(c, s, a);
    var h := s.workers[a.worker];
    assert Holds(s, h);
    forall k: nat ensures RowWeight(c, current, s', k) <= RowWeight(c, current, s, k) {
      if Held(s, k) && k in s.work && s.work[k].state.Leased? {
        var w :| w in s.workers && s.workers[w].lease.id == k;
        assert w in s'.workers && s'.workers[w].lease.id == k;
      }
      if k in s.work {
        SameRowNoHeavier(c, current, s, s', k);
      }
    }
    ConflictRows(c, current, s, s');
    ScaleUp(0, Left(c, h.lease.attempts), StaleWeight(c));
    WorkersLose(c, count, s, s', a.worker, 1);
  }

  /** The identifier a failed insert uses up names no row. */
  lemma ConflictRows(c: Settings, current: PageKey -> int, s: System, s': System)
    requires s'.nextWork == s.nextWork + 1 && s.nextWork !in s'.work
    requires forall k: nat :: RowWeight(c, current, s', k) <= RowWeight(c, current, s, k)
    ensures Rows(c, current, s') <= Rows(c, current, s)
  {
    var f := (k: nat) => RowWeight(c, current, s, k);
    var g := (k: nat) => RowWeight(c, current, s', k);
    SumBelowMonotone(s.nextWork, g, f);
    assert g(s.nextWork) == 0;
  }

  /* ---- Termination ---- */

  /** A worker about to requeue does so for the page's current revision. */
  ghost predicate RequeuesCurrent(current: PageKey -> int, s: System) {
    forall w :: w in s.workers && s.workers[w].phase.Requeueing? ==>
      s.workers[w].phase.current == current(s.workers[w].lease.page)
  }

  lemma StepLowersPotential(c: Settings, current: PageKey -> int, count: nat, s: System, a: Action)
    requires c.maxAttempts >= 1 && Inv(c, s) && Calm(count, s) && RequeuesCurrent(current, s)
    requires DrainStep(c, current, count, s, a)
    ensures Potential(c, current, count, Apply(c, s, a)) + (if ByWorker(a) then 1 else 0) <= Potential(c, current, count, s)
    ensures RequeuesCurrent(current, Apply(c, s, a))
  {
    match a
    case Tick(_) => IdleStep(c, current, count, s, a);
    case CleanUp(_, _, _) => IdleStep(c, current, count, s, a);
    case Claim(_, _, _, _, _) => ClaimStep(c, current, count, s, a);
    case Requeue(_, _) => RequeueStep(c, current, count, s, a);
    case RequeueConflict(_, _) => ConflictStep(c, current, count, s, a);
    case FailJob(_, _, _, _, _) => FailStep(c, current, count, s, a);
    case Refuse(_, _, _) => SettleStep(c, current, count, s, a);
    case SupersedeStale(_, _, _, _) => SupersedeStep(c, current, count, s, a);
    case Complete(_) => SettleStep(c, current, count, s, a);
    case _ => InnerStep(c, current, count, s, a);
  }

  /** Draining terminates: however the workers interleave, the steps they take never outnumber the potential
      of the state they started from. */
  lemma {:induction false} DrainTerminates(c: Settings, current: PageKey -> int, count: nat, s: System, actions: seq<Action>)
    requires c.maxAttempts >= 1 && Inv(c, s) && Calm(count, s) && RequeuesCurrent(current, s)
    requires DrainRun(c, current, count, s, actions)
    ensures WorkerSteps(actions) <= Potential(c, current, count, s)
    decreases |actions|
  {
    if actions == [] {
      PotentialIsNatural(c, current, count, s);
    } else {
      StepLowersPotential(c, current, count, s, actions[0]);
      StepKeepsInv(c, s, actions[0]);
      CalmStep(c, current, count, s, actions[0]);
      DrainTerminates(c, current, count, Apply(c, s, actions[0]), actions[1..]);
    }
  }

  /** And it stops only when the queue is empty of live work: while one live row is left and every worker is idle,
      there is a later moment at which a claim goes through. */
  lemma DrainEndsEmpty(c: Settings, s: System, id: nat, w: nat, name: string) returns (to: int, a: Action)
    requires Inv(c, s) && s.workers == map[] && id in s.work && s.work[id].Live()
    ensures s.now <= to && a.Claim? && a.worker == w && Enabled(c, s.(now := to), a)
  {
    var row := s.work[id];
    var ready := if row.state.Pending? then row.availableAt else row.leaseUntil.value + 1;
    to := Max(s.now, ready);
    var rows := set k | k in s.work && Claimable(s.work[k], to);
    var best := ClaimFindsWork(s.work, {}, to, rows, id);
    a := Claim(w, name, {}, best, to);
    assert forall k :: k in s.work && Claimable(s.work[k], to) ==> k in rows;
  }
}
