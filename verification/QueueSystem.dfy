/** The queue, the results and any number of workers as one state machine.

    A step is one committed transaction or one private move of a worker. The clock never goes backwards, and a
    transaction's own clock reading `at` may be older than the clock when it commits. A worker acts on its lease
    only while the lease has not expired; a worker past its expiry never touches the row again, as if it had
    crashed. Everything else may interleave freely: requests, conflicts, revivals and cleanups with any cutoff. */
module QueueSystem {
  import opened Base
  import opened WorkQueue
  import opened Results

  datatype Settings = Settings(maxAttempts: int, leaseSeconds: int)

  /** Where a worker is inside `run_once`. A raised exception can still call `fail` from every phase. */
  datatype Phase =
    | Working
    | Stamped(at: int)          // `computed_at` has been read, the result is not saved yet
    | Saved(at: int)
    | Completed(at: int)
    | Requeueing(current: int)  // superseded for a newer revision, which is not enqueued yet

  datatype Holding = Holding(lease: WorkLease, until: int, phase: Phase)

  datatype System = System(
    now: int,
    work: WorkTable,
    nextWork: nat,
    results: ResultTable,
    nextResult: nat,
    workers: map<nat, Holding>,
    reclaims: map<nat, nat>)    // history: how often a row was claimed again after a lease expired

  datatype Action =
    | Tick(to: int)
    | Enqueue(page: PageKey, revision: int, priority: int, at: int)
    | EnqueueConflict(page: PageKey, revision: int, priority: int, at: int)
    | Revive(id: nat, priority: int, at: int)
    | CleanUp(workCutoff: int, resultCutoff: int, doomed: set<nat>)
    | Claim(worker: nat, name: string, locked: set<nat>, id: nat, at: int)
    | Crash(worker: nat)
    | Refuse(worker: nat, reason: string, at: int)
    | SupersedeStale(worker: nat, current: int, reason: string, at: int)
    | Requeue(worker: nat, at: int)
    | RequeueConflict(worker: nat, at: int)
    | RequeueSkip(worker: nat)
    | Stamp(worker: nat)
    | Save(worker: nat, answer: Answer)
    | Complete(worker: nat)
    | Finish(worker: nat)
    | FailJob(worker: nat, code: string, message: string, permanent: bool, at: int)

  /** A step a worker takes on the lease it holds. */
  predicate OnLease(a: Action) {
    !(a.Tick? || a.Enqueue? || a.EnqueueConflict? || a.Revive? || a.CleanUp? || a.Claim? || a.Crash?)
  }

  predicate Alive(s: System, w: nat) {
    w in s.workers && s.now <= s.workers[w].until
  }

  ghost predicate Enabled(c: Settings, s: System, a: Action) {
    && (OnLease(a) ==> Alive(s, a.worker))
    && match a
       case Tick(to) => s.now <= to
       case Enqueue(_, _, _, at) => at <= s.now
       case EnqueueConflict(_, _, _, at) => at <= s.now
       case Revive(_, _, at) => at <= s.now
       case CleanUp(_, cutoff, doomed) => IsDoomed(s.results, cutoff, doomed)
       case Claim(w, _, locked, id, at) => at <= s.now && w !in s.workers && FirstClaim(s.work, locked, at, id)
       case Crash(w) => w in s.workers
       case Refuse(w, _, at) => at <= s.now && s.workers[w].phase.Working?
       case SupersedeStale(w, current, _, at) =>
         at <= s.now && s.workers[w].phase.Working? && current != s.workers[w].lease.revision
       case Requeue(w, at) => at <= s.now && s.workers[w].phase.Requeueing?
       case RequeueConflict(w, at) => at <= s.now && s.workers[w].phase.Requeueing?
       case RequeueSkip(w) =>
         s.workers[w].phase.Requeueing? && HasResult(s.results, s.workers[w].lease.page, s.workers[w].phase.current)
       case Stamp(w) => s.workers[w].phase.Working?
       case Save(w, _) => s.workers[w].phase.Stamped?
       case Complete(w) => s.workers[w].phase.Saved?
       case Finish(w) => s.workers[w].phase.Completed?
       case FailJob(_, _, _, _, at) => at <= s.now
  }

  function InPhase(s: System, w: nat, phase: Phase): map<nat, Holding>
    requires w in s.workers
  {
    s.workers[w := s.workers[w].(phase := phase)]
  }

  function Reclaims(s: System, id: nat): nat {
    if id in s.reclaims then s.reclaims[id] else 0
  }

  ghost function Apply(c: Settings, s: System, a: Action): System
    requires Enabled(c, s, a)
  {
    match a
    case Tick(to) => s.(now := to)
    case Enqueue(page, revision, priority, at) =>
      s.(work := EnqueueTx(s.work, s.nextWork, page, revision, priority, at), nextWork := s.nextWork + 1)
    case EnqueueConflict(page, revision, priority, at) =>
      s.(work := EnqueueRace(s.work, page, revision, priority, at), nextWork := s.nextWork + 1)
    case Revive(id, priority, at) => s.(work := ReviveTx(s.work, id, priority, at))
    case CleanUp(workCutoff, _, doomed) =>
      s.(work := CleanWork(s.work, workCutoff), results := s.results - doomed)
    case Claim(w, name, _, id, at) =>
      var work := ClaimTx(s.work, id, name, c.leaseSeconds, at);
      s.(work := work,
         workers := s.workers[w := Holding(LeaseOf(work, id), at + c.leaseSeconds, Working)],
         reclaims := s.reclaims[id := if s.work[id].state.Leased? then Reclaims(s, id) + 1 else 0])
    case Crash(w) => s.(workers := s.workers - {w})
    case Refuse(w, reason, at) =>
      s.(work := SupersedeTx(s.work, s.workers[w].lease.id, reason, at), workers := s.workers - {w})
    case SupersedeStale(w, current, reason, at) =>
      s.(work := SupersedeTx(s.work, s.workers[w].lease.id, reason, at),
         workers := InPhase(s, w, Requeueing(current)))
    case Requeue(w, at) =>
      var h := s.workers[w];
      s.(work := EnqueueTx(s.work, s.nextWork, h.lease.page, h.phase.current, h.lease.priority, at),
         nextWork := s.nextWork + 1,
         workers := s.workers - {w})
    case RequeueConflict(w, at) =>
      var h := s.workers[w];
      s.(work := EnqueueRace(s.work, h.lease.page, h.phase.current, h.lease.priority, at),
         nextWork := s.nextWork + 1,
         workers := s.workers - {w})
    case RequeueSkip(w) => s.(workers := s.workers - {w})
    case Stamp(w) => s.(workers := InPhase(s, w, Stamped(s.now)))
    case Save(w, answer) =>
      var h := s.workers[w];
      s.(results := SaveTx(s.results, s.nextResult, ResultRow(h.lease.page, h.lease.revision, h.phase.at, answer)),
         nextResult := s.nextResult + 1,
         workers := InPhase(s, w, Saved(h.phase.at)))
    case Complete(w) =>
      s.(work := CompleteTx(s.work, s.workers[w].lease.id), workers := InPhase(s, w, Completed(s.workers[w].phase.at)))
    case Finish(w) => s.(workers := s.workers - {w})
    case FailJob(w, code, message, permanent, at) =>
      s.(work := FailTx(s.work, s.workers[w].lease, code, message, c.maxAttempts, permanent, at),
         workers := s.workers - {w})
  }

  ghost predicate Init(s: System) {
    s.work == map[] && s.results == map[] && s.workers == map[] && s.reclaims == map[]
  }

  /** `actions`, taken one after the other from `s`, are all enabled and lead to `last`. */
  ghost predicate Run(c: Settings, s: System, actions: seq<Action>, last: System)
    decreases |actions|
  {
    if actions == [] then s == last
    else Enabled(c, s, actions[0]) && Run(c, Apply(c, s, actions[0]), actions[1..], last)
  }

  /* ---- The invariant ---- */

  ghost predicate RowOk(c: Settings, row: WorkItem, reclaims: nat) {
    && 0 <= row.attempts
    && (row.state.Leased? <==> row.leaseUntil.Some?)
    && (row.state.Pending? ==> row.attempts < c.maxAttempts)
    && (row.state.Leased? ==> row.attempts <= c.maxAttempts + reclaims)
  }

  ghost predicate WorkOk(c: Settings, s: System) {
    && UniqueWork(s.work)
    && forall id :: id in s.work ==> id < s.nextWork && RowOk(c, s.work[id], Reclaims(s, id))
  }

  ghost predicate ResultsOk(s: System) {
    && UniqueResults(s.results)
    && forall id :: id in s.results ==> id < s.nextResult && s.results[id].computedAt <= s.now
  }

  predicate SameJob(row: WorkItem, lease: WorkLease) {
    row.page == lease.page && row.revision == lease.revision && row.attempts == lease.attempts
  }

  predicate StillLeased(s: System, h: Holding) {
    && h.lease.id in s.work
    && s.work[h.lease.id].state.Leased?
    && s.work[h.lease.id].leaseUntil == Some(h.until)
    && SameJob(s.work[h.lease.id], h.lease)
  }

  /** What the tables say about a lease that has not expired. */
  ghost predicate Holds(s: System, h: Holding) {
    && h.lease.id < s.nextWork
    && match h.phase
       case Working => StillLeased(s, h)
       case Stamped(at) =>
         && StillLeased(s, h) && at <= s.now
         && forall r :: r in s.results && s.results[r].Names(h.lease.page, h.lease.revision) ==>
              s.results[r].computedAt <= at
       case Saved(at) => StillLeased(s, h) && Delivered(s.results, h.lease.page, h.lease.revision, at)
       case Completed(at) => h.lease.id !in s.work && Delivered(s.results, h.lease.page, h.lease.revision, at)
       case Requeueing(_) =>
         h.lease.id in s.work ==> s.work[h.lease.id].state.Superseded? && SameJob(s.work[h.lease.id], h.lease)
  }

  ghost predicate WorkersOk(s: System) {
    forall w :: Alive(s, w) ==> Holds(s, s.workers[w])
  }

  /** No two live leases name the same row. */
  ghost predicate Exclusive(s: System) {
    forall v, w :: Alive(s, v) && Alive(s, w) && v != w ==> s.workers[v].lease.id != s.workers[w].lease.id
  }

  ghost predicate Inv(c: Settings, s: System) {
    WorkOk(c, s) && ResultsOk(s) && WorkersOk(s) && Exclusive(s)
  }

  /* ---- What a step may do to a lease that is not its own ---- */

  predicate SameRow(a: WorkItem, b: WorkItem) {
    a.page == b.page && a.revision == b.revision && a.attempts == b.attempts && a.state == b.state
    && a.leaseUntil == b.leaseUntil
  }

  ghost predicate KeepsRow(s: System, s': System, id: nat) {
    && (id in s'.work ==> id in s.work)
    && (id in s.work && s.work[id].state.Leased? ==> id in s'.work && SameRow(s.work[id], s'.work[id]))
    && (id in s'.work && s.work[id].state.Superseded? ==> SameRow(s.work[id], s'.work[id]))
  }

  ghost predicate KeepsDelivered(s: System, s': System) {
    forall page, revision, at ::
      Delivered(s.results, page, revision, at) ==> Delivered(s'.results, page, revision, at)
  }

  ghost predicate AddsNoResult(s: System, s': System, page: PageKey, revision: int) {
    forall r :: r in s'.results && s'.results[r].Names(page, revision) ==> r in s.results && s.results[r] == s'.results[r]
  }

  lemma HoldsFrame(s: System, s': System, h: Holding)
    requires Holds(s, h) && s.now <= s'.now && s.nextWork <= s'.nextWork
    requires KeepsRow(s, s', h.lease.id) && KeepsDelivered(s, s')
    requires AddsNoResult(s, s', h.lease.page, h.lease.revision)
    ensures Holds(s', h)
  {
  }

  /** The workers part of the invariant, for a step after which only `actor`'s holding may be new: every other
      holding is as before, and the tables change only where those holdings do not look. */
  lemma OthersKeepHolding(c: Settings, s: System, s': System, actor: Option<nat>)
    requires Inv(c, s) && s.now <= s'.now && s.nextWork <= s'.nextWork && KeepsDelivered(s, s')
    requires forall v :: v in s'.workers && actor != Some(v) ==> v in s.workers && s'.workers[v] == s.workers[v]
    requires forall v :: Alive(s, v) && v in s'.workers && actor != Some(v) ==>
      && KeepsRow(s, s', s.workers[v].lease.id)
      && AddsNoResult(s, s', s.workers[v].lease.page, s.workers[v].lease.revision)
    requires actor.Some? && Alive(s', actor.value) ==>
      && Holds(s', s'.workers[actor.value])
      && forall v :: Alive(s, v) && v != actor.value ==> s.workers[v].lease.id != s'.workers[actor.value].lease.id
    ensures WorkersOk(s') && Exclusive(s')
  {
    forall v | Alive(s', v) ensures Holds(s', s'.workers[v]) {
      if actor != Some(v) {
        assert Alive(s, v);
        HoldsFrame(s, s', s.workers[v]);
      }
    }
    forall v, w | Alive(s', v) && Alive(s', w) && v != w
      ensures s'.workers[v].lease.id != s'.workers[w].lease.id
    {
      assert actor != Some(v) ==> Alive(s, v);
      assert actor != Some(w) ==> Alive(s, w);
    }
  }

  /* ---- Each transaction keeps the tables well formed ---- */

  lemma EnqueueKeepsWork(c: Settings, s: System, s': System, page: PageKey, revision: int, priority: int, at: int)
    requires c.maxAttempts >= 1 && WorkOk(c, s)
    requires s'.work == EnqueueTx(s.work, s.nextWork, page, revision, priority, at)
    requires s'.nextWork == s.nextWork + 1 && s'.reclaims == s.reclaims
    ensures WorkOk(c, s')
    ensures forall id: nat :: id < s.nextWork ==> KeepsRow(s, s', id)
  {
    EnqueueRows(s.work, s.nextWork, page, revision, priority, at);
    EnqueueKeepsUnique(s.work, s.nextWork, page, revision, priority, at);
    forall id | id in s'.work ensures RowOk(c, s'.work[id], Reclaims(s', id)) {
      assert id in s.work ==> RowOk(c, s.work[id], Reclaims(s, id));
    }
  }

  lemma ConflictKeepsWork(c: Settings, s: System, s': System, page: PageKey, revision: int, priority: int, at: int)
    requires WorkOk(c, s)
    requires s'.work == EnqueueRace(s.work, page, revision, priority, at)
    requires s'.nextWork == s.nextWork + 1 && s'.reclaims == s.reclaims
    ensures WorkOk(c, s')
    ensures forall id: nat :: KeepsRow(s, s', id)
  {
    forall i, j | i in s'.work && j in s'.work && s'.work[i].Names(s'.work[j].page, s'.work[j].revision)
      ensures i == j
    {
      assert s.work[i].Names(s.work[j].page, s.work[j].revision);
    }
  }

  /** One row changed, in neither page nor revision. */
  lemma UpdateKeepsWork(c: Settings, s: System, s': System, id: nat)
    requires WorkOk(c, s) && id in s.work && s'.nextWork == s.nextWork
    requires id in s'.work && s'.work == s.work[id := s'.work[id]]
    requires s'.work[id].page == s.work[id].page && s'.work[id].revision == s.work[id].revision
    requires forall k: nat :: k != id ==> Reclaims(s', k) == Reclaims(s, k)
    requires RowOk(c, s'.work[id], Reclaims(s', id))
    ensures WorkOk(c, s')
    ensures forall k: nat :: k != id ==> KeepsRow(s, s', k)
  {
    forall i, j | i in s'.work && j in s'.work && s'.work[i].Names(s'.work[j].page, s'.work[j].revision)
      ensures i == j
    {
      assert s.work[i].Names(s.work[j].page, s.work[j].revision);
    }
  }

  /* ---- Every step keeps the invariant ---- */

  lemma RequestKeepsInv(c: Settings, s: System, a: Action)
    requires c.maxAttempts >= 1 && Inv(c, s) && Enabled(c, s, a)
    requires a.Tick? || a.Enqueue? || a.EnqueueConflict? || a.Crash? || a.RequeueSkip? || a.Finish?
    ensures Inv(c, Apply(c, s, a)) && KeepsDelivered(s, Apply(c, s, a))
  {
    var s' := Apply(c, s, a);
    if a.Enqueue? {
      EnqueueKeepsWork(c, s, s', a.page, a.revision, a.priority, a.at);
    } else if a.EnqueueConflict? {
      ConflictKeepsWork(c, s, s', a.page, a.revision, a.priority, a.at);
    }
    assert forall v :: Alive(s, v) ==> s.workers[v].lease.id < s.nextWork;
    OthersKeepHolding(c, s, s', None);
  }

  lemma RevivalKeepsInv(c: Settings, s: System, a: Action)
    requires c.maxAttempts >= 1 && Inv(c, s) && Enabled(c, s, a) && a.Revive?
    ensures Inv(c, Apply(c, s, a)) && KeepsDelivered(s, Apply(c, s, a))
  {
    var s' := Apply(c, s, a);
    if a.id in s.work && s.work[a.id].state.Dead? {
      UpdateKeepsWork(c, s, s', a.id);
    }
    OthersKeepHolding(c, s, s', None);
  }

  lemma CleanupKeepsInv(c: Settings, s: System, a: Action)
    requires Inv(c, s) && Enabled(c, s, a) && a.CleanUp?
    ensures Inv(c, Apply(c, s, a)) && KeepsDelivered(s, Apply(c, s, a))
  {
    var s' := Apply(c, s, a);
    forall page, revision, at | Delivered(s.results, page, revision, at)
      ensures Delivered(s'.results, page, revision, at)
    {
      CleanupKeepsDelivered(s.results, a.resultCutoff, a.doomed, page, revision, at);
    }
    forall i, j | i in s'.work && j in s'.work && s'.work[i].Names(s'.work[j].page, s'.work[j].revision)
      ensures i == j
    {
      assert s.work[i].Names(s.work[j].page, s.work[j].revision);
    }
    OthersKeepHolding(c, s, s', None);
  }

  /** A row a live lease names is never claimable: the heart of exclusion. */
  lemma LiveLeaseIsNotClaimable(c: Settings, s: System, w: nat, at: int)
    requires Inv(c, s) && Alive(s, w) && at <= s.now
    ensures var id := s.workers[w].lease.id;
      id in s.work ==> !Claimable(s.work[id], at)
  {
    assert Holds(s, s.workers[w]);
  }

  lemma ClaimKeepsInv(c: Settings, s: System, a: Action)
    requires Inv(c, s) && Enabled(c, s, a) && a.Claim?
    ensures Inv(c, Apply(c, s, a)) && KeepsDelivered(s, Apply(c, s, a))
  {
    var s' := Apply(c, s, a);
    UpdateKeepsWork(c, s, s', a.id);
    forall v | Alive(s, v) ensures s.workers[v].lease.id != a.id {
      LiveLeaseIsNotClaimable(c, s, v, a.at);
    }
    OthersKeepHolding(c, s, s', Some(a.worker));
  }

  lemma CompleteKeepsInv(c: Settings, s: System, a: Action)
    requires Inv(c, s) && Enabled(c, s, a) && a.Complete?
    ensures Inv(c, Apply(c, s, a)) && KeepsDelivered(s, Apply(c, s, a))
  {
    var s' := Apply(c, s, a);
    assert Holds(s, s.workers[a.worker]);
    forall i, j | i in s'.work && j in s'.work && s'.work[i].Names(s'.work[j].page, s'.work[j].revision)
      ensures i == j
    {
      assert s.work[i].Names(s.work[j].page, s.work[j].revision);
    }
    OthersKeepHolding(c, s, s', Some(a.worker));
  }

  lemma SupersedeKeepsInv(c: Settings, s: System, a: Action)
    requires Inv(c, s) && Enabled(c, s, a) && (a.Refuse? || a.SupersedeStale?)
    ensures Inv(c, Apply(c, s, a)) && KeepsDelivered(s, Apply(c, s, a))
  {
    var s' := Apply(c, s, a);
    var h := s.workers[a.worker];
    assert Holds(s, h);
    UpdateKeepsWork(c, s, s', h.lease.id);
    OthersKeepHolding(c, s, s', Some(a.worker));
  }

  lemma FailKeepsInv(c: Settings, s: System, a: Action)
    requires Inv(c, s) && Enabled(c, s, a) && a.FailJob?
    ensures Inv(c, Apply(c, s, a)) && KeepsDelivered(s, Apply(c, s, a))
  {
    var s' := Apply(c, s, a);
    var h := s.workers[a.worker];
    assert Holds(s, h);
    if h.lease.id in s.work {
      UpdateKeepsWork(c, s, s', h.lease.id);
    }
    OthersKeepHolding(c, s, s', None);
  }

  lemma RequeueKeepsInv(c: Settings, s: System, a: Action)
    requires c.maxAttempts >= 1 && Inv(c, s) && Enabled(c, s, a) && (a.Requeue? || a.RequeueConflict?)
    ensures Inv(c, Apply(c, s, a)) && KeepsDelivered(s, Apply(c, s, a))
  {
    var s' := Apply(c, s, a);
    var h := s.workers[a.worker];
    if a.Requeue? {
      EnqueueKeepsWork(c, s, s', h.lease.page, h.phase.current, h.lease.priority, a.at);
    } else {
      ConflictKeepsWork(c, s, s', h.lease.page, h.phase.current, h.lease.priority, a.at);
    }
    assert forall v :: Alive(s, v) ==> s.workers[v].lease.id < s.nextWork;
    OthersKeepHolding(c, s, s', None);
  }

  lemma StampKeepsInv(c: Settings, s: System, a: Action)
    requires Inv(c, s) && Enabled(c, s, a) && a.Stamp?
    ensures Inv(c, Apply(c, s, a)) && KeepsDelivered(s, Apply(c, s, a))
  {
    var s' := Apply(c, s, a);
    assert Holds(s, s.workers[a.worker]);
    OthersKeepHolding(c, s, s', Some(a.worker));
  }

  /** Two live leases on jobs not yet completed are for different (page, revision) keys. */
  lemma LeasesDifferInKey(c: Settings, s: System, v: nat, w: nat)
    requires Inv(c, s) && Alive(s, v) && Alive(s, w) && v != w
    requires StillLeased(s, s.workers[v]) && StillLeased(s, s.workers[w])
    ensures s.workers[v].lease.page != s.workers[w].lease.page || s.workers[v].lease.revision != s.workers[w].lease.revision
  {
    var i, j := s.workers[v].lease.id, s.workers[w].lease.id;
    assert s.work[i].Names(s.work[j].page, s.work[j].revision) ==> i == j;
  }

  lemma SaveKeepsInv(c: Settings, s: System, a: Action)
    requires Inv(c, s) && Enabled(c, s, a) && a.Save?
    ensures Inv(c, Apply(c, s, a)) && KeepsDelivered(s, Apply(c, s, a))
  {
    var s' := Apply(c, s, a);
    var h := s.workers[a.worker];
    var row := ResultRow(h.lease.page, h.lease.revision, h.phase.at, a.answer);
    assert Holds(s, h);
    SaveKeepsOnePerKey(s.results, s.nextResult, row);
    forall page, revision, at | Delivered(s.results, page, revision, at)
      ensures Delivered(s'.results, page, revision, at)
    {
      SaveKeepsDelivered(s.results, s.nextResult, row, page, revision, at);
    }
    SaveOthersKeepHolding(c, s, s', a.worker, row);
  }

  /** Nobody else with a live lease looks at the results of the key being saved, except to see that they are ready. */
  lemma SaveOthersKeepHolding(c: Settings, s: System, s': System, actor: nat, row: ResultRow)
    requires Inv(c, s) && Alive(s, actor) && StillLeased(s, s.workers[actor]) && KeepsDelivered(s, s')
    requires row.page == s.workers[actor].lease.page && row.revision == s.workers[actor].lease.revision
    requires s'.workers == InPhase(s, actor, Saved(row.computedAt))
    requires s'.work == s.work && s'.now == s.now && s'.nextWork == s.nextWork
    requires exists id :: id in s'.results && s'.results[id] == row
    requires forall k :: k in s'.results && !s'.results[k].Names(row.page, row.revision) ==>
      k in s.results && s'.results[k] == s.results[k]
    ensures WorkersOk(s') && Exclusive(s')
  {
    forall v | Alive(s', v) ensures Holds(s', s'.workers[v]) {
      assert Alive(s, v) && Holds(s, s.workers[v]);
      if v != actor {
        if s.workers[v].phase.Stamped? {
          LeasesDifferInKey(c, s, v, actor);
        }
      }
    }
  }

  lemma StepKeepsInv(c: Settings, s: System, a: Action)
    requires c.maxAttempts >= 1 && Inv(c, s) && Enabled(c, s, a)
    ensures Inv(c, Apply(c, s, a)) && KeepsDelivered(s, Apply(c, s, a))
  {
    match a
    case Revive(_, _, _) => RevivalKeepsInv(c, s, a);
    case CleanUp(_, _, _) => CleanupKeepsInv(c, s, a);
    case Claim(_, _, _, _, _) => ClaimKeepsInv(c, s, a);
    case Stamp(_) => StampKeepsInv(c, s, a);
    case Save(_, _) => SaveKeepsInv(c, s, a);
    case Requeue(_, _) => RequeueKeepsInv(c, s, a);
    case RequeueConflict(_, _) => RequeueKeepsInv(c, s, a);
    case Refuse(_, _, _) => SupersedeKeepsInv(c, s, a);
    case SupersedeStale(_, _, _, _) => SupersedeKeepsInv(c, s, a);
    case Complete(_) => CompleteKeepsInv(c, s, a);
    case FailJob(_, _, _, _, _) => FailKeepsInv(c, s, a);
    case _ => RequestKeepsInv(c, s, a);
  }

  lemma {:induction false} RunKeepsInv(c: Settings, s: System, actions: seq<Action>, last: System)
    requires c.maxAttempts >= 1 && Inv(c, s) && Run(c, s, actions, last)
    ensures Inv(c, last) && KeepsDelivered(s, last)
    decreases |actions|
  {
    if actions != [] {
      StepKeepsInv(c, s, actions[0]);
      RunKeepsInv(c, Apply(c, s, actions[0]), actions[1..], last);
    }
  }

  /* ---- Over every run ---- */

  /** Lease exclusion: in every interleaving, two workers whose leases have not expired never work on the same row,
      nor, while both rows are still leased, on the same revision of the same page. */
  lemma LeaseExclusion(c: Settings, s: System, actions: seq<Action>, last: System, v: nat, w: nat)
    requires c.maxAttempts >= 1 && Init(s) && Run(c, s, actions, last)
    requires Alive(last, v) && Alive(last, w) && v != w
    ensures last.workers[v].lease.id != last.workers[w].lease.id
    ensures StillLeased(last, last.workers[v]) && StillLeased(last, last.workers[w]) ==>
      last.workers[v].lease.page != last.workers[w].lease.page
      || last.workers[v].lease.revision != last.workers[w].lease.revision
    ensures var h := last.workers[v]; !h.phase.Completed? && !h.phase.Requeueing? ==> StillLeased(last, h)
  {
    RunKeepsInv(c, s, actions, last);
    assert Holds(last, last.workers[v]);
    if StillLeased(last, last.workers[v]) && StillLeased(last, last.workers[w]) {
      LeasesDifferInKey(c, last, v, w);
    }
  }

  /* ---- What each kind of step may do to one row ---- */

  /** Steps that leave the queue alone. */
  predicate LeavesQueue(a: Action) {
    a.Tick? || a.Crash? || a.RequeueSkip? || a.Stamp? || a.Save? || a.Finish?
  }

  /** Steps that ask for a revision of a page. */
  predicate Asks(a: Action) {
    a.Enqueue? || a.EnqueueConflict? || a.Requeue? || a.RequeueConflict?
  }

  /** A step that asks keeps every row's key, attempts and lease, and at most supersedes a pending one. */
  lemma AskingKeepsRow(c: Settings, s: System, a: Action, id: nat)
    requires Inv(c, s) && Enabled(c, s, a) && Asks(a) && id in s.work
    ensures var s' := Apply(c, s, a);
      && id in s'.work && s'.work[id].attempts == s.work[id].attempts && s'.work[id].leaseUntil == s.work[id].leaseUntil
      && s'.work[id].Names(s.work[id].page, s.work[id].revision)
      && (s'.work[id].state == s.work[id].state || (s.work[id].state.Pending? && s'.work[id].state.Superseded?))
  {
    if a.Requeue? {
      var h := s.workers[a.worker];
      EnqueueRows(s.work, s.nextWork, h.lease.page, h.phase.current, h.lease.priority, a.at);
    } else if a.Enqueue? {
      EnqueueRows(s.work, s.nextWork, a.page, a.revision, a.priority, a.at);
    }
  }

  /** A worker's own transaction on its row touches no other row; the row is leased to it, or superseded by it before,
      or gone. */
  lemma OwnRowOnly(c: Settings, s: System, a: Action, id: nat)
    requires Inv(c, s) && Enabled(c, s, a) && (a.Refuse? || a.SupersedeStale? || a.Complete? || a.FailJob?) && id in s.work
    ensures var s' := Apply(c, s, a); var h := s.workers[a.worker];
      if h.lease.id != id then id in s'.work && s'.work[id] == s.work[id]
      else StillLeased(s, h) || (a.FailJob? && h.phase.Requeueing? && s.work[id].state.Superseded?)
  {
    assert Holds(s, s.workers[a.worker]);
  }

  /** A claim takes one row, pending or past its lease; no other row changes. */
  lemma ClaimTakesRow(c: Settings, s: System, a: Action, id: nat)
    requires Inv(c, s) && Enabled(c, s, a) && a.Claim? && id in s.work
    ensures var s' := Apply(c, s, a);
      id in s'.work && if a.id != id then s'.work[id] == s.work[id]
      else
        && s'.work[id].state.Leased? && s'.work[id].attempts == s.work[id].attempts + 1
        && (s.work[id].state.Pending? || (s.work[id].state.Leased? && s.work[id].leaseUntil.value < s.now))
  {
  }

  /** A leased row changes hands only through the live worker that holds it, or through a claim after it expired. */
  lemma LeaseChangesHands(c: Settings, s: System, a: Action, id: nat)
    requires c.maxAttempts >= 1 && Inv(c, s) && Enabled(c, s, a) && id in s.work && s.work[id].state.Leased?
    ensures var s' := Apply(c, s, a);
      || (id in s'.work && SameRow(s.work[id], s'.work[id]))
      || (OnLease(a) && Alive(s, a.worker) && s.workers[a.worker].lease.id == id && StillLeased(s, s.workers[a.worker]))
      || (a.Claim? && a.id == id && s.work[id].leaseUntil.value < s.now
          && s'.work[id].state.Leased? && s'.work[id].attempts == s.work[id].attempts + 1)
  {
    if Asks(a) {
      AskingKeepsRow(c, s, a, id);
    } else if a.Claim? {
      ClaimTakesRow(c, s, a, id);
    } else if !LeavesQueue(a) && !a.Revive? && !a.CleanUp? {
      OwnRowOnly(c, s, a, id);
    }
  }

  /** Who may bring a settled row back. A dead row leaves `Dead` only through a revival. A superseded row is final
      except for the worker that superseded it for a newer revision: should its enqueue raise, it calls `fail` on the
      row it has just superseded. Either kind disappears only through a cleanup past its cutoff. */
  lemma SettledRowsStay(c: Settings, s: System, a: Action, id: nat)
    requires c.maxAttempts >= 1 && Inv(c, s) && Enabled(c, s, a) && id in s.work && !s.work[id].Live()
    ensures var s' := Apply(c, s, a);
      && (id !in s'.work <==> a.CleanUp? && s.work[id].updatedAt < a.workCutoff)
      && (id in s'.work ==>
           && (s.work[id].state.Dead? && !s'.work[id].state.Dead? <==> s.work[id].state.Dead? && a.Revive? && a.id == id)
           && (s.work[id].state.Superseded? && !s'.work[id].state.Superseded? <==>
                 a.FailJob? && s.workers[a.worker].phase.Requeueing? && s.workers[a.worker].lease.id == id))
  {
    if Asks(a) {
      AskingKeepsRow(c, s, a, id);
    } else if a.Claim? {
      ClaimTakesRow(c, s, a, id);
    } else if a.Revive? || a.CleanUp? {
      SettledOutsideJobs(c, s, a, id);
    } else if !LeavesQueue(a) {
      OwnRowOnly(c, s, a, id);
    }
  }

  lemma SettledOutsideJobs(c: Settings, s: System, a: Action, id: nat)
    requires Enabled(c, s, a) && (a.Revive? || a.CleanUp?) && id in s.work && !s.work[id].Live()
    ensures var s' := Apply(c, s, a);
      && (id !in s'.work <==> a.CleanUp? && s.work[id].updatedAt < a.workCutoff)
      && (id in s'.work ==>
           s'.work[id].state == if a.Revive? && a.id == id && s.work[id].state.Dead? then Pending else s.work[id].state)
  {
  }

  /** The retry budget holds in every reachable state: nothing waits with its attempts used up, and a leased row
      exceeds them by at most the leases that crashed on it. */
  lemma RetryBudget(c: Settings, s: System, actions: seq<Action>, last: System, id: nat)
    requires c.maxAttempts >= 1 && Init(s) && Run(c, s, actions, last) && id in last.work
    ensures last.work[id].state.Pending? ==> 0 <= last.work[id].attempts < c.maxAttempts
    ensures last.work[id].state.Leased? ==> last.work[id].attempts <= c.maxAttempts + Reclaims(last, id)
  {
    RunKeepsInv(c, s, actions, last);
  }

  /** Once ready, always ready: a page's latest answer never disappears and never gets older, whatever happens. */
  lemma ReadyForever(c: Settings, s: System, actions: seq<Action>, last: System, page: PageKey, id: nat)
    returns (latest: nat)
    requires c.maxAttempts >= 1 && Inv(c, s) && Run(c, s, actions, last) && IsLatest(s.results, page, id)
    ensures IsLatest(last.results, page, latest)
    ensures last.results[latest].computedAt >= s.results[id].computedAt
  {
    RunKeepsInv(c, s, actions, last);
    assert Delivered(s.results, page, s.results[id].revision, s.results[id].computedAt);
    var some :| some in last.results && last.results[some].page == page
      && last.results[some].computedAt >= s.results[id].computedAt;
    latest := LatestExists(last.results, page, some);
  }

  /** Every key has at most one result row in every reachable state, however often its job was run. */
  lemma OneResultPerKey(c: Settings, s: System, actions: seq<Action>, last: System, i: nat, j: nat)
    requires c.maxAttempts >= 1 && Init(s) && Run(c, s, actions, last)
    requires i in last.results && j in last.results
    requires last.results[i].Names(last.results[j].page, last.results[j].revision)
    ensures i == j
  {
    RunKeepsInv(c, s, actions, last);
  }

  /* ---- No job is lost ---- */

  /** Somewhere along the run, row `id` is dead or superseded. */
  ghost predicate EverSettled(c: Settings, s: System, actions: seq<Action>, id: nat)
    decreases |actions|
  {
    || (id in s.work && !s.work[id].Live())
    || (actions != [] && Enabled(c, s, actions[0]) && EverSettled(c, Apply(c, s, actions[0]), actions[1..], id))
  }

  /** One step: a live row stays, or goes away because its worker completed it, and then the answer that worker stamped,
      or a strictly newer one, is stored. */
  lemma LiveRowStep(c: Settings, s: System, a: Action, id: nat)
    requires c.maxAttempts >= 1 && Inv(c, s) && Enabled(c, s, a) && id in s.work && s.work[id].Live()
    ensures var s' := Apply(c, s, a);
      if id in s'.work then s'.work[id].Names(s.work[id].page, s.work[id].revision)
      else
        && a.Complete? && s.workers[a.worker].lease.id == id
        && Delivered(s'.results, s.work[id].page, s.work[id].revision, s.workers[a.worker].phase.at)
  {
    if Asks(a) {
      AskingKeepsRow(c, s, a, id);
    } else if a.Complete? {
      assert Holds(s, s.workers[a.worker]);
    } else if a.Claim? {
      ClaimTakesRow(c, s, a, id);
    } else if !LeavesQueue(a) && !a.Revive? && !a.CleanUp? {
      OwnRowOnly(c, s, a, id);
    }
  }

  /** Whoever is about to store or complete the answer of row `id` has stamped it at `since` or later. */
  ghost predicate StampedSince(s: System, id: nat, since: int) {
    && since <= s.now
    && forall w :: Alive(s, w) && s.workers[w].lease.id == id ==>
         match s.workers[w].phase
         case Stamped(at) => since <= at
         case Saved(at) => since <= at
         case _ => true
  }

  /** Nobody has stamped an answer for a row that is waiting. */
  lemma PendingIsUnstamped(c: Settings, s: System, id: nat)
    requires Inv(c, s) && id in s.work && s.work[id].state.Pending?
    ensures StampedSince(s, id, s.now)
  {
    forall w | Alive(s, w) && s.workers[w].lease.id == id
      ensures !s.workers[w].phase.Stamped? && !s.workers[w].phase.Saved?
    {
      assert Holds(s, s.workers[w]);
    }
  }

  lemma StepKeepsStamps(c: Settings, s: System, a: Action, id: nat, since: int)
    requires Enabled(c, s, a) && StampedSince(s, id, since)
    ensures StampedSince(Apply(c, s, a), id, since)
  {
    var s' := Apply(c, s, a);
    forall w | Alive(s', w) && s'.workers[w].lease.id == id
      ensures match s'.workers[w].phase
              case Stamped(at) => since <= at
              case Saved(at) => since <= at
              case _ => true
    {
      if w in s.workers && s'.workers[w] == s.workers[w] {
        assert Alive(s, w);
      }
    }
  }

  /** Crash safety: over every run, whatever crashes, a live row is still live at the end, or has been dead or superseded
      on the way, or an answer for its revision stamped at `since` or later is stored, or a still newer one. */
  lemma {:induction false} NoJobIsLost(c: Settings, s: System, actions: seq<Action>, last: System, id: nat, since: int)
    requires c.maxAttempts >= 1 && Inv(c, s) && Run(c, s, actions, last) && id in s.work && s.work[id].Live()
    requires StampedSince(s, id, since)
    ensures || (id in last.work && last.work[id].Live())
            || EverSettled(c, s, actions, id)
            || exists at :: at >= since && Delivered(last.results, s.work[id].page, s.work[id].revision, at)
    decreases |actions|
  {
    if actions != [] {
      var s' := Apply(c, s, actions[0]);
      StepKeepsInv(c, s, actions[0]);
      LiveRowStep(c, s, actions[0], id);
      StepKeepsStamps(c, s, actions[0], id, since);
      if id !in s'.work {
        RunKeepsInv(c, s', actions[1..], last);
        StampAtComplete(c, s, actions[0], id, since);
      } else if s'.work[id].Live() {
        NoJobIsLost(c, s', actions[1..], last, id, since);
      }
    }
  }

  lemma StampAtComplete(c: Settings, s: System, a: Action, id: nat, since: int)
    requires Enabled(c, s, a) && a.Complete? && s.workers[a.worker].lease.id == id && StampedSince(s, id, since)
    ensures s.workers[a.worker].phase.at >= since
  {
  }

  /** So a job that is waiting now is never lost: it stays live, or is settled on the way, or an answer computed from now
      on is stored, for its revision or newer still. */
  lemma WaitingJobIsNotLost(c: Settings, s: System, actions: seq<Action>, last: System, id: nat)
    requires c.maxAttempts >= 1 && Inv(c, s) && Run(c, s, actions, last) && id in s.work && s.work[id].state.Pending?
    ensures || (id in last.work && last.work[id].Live())
            || EverSettled(c, s, actions, id)
            || ReadySince(last.results, s.work[id].page, s.now)
  {
    PendingIsUnstamped(c, s, id);
    NoJobIsLost(c, s, actions, last, id, s.now);
  }

  /** At every step boundary inside a job that is not expired, either its row is still leased to it, or its answer
      is stored, or the row was superseded; a row left leased by a crash is claimable once its lease is over, and a
      completed one left its answer, or a strictly newer one, behind. */
  lemma JobBoundary(c: Settings, s: System, actions: seq<Action>, last: System, w: nat, later: int)
    requires c.maxAttempts >= 1 && Init(s) && Run(c, s, actions, last) && Alive(last, w)
    requires later > last.workers[w].until
    ensures var h := last.workers[w];
      match h.phase
      case Saved(at) =>
        StillLeased(last, h) && Claimable(last.work[h.lease.id], later)
        && Delivered(last.results, h.lease.page, h.lease.revision, at)
      case Completed(at) => h.lease.id !in last.work && Delivered(last.results, h.lease.page, h.lease.revision, at)
      case Requeueing(_) => h.lease.id in last.work ==> last.work[h.lease.id].state.Superseded?
      case _ => StillLeased(last, h) && Claimable(last.work[h.lease.id], later)
  {
    RunKeepsInv(c, s, actions, last);
    assert Holds(last, last.workers[w]);
  }
}
