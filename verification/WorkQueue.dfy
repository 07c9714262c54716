/** The durable work queue as a table of rows, one function per committed transaction.

    A row's identifier comes from the database's counter and is never handed out twice. Every
    clock reading a transaction makes is its `now` argument. */
module WorkQueue {
  import opened Base

  datatype PageKey = PageKey(wiki: string, pageId: int, algorithm: string)

  datatype WorkState = Pending | Leased | Dead | Superseded

  datatype WorkItem = WorkItem(
    page: PageKey,
    revision: int,
    priority: int,
    state: WorkState,
    attempts: int,
    availableAt: int,
    leaseUntil: Option<int>,
    workerId: Option<string>,
    errorCode: Option<string>,
    lastError: Option<string>,
    isPermanent: bool,
    createdAt: int,
    updatedAt: int)
  {
    predicate Names(page: PageKey, revision: int) {
      this.page == page && this.revision == revision
    }

    predicate Live() {
      state.Pending? || state.Leased?
    }
  }

  datatype WorkLease = WorkLease(id: nat, page: PageKey, revision: int, priority: int, attempts: int)

  type WorkTable = map<nat, WorkItem>

  /** The unique constraint on (wiki, page, revision, algorithm). */
  ghost predicate UniqueWork(t: WorkTable) {
    forall i, j :: i in t && j in t && t[i].Names(t[j].page, t[j].revision) ==> i == j
  }

  predicate HasWork(t: WorkTable, page: PageKey, revision: int) {
    exists id :: id in t && t[id].Names(page, revision)
  }

  predicate HasNewerLive(t: WorkTable, page: PageKey, revision: int) {
    exists id :: id in t && t[id].page == page && t[id].revision > revision && t[id].Live()
  }

  function NewItem(page: PageKey, revision: int, priority: int, now: int): WorkItem {
    WorkItem(page, revision, priority, Pending, 0, now, None, None, None, None, false, now, now)
  }

  /** `UPDATE ... SET priority = max(priority, p)` on a live row of this exact key. */
  function Boost(t: WorkTable, page: PageKey, revision: int, priority: int, now: int): WorkTable {
    map id | id in t ::
      if t[id].Names(page, revision) && t[id].Live()
      then t[id].(priority := Max(t[id].priority, priority), updatedAt := now)
      else t[id]
  }

  function SupersedeOlder(t: WorkTable, page: PageKey, revision: int, now: int): WorkTable {
    map id | id in t ::
      if t[id].page == page && t[id].revision < revision && t[id].state.Pending?
      then t[id].(state := Superseded, updatedAt := now)
      else t[id]
  }

  /** The queue transaction of `enqueue`; `id` is the identifier the database would hand out. */
  function EnqueueTx(t: WorkTable, id: nat, page: PageKey, revision: int, priority: int, now: int): WorkTable {
    if !HasWork(t, page, revision) then
      if HasNewerLive(t, page, revision) then t
      else SupersedeOlder(t[id := NewItem(page, revision, priority, now)], page, revision, now)
    else
      SupersedeOlder(Boost(t, page, revision, priority, now), page, revision, now)
  }

  /** What `enqueue` does instead when its insert broke the unique constraint. */
  function EnqueueRace(t: WorkTable, page: PageKey, revision: int, priority: int, now: int): WorkTable {
    map id | id in t ::
      if t[id].Names(page, revision) then t[id].(priority := priority, updatedAt := now) else t[id]
  }

  predicate Claimable(item: WorkItem, now: int) {
    || (item.state.Pending? && item.availableAt <= now)
    || (item.state.Leased? && item.leaseUntil.Some? && item.leaseUntil.value < now)
  }

  /** `ORDER BY priority DESC, created_at ASC`; rows equal on both may come in either order. */
  predicate Outranks(a: WorkItem, b: WorkItem) {
    a.priority > b.priority || (a.priority == b.priority && a.createdAt < b.createdAt)
  }

  /** `id` may be the first row of the claim query when other transactions hold `locked`. */
  predicate FirstClaim(t: WorkTable, locked: set<nat>, now: int, id: nat) {
    && id in t && id !in locked && Claimable(t[id], now)
    && forall j :: j in t && j !in locked && Claimable(t[j], now) ==> !Outranks(t[j], t[id])
  }

  function ClaimTx(t: WorkTable, id: nat, workerId: string, leaseSeconds: int, now: int): WorkTable
    requires id in t
  {
    t[id := t[id].(
        state := Leased,
        workerId := Some(workerId),
        leaseUntil := Some(now + leaseSeconds),
        attempts := t[id].attempts + 1,
        updatedAt := now)]
  }

  function LeaseOf(t: WorkTable, id: nat): WorkLease
    requires id in t
  {
    WorkLease(id, t[id].page, t[id].revision, t[id].priority, t[id].attempts)
  }

  function CompleteTx(t: WorkTable, id: nat): WorkTable {
    t - {id}
  }

  function SupersedeTx(t: WorkTable, id: nat, reason: string, now: int): WorkTable {
    if id in t then
      t[id := t[id].(
          state := Superseded,
          leaseUntil := None,
          workerId := None,
          errorCode := Some("revision_superseded"),
          lastError := Some(Take(reason, 2000)),
          updatedAt := now)]
    else t
  }

  function Pow2(n: nat): nat {
    if n == 0 then 1 else 2 * Pow2(n - 1)
  }

  const BACKOFF_CAP := 6 * 60 * 60

  /** Seconds a job waits after its `attempts`-th attempt failed. */
  function Backoff(attempts: int): int {
    Min(BACKOFF_CAP, 30 * Pow2(Max(0, attempts - 1)))
  }

  predicate IsFatal(lease: WorkLease, maxAttempts: int, permanent: bool) {
    permanent || lease.attempts >= maxAttempts
  }

  function FailTx(t: WorkTable, lease: WorkLease, code: string, message: string,
                  maxAttempts: int, permanent: bool, now: int): WorkTable {
    if lease.id in t then
      t[lease.id := t[lease.id].(
          state := if IsFatal(lease, maxAttempts, permanent) then Dead else Pending,
          availableAt := now + Backoff(lease.attempts),
          leaseUntil := None,
          workerId := None,
          errorCode := Some(Take(code, 64)),
          lastError := Some(Take(message, 2000)),
          isPermanent := permanent,
          updatedAt := now)]
    else t
  }

  function ReviveTx(t: WorkTable, id: nat, priority: int, now: int): WorkTable {
    if id in t && t[id].state.Dead? then
      t[id := t[id].(
          state := Pending,
          attempts := 0,
          priority := priority,
          availableAt := now,
          errorCode := None,
          lastError := None,
          updatedAt := now)]
    else t
  }

  /** The queue half of `cleanup`. */
  function CleanWork(t: WorkTable, cutoff: int): WorkTable {
    map id | id in t && !((t[id].state.Dead? || t[id].state.Superseded?) && t[id].updatedAt < cutoff) :: t[id]
  }

  /* ---- The claim query ---- */

  /** Whenever some unlocked row is claimable, the claim query has a first row. */
  lemma {:induction false} ClaimFindsWork(t: WorkTable, locked: set<nat>, now: int, ids: set<nat>, start: nat)
    returns (best: nat)
    requires start in ids
    requires ids <= t.Keys
    requires forall id :: id in ids ==> id !in locked && Claimable(t[id], now)
    ensures best in ids && forall j :: j in ids ==> !Outranks(t[j], t[best])
    decreases |ids|
  {
    if better :| better in ids && Outranks(t[better], t[start]) {
      best := ClaimFindsWork(t, locked, now, ids - {start}, better);
    } else {
      best := start;
    }
  }

  /** The highest priority goes first and, within a priority, the oldest row: of two claims at one instant the later one
      never takes a row of higher priority, nor an older one of the same. */
  lemma ClaimsComeInOrder(t: WorkTable, locked: set<nat>, now: int, first: nat, workerId: string, leaseSeconds: nat,
                          alsoLocked: set<nat>, second: nat)
    requires FirstClaim(t, locked, now, first)
    requires FirstClaim(ClaimTx(t, first, workerId, leaseSeconds, now), locked + alsoLocked, now, second)
    ensures second != first
    ensures t[second].priority < t[first].priority
      || (t[second].priority == t[first].priority && t[second].createdAt >= t[first].createdAt)
  {
    assert ClaimTx(t, first, workerId, leaseSeconds, now)[second] == t[second];
  }

  /* ---- What each transaction makes of a row's turn to be claimed ---- */

  /** Only row `id` may differ, and it keeps its key. */
  ghost predicate OnlyRow(t: WorkTable, u: WorkTable, id: nat) {
    && u.Keys == t.Keys && (forall k :: k in t && k != id ==> u[k] == t[k])
    && (id in t ==> u[id].page == t[id].page && u[id].revision == t[id].revision)
  }

  /** A newly queued job can be claimed at once, with all its attempts and at the priority asked for. */
  lemma EnqueuedIsClaimable(t: WorkTable, id: nat, page: PageKey, revision: int, priority: int, now: int, later: int)
    requires id !in t && !HasWork(t, page, revision) && !HasNewerLive(t, page, revision)
    ensures var u := EnqueueTx(t, id, page, revision, priority, now);
      && id in u && u[id].Names(page, revision) && u[id].priority == priority && u[id].attempts == 0
      && u[id].createdAt == now && !u[id].isPermanent && u[id].errorCode.None?
      && (Claimable(u[id], later) <==> later >= now)
  {
  }

  /** First come, first served: of two jobs queued one after the other for different pages at one priority, the later is
      never claimed while the earlier can be. */
  lemma FirstComeFirstServed(t: WorkTable, id: nat, page: PageKey, revision: int, now: int, other: nat, otherPage: PageKey,
                             otherRevision: int, otherNow: int, priority: int, locked: set<nat>, at: int)
    requires id !in t && other !in t && id != other && page != otherPage && now < otherNow <= at && id !in locked
    requires !HasWork(t, page, revision) && !HasNewerLive(t, page, revision)
    requires !HasWork(t, otherPage, otherRevision) && !HasNewerLive(t, otherPage, otherRevision)
    ensures var u := EnqueueTx(t, id, page, revision, priority, now);
      var v := EnqueueTx(u, other, otherPage, otherRevision, priority, otherNow);
      id in v && other in v && v[other].Names(otherPage, otherRevision) && !FirstClaim(v, locked, at, other)
  {
    var u := EnqueueTx(t, id, page, revision, priority, now);
    EnqueueFrame(u, other, otherPage, otherRevision, priority, otherNow, id);
    EnqueuedIsClaimable(t, id, page, revision, priority, now, at);
    forall k | k in u && u[k].page == otherPage ensures k in t && u[k] == t[k] {
      EnqueueRows(t, id, page, revision, priority, now);
    }
    EnqueuedIsClaimable(u, other, otherPage, otherRevision, priority, otherNow, at);
  }

  /** A claimed row can be claimed again exactly when its lease is over, and has used one more attempt. */
  lemma ClaimHoldsRow(t: WorkTable, id: nat, workerId: string, leaseSeconds: int, now: int, later: int)
    requires id in t
    ensures var u := ClaimTx(t, id, workerId, leaseSeconds, now);
      && OnlyRow(t, u, id) && u[id].attempts == t[id].attempts + 1 && u[id].workerId == Some(workerId)
      && u[id].priority == t[id].priority && u[id].createdAt == t[id].createdAt
      && (Claimable(u[id], later) <==> later > now + leaseSeconds)
  {
  }

  /** A failed row can be claimed again exactly when the failure is not fatal and the backoff is over; its attempts stay
      used. */
  lemma FailureReschedules(t: WorkTable, lease: WorkLease, code: string, message: string, maxAttempts: int,
                           permanent: bool, now: int, later: int)
    requires lease.id in t
    ensures var u := FailTx(t, lease, code, message, maxAttempts, permanent, now);
      && OnlyRow(t, u, lease.id) && u[lease.id].attempts == t[lease.id].attempts
      && u[lease.id].priority == t[lease.id].priority && u[lease.id].createdAt == t[lease.id].createdAt
      && (Claimable(u[lease.id], later) <==>
            !permanent && lease.attempts < maxAttempts && later >= now + Backoff(lease.attempts))
      && (Claimable(u[lease.id], later) ==> later >= now + 30)
  {
    BackoffBounds(lease.attempts, lease.attempts);
  }

  /** A superseded row is never claimed again as it stands, and an enqueue of its revision does not bring it back. */
  lemma SupersededRowIsRetired(t: WorkTable, id: nat, reason: string, now: int, newId: nat, priority: int, later: int)
    requires id in t && newId !in t
    ensures var u := SupersedeTx(t, id, reason, now);
      && OnlyRow(t, u, id) && !Claimable(u[id], later)
      && u[id].workerId.None? && u[id].errorCode == Some("revision_superseded") && u[id].lastError == Some(Take(reason, 2000))
      && var v := EnqueueTx(u, newId, t[id].page, t[id].revision, priority, later); id in v && !Claimable(v[id], later)
  {
    var u := SupersedeTx(t, id, reason, now);
    EnqueueFrame(u, newId, t[id].page, t[id].revision, priority, later, id);
  }

  /** A revived row is claimable at once, at the given priority and with its whole budget of attempts; any other row
      is left alone. */
  lemma RevivalReschedules(t: WorkTable, id: nat, priority: int, now: int, later: int)
    requires id in t
    ensures var u := ReviveTx(t, id, priority, now);
      if t[id].state.Dead? then
        && OnlyRow(t, u, id) && u[id].attempts == 0 && u[id].priority == priority && u[id].createdAt == t[id].createdAt
        && u[id].errorCode.None? && u[id].lastError.None? && u[id].updatedAt == now
        && (Claimable(u[id], later) <==> later >= now)
      else u == t
  {
  }

  /* ---- Retry backoff ---- */

  lemma {:induction false} Pow2Monotone(a: nat, b: nat)
    requires a <= b
    ensures 1 <= Pow2(a) <= Pow2(b)
  {
    if b > a {
      Pow2Monotone(a, b - 1);
    } else if a > 0 {
      Pow2Monotone(a - 1, b - 1);
    }
  }

  lemma {:induction false} BackoffBounds(a: int, b: int)
    requires a <= b
    ensures 30 <= Backoff(a) <= Backoff(b) <= 21600
  {
    Pow2Monotone(Max(0, a - 1), Max(0, b - 1));
  }

  ghost function TotalBackoff(n: nat): int {
    if n == 0 then 0 else TotalBackoff(n - 1) + Backoff(n)
  }

  /** The first `n` failures of a job wait 30 * (2^n - 1) seconds in all, until the cap starts at the 11th. */
  lemma {:induction false} BackoffSum(n: nat)
    requires n <= 10
    ensures TotalBackoff(n) == 30 * (Pow2(n) - 1)
  {
    if n > 0 {
      BackoffSum(n - 1);
      Pow2Monotone(n - 1, 9);
      assert Pow2(9) == 512;
    }
  }

  lemma {:induction false} BackoffCapped(n: int)
    ensures Backoff(n) == BACKOFF_CAP <==> n >= 11
  {
    assert Pow2(10) == 1024 && Pow2(9) == 512;
    if n >= 11 {
      Pow2Monotone(10, n - 1);
    } else {
      Pow2Monotone(Max(0, n - 1), 9);
    }
  }

  /* ---- One enqueue ---- */

  ghost predicate HasLiveAbove(t: WorkTable, page: PageKey, revision: int) {
    exists id :: id in t && t[id].page == page && t[id].revision >= revision && t[id].Live()
  }

  /** `id` is the page's live row with the greatest revision. */
  ghost predicate HighestLive(t: WorkTable, page: PageKey, id: nat) {
    && id in t && t[id].page == page && t[id].Live()
    && forall j :: j in t && t[j].page == page && t[j].Live() ==> t[j].revision <= t[id].revision
  }

  /** The revision asked for is settled: its row is dead or superseded, which blocks queueing it again. */
  ghost predicate Settled(t: WorkTable, page: PageKey, revision: int) {
    exists id :: id in t && t[id].Names(page, revision) && !t[id].Live()
  }

  /** What an enqueue leaves alone: other pages, greater revisions, and every row that is not pending. */
  lemma EnqueueFrame(t: WorkTable, id: nat, page: PageKey, revision: int, priority: int, now: int, k: nat)
    requires id !in t && k in t
    ensures var u := EnqueueTx(t, id, page, revision, priority, now);
      && k in u
      && (t[k].page != page || t[k].revision > revision ==> u[k] == t[k])
      && (t[k].state.Dead? || t[k].state.Superseded? ==> u[k] == t[k])
      && (t[k].state.Leased? ==> u[k] == t[k].(priority := u[k].priority, updatedAt := u[k].updatedAt))
      && t[k].priority <= u[k].priority
  {
  }

  /** Row by row: an enqueue adds at most its own new row, removes none, and changes a row's state only from
      pending to superseded. */
  lemma EnqueueRows(t: WorkTable, id: nat, page: PageKey, revision: int, priority: int, now: int)
    requires id !in t
    ensures var u := EnqueueTx(t, id, page, revision, priority, now);
      && t.Keys <= u.Keys
      && forall k :: k in u ==>
           if k !in t then k == id && u[k] == NewItem(page, revision, priority, now) && !HasWork(t, page, revision)
           else
             && u[k] == t[k].(state := u[k].state, priority := u[k].priority, updatedAt := u[k].updatedAt)
             && (u[k].state == t[k].state || (t[k].state.Pending? && u[k].state.Superseded?))
  {
  }

  lemma EnqueueKeepsUnique(t: WorkTable, id: nat, page: PageKey, revision: int, priority: int, now: int)
    requires id !in t && UniqueWork(t)
    ensures UniqueWork(EnqueueTx(t, id, page, revision, priority, now))
  {
    var u := EnqueueTx(t, id, page, revision, priority, now);
    EnqueueRows(t, id, page, revision, priority, now);
    forall i, j | i in u && j in u && u[i].Names(u[j].page, u[j].revision) ensures i == j {
      if i in t && j in t {
        assert t[i].Names(t[j].page, t[j].revision);
      }
    }
  }

  /** Unless it is turned away by newer live work, an enqueue leaves no older revision of the page pending,
      and its own revision is live or was settled before. */
  lemma EnqueueClearsOlder(t: WorkTable, id: nat, page: PageKey, revision: int, priority: int, now: int)
    requires id !in t
    ensures var u := EnqueueTx(t, id, page, revision, priority, now);
      var turnedAway := !HasWork(t, page, revision) && HasNewerLive(t, page, revision);
      && (turnedAway ==> u == t)
      && (!turnedAway ==>
            && (forall k :: k in u && u[k].page == page && u[k].revision < revision ==> !u[k].state.Pending?)
            && exists k :: k in u && u[k].Names(page, revision) && (u[k].Live() || Settled(t, page, revision)))
  {
    var u := EnqueueTx(t, id, page, revision, priority, now);
    if HasWork(t, page, revision) {
      var k :| k in t && t[k].Names(page, revision);
      assert k in u && u[k].Names(page, revision);
    } else if !HasNewerLive(t, page, revision) {
      assert id in u && u[id].Names(page, revision);
    }
  }

  /** The highest live revision of a page drops through an enqueue exactly when the revision asked for is
      already dead or superseded and the highest live row is an older one still pending. */
  lemma EnqueueDropsHighest(t: WorkTable, id: nat, page: PageKey, revision: int, priority: int, now: int, top: nat)
    requires id !in t && UniqueWork(t) && HighestLive(t, page, top)
    ensures var u := EnqueueTx(t, id, page, revision, priority, now);
      !HasLiveAbove(u, page, t[top].revision) <==>
        Settled(t, page, revision) && t[top].state.Pending? && t[top].revision < revision
  {
    var u := EnqueueTx(t, id, page, revision, priority, now);
    assert top in u;
    if t[top].state.Pending? && t[top].revision < revision {
      if Settled(t, page, revision) {
        assert !HasLiveAbove(u, page, t[top].revision);
      } else {
        assert !HasWork(t, page, revision) && !HasNewerLive(t, page, revision);
        assert u[id].Live() && u[id].revision == revision;
      }
    } else {
      assert u[top].Live() && u[top].revision == t[top].revision;
    }
  }

  /** Once the job's row `rival` is there, the race path equals the normal path on the queue exactly when no older
      revision is left pending and the update comes to the same: on a live row the priority asked for is not lower,
      on a settled one it changes nothing. */
  lemma RaceOverwritesPriority(t: WorkTable, id: nat, page: PageKey, revision: int, priority: int, now: int, rival: nat)
    requires UniqueWork(t) && rival in t && t[rival].Names(page, revision)
    ensures EnqueueRace(t, page, revision, priority, now) == EnqueueTx(t, id, page, revision, priority, now) <==>
      && (forall k :: k in t && t[k].page == page && t[k].revision < revision ==> !t[k].state.Pending?)
      && (if t[rival].Live() then priority >= t[rival].priority
          else priority == t[rival].priority && now == t[rival].updatedAt)
  {
    var a := EnqueueRace(t, page, revision, priority, now);
    var b := EnqueueTx(t, id, page, revision, priority, now);
    RaceRows(t, id, page, revision, priority, now, rival, a, b);
    RaceRowEqual(t[rival], a[rival], b[rival], priority, now);
    OtherRowsEqual(t, page, revision, now, rival, a, b);
  }

  /** The other rows: they differ when an older revision waits. */
  lemma OtherRowsEqual(t: WorkTable, page: PageKey, revision: int, now: int, rival: nat, a: WorkTable, b: WorkTable)
    requires rival in t && t[rival].Names(page, revision) && a.Keys == t.Keys == b.Keys
    requires forall k :: k in t && k != rival ==>
      && a[k] == t[k]
      && b[k] == if t[k].page == page && t[k].revision < revision && t[k].state.Pending?
                 then t[k].(state := Superseded, updatedAt := now) else t[k]
    ensures a == b <==>
      && a[rival] == b[rival]
      && forall k :: k in t && t[k].page == page && t[k].revision < revision ==> !t[k].state.Pending?
  {
    if k :| k in t && t[k].page == page && t[k].revision < revision && t[k].state.Pending? {
      assert a[k].state.Pending? && b[k].state.Superseded?;
    } else if a[rival] == b[rival] {
      assert forall k :: k in t ==> a[k] == b[k];
      assert a == b;
    }
  }

  /** The raced row itself. */
  lemma RaceRowEqual(row: WorkItem, a: WorkItem, b: WorkItem, priority: int, now: int)
    requires a == row.(priority := priority, updatedAt := now)
    requires b == if row.Live() then row.(priority := Max(row.priority, priority), updatedAt := now) else row
    ensures a == b <==>
      if row.Live() then priority >= row.priority else priority == row.priority && now == row.updatedAt
  {
  }

  /** Both paths row by row. */
  lemma RaceRows(t: WorkTable, id: nat, page: PageKey, revision: int, priority: int, now: int, rival: nat, a: WorkTable,
                 b: WorkTable)
    requires UniqueWork(t) && rival in t && t[rival].Names(page, revision)
    requires a == EnqueueRace(t, page, revision, priority, now) && b == EnqueueTx(t, id, page, revision, priority, now)
    ensures a.Keys == t.Keys == b.Keys
    ensures forall k :: k in t && k != rival ==>
      && a[k] == t[k]
      && b[k] == if t[k].page == page && t[k].revision < revision && t[k].state.Pending?
                 then t[k].(state := Superseded, updatedAt := now) else t[k]
    ensures a[rival] == t[rival].(priority := priority, updatedAt := now)
    ensures b[rival] == if t[rival].Live() then t[rival].(priority := Max(t[rival].priority, priority), updatedAt := now)
                        else t[rival]
  {
    assert HasWork(t, page, revision);
    forall k | k in t && k != rival ensures !t[k].Names(page, revision) {
      assert t[k].Names(t[rival].page, t[rival].revision) <==> t[k].Names(page, revision);
    }
  }

  /** Another process's insert of the same job, committed between this one's read and its own insert. */
  datatype Rival = Rival(priority: int, at: int)

  /** Our insert can only be beaten when we would insert at all. */
  predicate Inserts(t: WorkTable, page: PageKey, revision: int) {
    !HasWork(t, page, revision) && !HasNewerLive(t, page, revision)
  }

  /** `enqueue` with a rival: its transaction commits first, ours fails on the unique key, and the race path updates the
      row it made. */
  function EnqueueRivalled(t: WorkTable, id: nat, page: PageKey, revision: int, priority: int, now: int, rival: Option<Rival>)
    : WorkTable
  {
    if rival.Some? && Inserts(t, page, revision)
    then EnqueueRace(EnqueueTx(t, id, page, revision, rival.value.priority, rival.value.at), page, revision, priority, now)
    else EnqueueTx(t, id, page, revision, priority, now)
  }

  /** The identifiers such a call and its rival take from the counter. */
  function IdsTaken(t: WorkTable, page: PageKey, revision: int, rival: Option<Rival>): nat {
    if rival.Some? && Inserts(t, page, revision) then 2 else 1
  }

  /** A race loses nothing but the greater priority: the same rows end in the same states as without the rival, and the
      job has the priority of the call that lost. */
  lemma RivalledLikeAlone(t: WorkTable, id: nat, page: PageKey, revision: int, priority: int, now: int, rival: Rival)
    requires id !in t && Inserts(t, page, revision)
    ensures var u := EnqueueRivalled(t, id, page, revision, priority, now, Some(rival));
      var v := EnqueueTx(t, id, page, revision, priority, now);
      && u.Keys == v.Keys
      && (forall k :: k in u ==> u[k].page == v[k].page && u[k].revision == v[k].revision && u[k].state == v[k].state)
      && u[id].Names(page, revision) && u[id].state.Pending? && u[id].priority == priority
  {
    EnqueueRows(t, id, page, revision, rival.priority, rival.at);
    EnqueueRows(t, id, page, revision, priority, now);
  }

  /** What calls at one priority do to priorities: a row they add has that priority, and one that was there keeps its own
      or is raised to it. */
  ghost predicate AtPriority(t: WorkTable, u: WorkTable, priority: int) {
    && t.Keys <= u.Keys
    && forall id :: id in u ==>
         if id in t then u[id].priority == t[id].priority || u[id].priority == Max(t[id].priority, priority)
         else u[id].priority == priority
  }

  lemma EnqueueAtPriority(t: WorkTable, id: nat, page: PageKey, revision: int, priority: int, now: int)
    requires id !in t
    ensures AtPriority(t, EnqueueTx(t, id, page, revision, priority, now), priority)
  {
  }

  lemma RivalledAtPriority(t: WorkTable, id: nat, page: PageKey, revision: int, priority: int, now: int, rival: Option<Rival>)
    requires id !in t
    ensures AtPriority(t, EnqueueRivalled(t, id, page, revision, priority, now, rival), priority)
  {
    if rival.Some? && Inserts(t, page, revision) {
      RacedRows(t, id, page, revision, priority, now, rival.value);
    } else {
      EnqueueAtPriority(t, id, page, revision, priority, now);
    }
  }

  lemma RacedRows(t: WorkTable, id: nat, page: PageKey, revision: int, priority: int, now: int, rival: Rival)
    requires id !in t && Inserts(t, page, revision)
    ensures AtPriority(t, EnqueueRivalled(t, id, page, revision, priority, now, Some(rival)), priority)
  {
    var u := EnqueueTx(t, id, page, revision, rival.priority, rival.at);
    var v := EnqueueRace(u, page, revision, priority, now);
    EnqueueRows(t, id, page, revision, rival.priority, rival.at);
    forall k | k in v ensures if k in t then v[k].priority == t[k].priority else v[k].priority == priority {
      if k in t {
        assert !t[k].Names(page, revision) && u[k].priority == t[k].priority;
      } else {
        assert k == id && u[k].Names(page, revision);
      }
    }
  }

  /** Raced or not, a call changes no row of another page. */
  lemma RivalledFrame(t: WorkTable, id: nat, page: PageKey, revision: int, priority: int, now: int, rival: Option<Rival>)
    requires id !in t
    ensures var u := EnqueueRivalled(t, id, page, revision, priority, now, rival);
      && (forall k :: k in t && t[k].page != page ==> k in u && u[k] == t[k])
      && (forall k :: k in u && u[k].page != page ==> k in t && u[k] == t[k])
  {
    var first := if rival.Some? then rival.value else Rival(priority, now);
    EnqueueRows(t, id, page, revision, first.priority, first.at);
    EnqueueRows(t, id, page, revision, priority, now);
    forall k | k in t && t[k].page != page
      ensures var u := EnqueueRivalled(t, id, page, revision, priority, now, rival); k in u && u[k] == t[k]
    {
      EnqueueFrame(t, id, page, revision, first.priority, first.at, k);
      EnqueueFrame(t, id, page, revision, priority, now, k);
    }
  }

  lemma RivalledKeepsUnique(t: WorkTable, id: nat, page: PageKey, revision: int, priority: int, now: int, rival: Option<Rival>)
    requires id !in t && UniqueWork(t)
    ensures var u := EnqueueRivalled(t, id, page, revision, priority, now, rival);
      UniqueWork(u) && forall k :: k in u ==> k in t || k == id
  {
    var first := if rival.Some? then rival.value else Rival(priority, now);
    EnqueueKeepsUnique(t, id, page, revision, first.priority, first.at);
    EnqueueRows(t, id, page, revision, first.priority, first.at);
    EnqueueKeepsUnique(t, id, page, revision, priority, now);
    EnqueueRows(t, id, page, revision, priority, now);
    var v := EnqueueTx(t, id, page, revision, first.priority, first.at);
    var u := EnqueueRivalled(t, id, page, revision, priority, now, rival);
    forall i, j | i in u && j in u && u[i].Names(u[j].page, u[j].revision) ensures i == j {
      if rival.Some? && Inserts(t, page, revision) {
        assert v[i].Names(v[j].page, v[j].revision);
      }
    }
  }

  /** Raced or not, no call brings a dead or superseded row back. */
  lemma RivalledKeepsSettled(t: WorkTable, id: nat, page: PageKey, revision: int, priority: int, now: int, rival: Option<Rival>,
                             k: nat)
    requires id !in t && k in t && !t[k].Live()
    ensures var u := EnqueueRivalled(t, id, page, revision, priority, now, rival); k in u && u[k] == t[k]
  {
    var first := if rival.Some? then rival.value else Rival(priority, now);
    EnqueueFrame(t, id, page, revision, first.priority, first.at, k);
    EnqueueFrame(t, id, page, revision, priority, now, k);
    assert Inserts(t, page, revision) ==> !t[k].Names(page, revision);
  }

  /** Raced or not, a call that is not turned away leaves no older revision pending, and its own is live or was settled. */
  lemma RivalledClearsOlder(t: WorkTable, id: nat, page: PageKey, revision: int, priority: int, now: int, rival: Option<Rival>)
    requires id !in t
    ensures var u := EnqueueRivalled(t, id, page, revision, priority, now, rival);
      if !HasWork(t, page, revision) && HasNewerLive(t, page, revision) then u == t
      else
        && (forall k :: k in u && u[k].page == page && u[k].revision < revision ==> !u[k].state.Pending?)
        && exists k :: k in u && u[k].Names(page, revision) && (u[k].Live() || Settled(t, page, revision))
  {
    EnqueueClearsOlder(t, id, page, revision, priority, now);
    var u := EnqueueRivalled(t, id, page, revision, priority, now, rival);
    var v := EnqueueTx(t, id, page, revision, priority, now);
    if rival.Some? && Inserts(t, page, revision) {
      RivalledLikeAlone(t, id, page, revision, priority, now, rival.value);
      assert id in u && u[id].Names(page, revision) && u[id].Live();
      forall k | k in u && u[k].page == page && u[k].revision < revision ensures !u[k].state.Pending? {
        assert k in v && v[k].page == page && v[k].revision < revision;
      }
    } else {
      assert u == v;
    }
  }

  /* ---- Many enqueues of one page ---- */

  datatype Request = Request(revision: int, priority: int, at: int)

  ghost predicate Enqueued(t: WorkTable, u: WorkTable, id: nat, page: PageKey, r: Request) {
    u == EnqueueTx(t, id, page, r.revision, r.priority, r.at)
  }

  /** `tables` is what the queue goes through as `requests` are enqueued for one page, one transaction each;
      a transaction that inserts uses an identifier not used before. */
  ghost predicate EnqueueHistory(tables: seq<WorkTable>, base: nat, page: PageKey, requests: seq<Request>) {
    && |tables| == |requests| + 1
    && forall k :: 0 <= k < |requests| ==> Enqueued(tables[k], tables[k + 1], base + k, page, requests[k])
  }

  /** (revision, priority) is the greatest revision asked for and the greatest priority asked for it. */
  ghost predicate IsTop(requests: seq<Request>, revision: int, priority: int) {
    && (exists r :: r in requests && r.revision == revision && r.priority == priority)
    && forall r :: r in requests ==> r.revision <= revision && (r.revision == revision ==> r.priority <= priority)
  }

  /** The page has one pending row, `id`, at the top request; its every other row is superseded and older. */
  ghost predicate Converged(u: WorkTable, page: PageKey, requests: seq<Request>, id: nat) {
    && id in u && u[id].page == page && u[id].state.Pending? && IsTop(requests, u[id].revision, u[id].priority)
    && forall k :: k in u && u[k].page == page && k != id ==> u[k].state.Superseded? && u[k].revision < u[id].revision
  }

  /** `u` holds the rows of `t`, unchanged, and rows of `page` with identifiers below `limit`. */
  ghost predicate OnlyTouches(t: WorkTable, u: WorkTable, page: PageKey, limit: nat) {
    && (forall k :: k in t ==> k in u && u[k] == t[k])
    && (forall k :: k in u ==> k < limit && (k !in t ==> u[k].page == page))
  }

  /** From a page with no rows, any sequence of enqueues ends with exactly one pending row: the highest
      revision asked for, at the highest priority asked for it. All other rows of the page are superseded,
      and other pages are untouched. */
  lemma {:induction false} EnqueueConverges(tables: seq<WorkTable>, base: nat, page: PageKey, requests: seq<Request>, k: nat)
    returns (id: nat)
    requires EnqueueHistory(tables, base, page, requests) && 0 < k <= |requests|
    requires forall i :: i in tables[0] ==> i < base && tables[0][i].page != page
    ensures Converged(tables[k], page, requests[..k], id)
    ensures OnlyTouches(tables[0], tables[k], page, base + k)
  {
    assert Enqueued(tables[k - 1], tables[k], base + k - 1, page, requests[k - 1]);
    assert requests[..k] == requests[..k - 1] + [requests[k - 1]];
    if k == 1 {
      EnqueueFirst(tables[0], base, page, requests[0]);
      id := base;
      assert requests[..1] == [requests[0]];
    } else {
      var prior := EnqueueConverges(tables, base, page, requests, k - 1);
      id := ConvergesAfter(tables[0], tables[k - 1], tables[k], base + k - 1, page, requests[..k - 1], requests[k - 1], prior);
    }
  }

  lemma ConvergesAfter(origin: WorkTable, t: WorkTable, u: WorkTable, newId: nat, page: PageKey, before: seq<Request>,
                       r: Request, prior: nat) returns (id: nat)
    requires Converged(t, page, before, prior) && OnlyTouches(origin, t, page, newId)
    requires forall k :: k in origin ==> origin[k].page != page
    requires u == EnqueueTx(t, newId, page, r.revision, r.priority, r.at)
    ensures Converged(u, page, before + [r], id) && OnlyTouches(origin, u, page, newId + 1)
  {
    EnqueueStep(t, newId, page, before, r, prior);
    EnqueueTouches(origin, t, page, r, newId);
    id := if r.revision > t[prior].revision then newId else prior;
  }

  lemma EnqueueFirst(t: WorkTable, base: nat, page: PageKey, r: Request)
    requires forall k :: k in t ==> k < base && t[k].page != page
    ensures var u := EnqueueTx(t, base, page, r.revision, r.priority, r.at);
      Converged(u, page, [r], base) && OnlyTouches(t, u, page, base + 1)
  {
    assert !HasWork(t, page, r.revision) && !HasNewerLive(t, page, r.revision);
    assert r in [r];
  }

  lemma EnqueueStep(t: WorkTable, newId: nat, page: PageKey, before: seq<Request>, r: Request, id: nat)
    requires newId !in t && Converged(t, page, before, id)
    ensures Converged(EnqueueTx(t, newId, page, r.revision, r.priority, r.at), page, before + [r],
                      if r.revision > t[id].revision then newId else id)
  {
    var u := EnqueueTx(t, newId, page, r.revision, r.priority, r.at);
    var requests := before + [r];
    assert r in requests && forall q :: q in before ==> q in requests;
    assert forall q :: q in requests ==> q in before || q == r;
    if r.revision > t[id].revision {
      assert !HasWork(t, page, r.revision) && !HasNewerLive(t, page, r.revision);
      assert IsTop(requests, r.revision, r.priority);
    } else if r.revision == t[id].revision {
      assert HasWork(t, page, r.revision);
      assert u[id].priority == Max(t[id].priority, r.priority);
      assert IsTop(requests, u[id].revision, u[id].priority);
    } else {
      assert HasNewerLive(t, page, r.revision);
      assert u[id] == t[id];
      assert IsTop(requests, u[id].revision, u[id].priority);
    }
  }

  lemma EnqueueTouches(origin: WorkTable, t: WorkTable, page: PageKey, r: Request, newId: nat)
    requires OnlyTouches(origin, t, page, newId)
    requires forall k :: k in origin ==> origin[k].page != page
    ensures OnlyTouches(origin, EnqueueTx(t, newId, page, r.revision, r.priority, r.at), page, newId + 1)
  {
    var u := EnqueueTx(t, newId, page, r.revision, r.priority, r.at);
    forall k | k in origin ensures k in u && u[k] == origin[k] {
      EnqueueFrame(t, newId, page, r.revision, r.priority, r.at, k);
    }
  }

  /** So the order in which the same requests arrive decides neither the revision nor the priority queued. */
  lemma EnqueueOrderIrrelevant(one: seq<WorkTable>, two: seq<WorkTable>, base: nat, page: PageKey,
                               first: seq<Request>, second: seq<Request>, i: nat, j: nat)
    requires EnqueueHistory(one, base, page, first) && EnqueueHistory(two, base, page, second) && one[0] == two[0]
    requires multiset(first) == multiset(second) && first != []
    requires forall k :: k in one[0] ==> k < base && one[0][k].page != page
    requires var u := one[|first|]; i in u && u[i].page == page && u[i].state.Pending?
    requires var u := two[|second|]; j in u && u[j].page == page && u[j].state.Pending?
    ensures one[|first|][i].revision == two[|second|][j].revision
    ensures one[|first|][i].priority == two[|second|][j].priority
  {
    assert |first| == |multiset(first)| == |second|;
    assert forall r :: r in first <==> r in multiset(first);
    assert forall r :: r in second <==> r in multiset(second);
    var a := EnqueueConverges(one, base, page, first, |first|);
    var b := EnqueueConverges(two, base, page, second, |second|);
    assert first[..|first|] == first && second[..|second|] == second;
    assert a == i && b == j;
  }
}
