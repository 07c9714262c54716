/** The lock-check rotation over many runs of the standing job, with a fixed set of named accounts all tracked. */
module Rotation {
  import opened Base
  import opened Keyset
  import opened Policy
  import opened Standing

  /** One run: `due` were asked about, `checked` are those whose check succeeded. */
  datatype LockRun = LockRun(now: int, due: set<nat>, checked: set<nat>)

  ghost predicate Rotates(t: Standings, u: Standings, run: LockRun, recheck: int, budget: nat) {
    && IsCandidates(t, run.now - recheck, budget, run.due) && run.checked <= run.due
    && u.Keys == t.Keys
    && forall id :: id in t ==>
         u[id].lockCheckedAt == if id in run.checked then Some(run.now) else t[id].lockCheckedAt
  }

  /** A run of the job over accounts that are all tracked is one turn of the rotation. */
  lemma SyncRotates(r: Reports, t: Standings, u: Standings, now: int, recheck: int, budget: nat, due: set<nat>, picked: set<nat>)
    requires r.blocks.Some? && IsReplaced(r, t, u, due, now)
    requires forall id :: id in r.named <==> id in t
    requires IsCandidates(t, now - recheck, budget, picked) && picked <= due
    requires forall id :: id in due - picked ==> id in r.named && id !in t
    ensures Rotates(t, u, LockRun(now, due, Checked(r, due, r.named)), recheck, budget)
  {
    assert due == picked by {
      forall id | id in due ensures id in picked {
        assert id !in picked ==> id in due - picked;
      }
    }
    forall id ensures id in u <==> id in t {
      assert Lookup(u, id) == if id in r.named then Updated(r, t, due, id, now) else None;
    }
    forall id | id in t
      ensures u[id].lockCheckedAt == if id in Checked(r, due, r.named) then Some(now) else t[id].lockCheckedAt
    {
      assert Lookup(u, id) == Updated(r, t, due, id, now);
    }
  }

  /** Successive runs at strictly rising times. */
  ghost predicate Rotation(tables: seq<Standings>, runs: seq<LockRun>, recheck: int, budget: nat) {
    && |tables| == |runs| + 1
    && (forall k :: 0 <= k < |runs| ==> Rotates(tables[k], tables[k + 1], runs[k], recheck, budget))
    && forall j, k :: 0 <= j < k < |runs| ==> runs[j].now < runs[k].now
  }

  /** The accounts that have waited at least as long as `id`, itself among them. */
  function Ahead(t: Standings, id: nat): set<nat>
    requires id in t
  {
    set p | p in t && !WaitsLonger(t[id], t[p])
  }

  lemma DueTakesBudget(t: Standings, run: LockRun, recheck: int, budget: nat, id: nat)
    requires IsCandidates(t, run.now - recheck, budget, run.due)
    requires id in Stale(t, run.now - recheck) && id !in run.due
    ensures |run.due| == budget
  {
    var stale := Stale(t, run.now - recheck);
    assert run.due <= stale - {id};
    SubsetSize(run.due, stale - {id});
  }

  /** While a stale account waits, everybody checked in a run leaves the accounts ahead of it. */
  lemma WaitingMovesUp(t: Standings, u: Standings, run: LockRun, recheck: int, budget: nat, failures: nat, id: nat)
    requires recheck >= 0 && Rotates(t, u, run, recheck, budget) && |run.due - run.checked| <= failures
    requires id in Stale(t, run.now - recheck) && id !in run.due
    ensures id in u && u[id].lockCheckedAt == t[id].lockCheckedAt
    ensures |Ahead(u, id)| + budget - failures <= |Ahead(t, id)|
  {
    DueTakesBudget(t, run, recheck, budget, id);
    assert run.due == run.checked + (run.due - run.checked);
    assert run.checked <= Ahead(t, id);
    assert Ahead(u, id) <= Ahead(t, id) - run.checked;
    SubsetSize(Ahead(u, id), Ahead(t, id) - run.checked);
  }

  lemma {:induction false} WaitedFor(tables: seq<Standings>, runs: seq<LockRun>, recheck: int, budget: nat, failures: nat,
                                     id: nat, k: nat)
    requires recheck >= 0 && Rotation(tables, runs, recheck, budget) && k <= |runs| && runs != []
    requires forall i :: 0 <= i < |runs| ==> |runs[i].due - runs[i].checked| <= failures
    requires id in Stale(tables[0], runs[0].now - recheck) && forall i :: 0 <= i < k ==> id !in runs[i].due
    ensures id in tables[k] && tables[k][id].lockCheckedAt == tables[0][id].lockCheckedAt
    ensures |Ahead(tables[k], id)| + k * (budget - failures) <= |Ahead(tables[0], id)|
  {
    if k > 0 {
      WaitedFor(tables, runs, recheck, budget, failures, id, k - 1);
      assert runs[0].now <= runs[k - 1].now;
      assert Rotates(tables[k - 1], tables[k], runs[k - 1], recheck, budget);
      WaitingMovesUp(tables[k - 1], tables[k], runs[k - 1], recheck, budget, failures, id);
    }
  }

  lemma WaitedLessThan(tables: seq<Standings>, runs: seq<LockRun>, recheck: int, budget: nat, failures: nat, id: nat, k: nat)
    requires recheck >= 0 && Rotation(tables, runs, recheck, budget) && k <= |runs| && runs != []
    requires forall i :: 0 <= i < |runs| ==> |runs[i].due - runs[i].checked| <= failures
    requires id in Stale(tables[0], runs[0].now - recheck) && forall i :: 0 <= i < k ==> id !in runs[i].due
    ensures k * (budget - failures) < |tables[0]|
  {
    WaitedFor(tables, runs, recheck, budget, failures, id, k);
    SubsetSize({id}, Ahead(tables[k], id));
    SubsetSize(Ahead(tables[0], id), tables[0].Keys);
  }

  /** The rotation is fair: when fewer than `budget` checks fail in each run, every account that has gone stale, or was
      never checked, gets its turn within ceil(n / (budget - failures)) runs, where n accounts are tracked. */
  lemma LockRotationIsFair(tables: seq<Standings>, runs: seq<LockRun>, recheck: int, budget: nat, failures: nat, id: nat)
    returns (k: nat)
    requires recheck >= 0 && Rotation(tables, runs, recheck, budget) && runs != []
    requires forall i :: 0 <= i < |runs| ==> |runs[i].due - runs[i].checked| <= failures
    requires failures < budget && |runs| * (budget - failures) >= |tables[0]|
    requires id in Stale(tables[0], runs[0].now - recheck)
    ensures k < |runs| && id in runs[k].due && (failures == 0 ==> id in runs[k].checked)
  {
    if i :| 0 <= i < |runs| && id in runs[i].due {
      k := i;
      assert id !in runs[i].checked ==> id in runs[i].due - runs[i].checked;
    } else {
      WaitedLessThan(tables, runs, recheck, budget, failures, id, |runs|);
      assert false;
    }
  }

  /** A run whose checks all succeed asks at most `budget` accounts, and takes that many off the never-checked ones. */
  lemma NeverCheckedFalls(t: Standings, u: Standings, run: LockRun, recheck: int, budget: nat)
    requires Rotates(t, u, run, recheck, budget) && run.checked == run.due
    ensures |run.due| <= budget
    ensures |NeverChecked(u)| == |NeverChecked(t)| - Min(budget, |NeverChecked(t)|)
  {
    var never := NeverChecked(t);
    assert never <= Stale(t, run.now - recheck);
    assert NeverChecked(u) == never - run.due;
    if id :| id in never && id !in run.due {
      DueTakesBudget(t, run, recheck, budget, id);
      assert run.due <= never - {id} by {
        assert forall p :: p in run.due ==> !WaitsLonger(t[id], t[p]);
      }
      SubsetSize(run.due, never - {id});
    } else {
      assert never <= run.due;
      SubsetSize(never, run.due);
      assert NeverChecked(u) == {};
    }
  }

  /** Everybody in `ids` has waited longer than `id`. */
  ghost predicate AllWaitLonger(t: Standings, ids: set<nat>, id: nat) {
    id in t && ids <= t.Keys && forall p :: p in ids ==> WaitsLonger(t[p], t[id])
  }

  lemma StarvedRun(t: Standings, u: Standings, run: LockRun, recheck: int, budget: nat, failing: set<nat>, id: nat)
    requires Rotates(t, u, run, recheck, budget) && run.checked !! failing && |failing| >= budget
    requires failing <= Stale(t, run.now - recheck) && AllWaitLonger(t, failing, id)
    ensures id !in run.due && AllWaitLonger(u, failing, id)
    ensures forall p :: p in failing ==> u[p].lockCheckedAt == t[p].lockCheckedAt
  {
    if id in run.due {
      forall p | p in failing ensures p in run.due {
        assert p !in run.due ==> p in Stale(t, run.now - recheck) - run.due;
      }
      assert id !in failing;
      SubsetSize(failing + {id}, run.due);
    }
  }

  /** Fewer failures than the budget is what fairness takes: once `budget` stale accounts cannot be looked up, whether they
      were never checked or long ago, nobody who has waited less than they have is ever asked about again. */
  lemma {:induction false} FailuresStarveRotation(tables: seq<Standings>, runs: seq<LockRun>, recheck: int, budget: nat,
                                                  failing: set<nat>, id: nat, k: nat)
    requires Rotation(tables, runs, recheck, budget) && k < |runs| && |failing| >= budget
    requires failing <= Stale(tables[0], runs[0].now - recheck) && AllWaitLonger(tables[0], failing, id)
    requires forall i :: 0 <= i < |runs| ==> runs[i].checked !! failing
    ensures id !in runs[k].due && AllWaitLonger(tables[k + 1], failing, id)
    ensures forall p :: p in failing ==> tables[k + 1][p].lockCheckedAt == tables[0][p].lockCheckedAt
  {
    if k > 0 {
      FailuresStarveRotation(tables, runs, recheck, budget, failing, id, k - 1);
      assert runs[0].now < runs[k].now;
    }
    assert Rotates(tables[k], tables[k + 1], runs[k], recheck, budget);
    StarvedRun(tables[k], tables[k + 1], runs[k], recheck, budget, failing, id);
  }

  function Upto(n: nat): (ids: set<nat>)
    ensures |ids| == n && forall i: nat :: i in ids <==> i < n
  {
    if n == 0 then {} else Upto(n - 1) + {n - 1}
  }

  /** Accounts 0 to `n`, the last of them checked at time 1 and the others at time 0. */
  function OneBehind(n: nat): Standings {
    map id: nat | id in Upto(n + 1) ::
      Record(AccountStanding(id, "", None, None, false, None, false, None), Some(if id < n then 0 else 1), None)
  }

  /** Starvation does happen: for every budget, recheck age and number of runs there is a rotation in which `budget` checks
      keep failing and one stale account behind them is never asked about. */
  lemma StarvingRotation(budget: nat, recheck: int, count: nat)
    returns (tables: seq<Standings>, runs: seq<LockRun>, failing: set<nat>, id: nat)
    ensures Rotation(tables, runs, recheck, budget) && |runs| == count && |failing| == budget
    ensures forall k :: 0 <= k < count ==>
      && runs[k].checked == {} && id !in runs[k].due
      && failing <= Stale(tables[k], runs[k].now - recheck) && id in Stale(tables[k], runs[k].now - recheck)
    ensures AllWaitLonger(tables[0], failing, id)
  {
    tables := seq(count + 1, _ => OneBehind(budget));
    runs := seq(count, (k: nat) => LockRun(recheck + 2 + k, Upto(budget), {}));
    failing, id := Upto(budget), budget;
    StuckRuns(tables, runs, budget, recheck);
    LastWaitsLess(budget);
  }

  lemma StuckRuns(tables: seq<Standings>, runs: seq<LockRun>, budget: nat, recheck: int)
    requires |tables| == |runs| + 1 && forall k :: 0 <= k < |tables| ==> tables[k] == OneBehind(budget)
    requires forall k :: 0 <= k < |runs| ==> runs[k] == LockRun(recheck + 2 + k, Upto(budget), {})
    ensures Rotation(tables, runs, recheck, budget)
    ensures forall k :: 0 <= k < |runs| ==> Stale(tables[k], runs[k].now - recheck) == Upto(budget + 1)
  {
    forall k | 0 <= k < |runs|
      ensures Rotates(tables[k], tables[k + 1], runs[k], recheck, budget)
      ensures Stale(tables[k], runs[k].now - recheck) == Upto(budget + 1)
    {
      var now := recheck + 2 + k;
      assert runs[k] == LockRun(now, Upto(budget), {}) && tables[k] == tables[k + 1] == OneBehind(budget);
      StuckRun(budget, recheck, now);
    }
  }

  lemma LastWaitsLess(budget: nat)
    ensures AllWaitLonger(OneBehind(budget), Upto(budget), budget)
  {
  }

  lemma StuckRun(budget: nat, recheck: int, now: int)
    requires now >= recheck + 2
    ensures Stale(OneBehind(budget), now - recheck) == Upto(budget + 1)
    ensures Rotates(OneBehind(budget), OneBehind(budget), LockRun(now, Upto(budget), {}), recheck, budget)
  {
    var t := OneBehind(budget);
    assert t.Keys == Upto(budget + 1);
    assert Stale(t, now - recheck) == t.Keys;
  }
}
