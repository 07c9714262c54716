/** Tracking what a wiki has decided about the accounts its answers name, with lock checks rationed and rotated. */
module Standing {
  import opened Base
  import opened Policy
  import opened Keyset

  datatype Record = Record(standing: AccountStanding, lockCheckedAt: Option<int>, hasUserPage: Option<bool>)

  /** One wiki's tracked accounts, by identifier. */
  type Standings = map<nat, Record>

  /* ---- Whose turn it is ---- */

  predicate LockIsStale(r: Record, cutoff: int) {
    r.lockCheckedAt.None? || r.lockCheckedAt.value < cutoff
  }

  function Stale(t: Standings, cutoff: int): set<nat> {
    set id | id in t && LockIsStale(t[id], cutoff)
  }

  function NeverChecked(t: Standings): set<nat> {
    set id | id in t && t[id].lockCheckedAt.None?
  }

  /** Never checked comes first, then the longest ago. */
  predicate WaitsLonger(a: Record, b: Record) {
    b.lockCheckedAt.Some? && (a.lockCheckedAt.None? || a.lockCheckedAt.value < b.lockCheckedAt.value)
  }

  /** `picked` may be what the candidate query returns; accounts that have waited equally come in any order. */
  ghost predicate IsCandidates(t: Standings, cutoff: int, limit: nat, picked: set<nat>) {
    && picked <= Stale(t, cutoff)
    && |picked| == Min(limit, |Stale(t, cutoff)|)
    && forall p, q :: p in picked && q in Stale(t, cutoff) - picked ==> !WaitsLonger(t[q], t[p])
  }

  /** The candidates in their own fields: never looked up or last before the cutoff; one that is left out was looked up, and
      no earlier than anybody picked, of whom there are then `limit`. */
  ghost predicate LongestWaiting(t: Standings, cutoff: int, limit: nat, picked: set<nat>) {
    forall id :: id in t ==> var at := t[id].lockCheckedAt;
      && (id in picked ==> at.None? || at.value < cutoff)
      && (id !in picked && (at.None? || at.value < cutoff) ==>
            && |picked| == limit
            && forall p :: p in picked && p in t && t[p].lockCheckedAt.Some? ==>
                 at.Some? && at.value >= t[p].lockCheckedAt.value)
  }

  lemma CandidatesWaited(t: Standings, cutoff: int, limit: nat, picked: set<nat>)
    requires IsCandidates(t, cutoff, limit, picked)
    ensures LongestWaiting(t, cutoff, limit, picked)
  {
    forall id | id in Stale(t, cutoff) - picked
      ensures |picked| == limit && forall p :: p in picked ==> !WaitsLonger(t[id], t[p])
    {
      assert picked + {id} <= Stale(t, cutoff);
      SubsetSize(picked + {id}, Stale(t, cutoff));
    }
  }

  lemma {:induction false} LongestWait(t: Standings, ids: set<nat>, start: nat) returns (first: nat)
    requires start in ids && ids <= t.Keys
    ensures first in ids && forall q :: q in ids ==> !WaitsLonger(t[q], t[first])
  {
    if better :| better in ids && WaitsLonger(t[better], t[start]) {
      first := LongestWait(t, ids - {start}, better);
      assert !WaitsLonger(t[better], t[first]);
    } else {
      first := start;
    }
  }

  /* ---- One account's new record ---- */

  /** What the wiki says about an account: its current name and block. */
  datatype Block = Block(username: string, blockedAt: Option<int>, expiresAt: Option<int>, partial: bool, reason: Option<string>)

  /** What CentralAuth would answer: whether the account is locked, and why. `None` is a failed request. */
  datatype LockAnswer = LockAnswer(locked: Option<bool>, reason: Option<Option<string>>)

  predicate Succeeds(a: LockAnswer) {
    a.locked.Some? && (a.locked.value ==> a.reason.Some?)
  }

  function Spaced(name: string): string {
    seq(|name|, i requires 0 <= i < |name| => if name[i] == '_' then ' ' else name[i])
  }

  /** What is known of an account after the run; `None` when it is not tracked. An unanswered account keeps its record,
      a lock check that is not due or fails keeps the time of the last one that succeeded. */
  function NextRecord(id: nat, previous: Option<Record>, block: Option<Block>, due: bool, answer: LockAnswer,
                      userPages: Option<set<string>>, now: int): Option<Record>
  {
    if block.None? then previous
    else
      var b := block.value;
      var wasLocked := previous.Some? && previous.value.standing.globallyLocked;
      var oldReason := if previous.Some? then previous.value.standing.lockReason else None;
      var oldCheck := if previous.Some? then previous.value.lockCheckedAt else None;
      var locked := if due && answer.locked.Some? then answer.locked.value else wasLocked;
      var reason := if due && Succeeds(answer) then (if locked then answer.reason.value else None) else oldReason;
      Some(Record(
        AccountStanding(id, b.username, b.blockedAt, b.expiresAt, b.partial, b.reason, locked, reason),
        if due && Succeeds(answer) then Some(now) else oldCheck,
        if userPages.Some? then Some(Spaced(b.username) in userPages.value)
        else if previous.Some? then previous.value.hasUserPage else None))
  }

  /** The reason a lock carries, if it has one to read. */
  predicate ReadsAsSanction(p: Patterns, reason: Option<string>) {
    reason.Some? && reason.value != "" && p.isSanctionReason(reason.value)
  }

  /** What a run makes of a sanction lock. Without an answer about the lock the verdict stands; an answer that there is none
      lifts it; an answer that there is one is judged by the reason just read or, when that could not be read, by the last
      one known. */
  lemma LockVerdict(p: Patterns, id: nat, previous: Option<Record>, block: Block, due: bool, answer: LockAnswer,
                    userPages: Option<set<string>>, now: int)
    ensures var next := NextRecord(id, previous, Some(block), due, answer, userPages, now).value;
      IsSanctionLock(p, next.standing) <==>
        if !due || answer.locked.None? then previous.Some? && IsSanctionLock(p, previous.value.standing)
        else answer.locked.value
             && ReadsAsSanction(p, if answer.reason.Some? then answer.reason.value
                                   else if previous.Some? then previous.value.standing.lockReason else None)
  {
  }

  /** The rest of the record: the name and the block are what the wiki has just said; the time of the last check moves only
      when the whole check succeeded; a user page is looked up under the name with spaces, and an account the wiki says
      nothing about keeps its record. */
  lemma RecordFollowsReports(id: nat, previous: Option<Record>, block: Option<Block>, due: bool, answer: LockAnswer,
                             userPages: Option<set<string>>, now: int)
    ensures var next := NextRecord(id, previous, block, due, answer, userPages, now);
      && (block.None? ==> next == previous)
      && (block.Some? ==>
            && next.Some?
            && next.value.standing.(globallyLocked := false, lockReason := None)
                 == AccountStanding(id, block.value.username, block.value.blockedAt, block.value.expiresAt,
                                    block.value.partial, block.value.reason, false, None)
            && (next.value.lockCheckedAt == Some(now)
                || (previous.Some? && next.value.lockCheckedAt == previous.value.lockCheckedAt)
                || (previous.None? && next.value.lockCheckedAt.None?))
            && (due && answer.locked == Some(false) ==> next.value.lockCheckedAt == Some(now))
            && (due && answer.locked == Some(true) && answer.reason.Some? ==> next.value.lockCheckedAt == Some(now))
            && (!due || answer.locked.None? || (answer.locked == Some(true) && answer.reason.None?) ==>
                  next.value.lockCheckedAt == if previous.Some? then previous.value.lockCheckedAt else None)
            && (userPages.None? ==> next.value.hasUserPage == if previous.Some? then previous.value.hasUserPage else None)
            && (userPages.Some? && (forall ch :: ch in block.value.username ==> ch != '_') ==>
                  next.value.hasUserPage == Some(block.value.username in userPages.value)))
  {
    if block.Some? && forall ch :: ch in block.value.username ==> ch != '_' {
      var name := block.value.username;
      assert forall i :: 0 <= i < |name| ==> name[i] in name;
      assert Spaced(name) == name;
    }
  }

  /* ---- The job ---- */

  /** What one run will be told. `blocks` is `None` when the wiki cannot be reached. */
  datatype Reports = Reports(
    named: seq<nat>,
    blocks: Option<map<nat, Block>>,
    userPages: Option<set<string>>,
    locks: nat -> LockAnswer)

  function Lookup<V>(m: map<nat, V>, id: nat): Option<V> {
    if id in m then Some(m[id]) else None
  }

  predicate CheckSucceeds(r: Reports, id: nat) {
    r.blocks.Some? && id in r.blocks.value && Succeeds(r.locks(id))
  }

  /** The accounts whose lock check succeeds in this run. */
  function Checked(r: Reports, due: set<nat>, ids: seq<nat>): set<nat> {
    set id | id in due && id in ids && CheckSucceeds(r, id)
  }

  function Updated(r: Reports, t: Standings, due: set<nat>, id: nat, now: int): Option<Record> {
    NextRecord(id, Lookup(t, id), if r.blocks.Some? then Lookup(r.blocks.value, id) else None, id in due, r.locks(id),
               r.userPages, now)
  }

  /** The table after a run that reached the wiki: the named accounts, each with its new record, and nobody else. */
  ghost predicate IsReplaced(r: Reports, t: Standings, u: Standings, due: set<nat>, now: int) {
    forall id :: Lookup(u, id) == if id in r.named then Updated(r, t, due, id, now) else None
  }

  class StandingTable {
    var table: Standings

    constructor ()
      ensures table == map[]
    {
      table := map[];
    }

    method LockCheckCandidates(cutoff: int, limit: nat) returns (picked: set<nat>)
      ensures IsCandidates(table, cutoff, limit, picked)
      ensures LongestWaiting(table, cutoff, limit, picked)
    {
      var left := Stale(table, cutoff);
      picked := {};
      while left != {} && |picked| < limit
        invariant picked + left == Stale(table, cutoff) && picked !! left && |picked| <= limit
        invariant forall p, q :: p in picked && q in left ==> !WaitsLonger(table[q], table[p])
        decreases left
      {
        ghost var some := SomeMember(left);
        ghost var longest := LongestWait(table, left, some);
        var first :| first in left && forall q :: q in left ==> !WaitsLonger(table[q], table[first]);
        picked, left := picked + {first}, left - {first};
      }
      assert |Stale(table, cutoff)| == |picked| + |left|;
      assert left == Stale(table, cutoff) - picked;
      CandidatesWaited(table, cutoff, limit, picked);
    }

    /** The tracked accounts become exactly the records' accounts. */
    method ReplaceStanding(records: Standings) returns (added: nat, removed: nat)
      modifies this
      ensures table == records
      ensures added == |records.Keys - old(table).Keys| && removed == |old(table).Keys - records.Keys|
    {
      var gone := table.Keys - records.Keys;
      var joined := records.Keys - table.Keys;
      table := (table - gone) + records;
      assert table == records;
      added, removed := |joined|, |gone|;
    }

    /** The accounts a run may ask CentralAuth about: stale ones whose turn it is, and as far as the budget goes
        named accounts never tracked before. */
    ghost predicate IsDue(named: seq<nat>, cutoff: int, budget: nat, due: set<nat>)
      reads this
    {
      && |due| <= budget
      && exists picked ::
           && IsCandidates(table, cutoff, budget, picked) && picked <= due
           && (forall id :: id in due - picked ==> id in named && id !in table)
           && (|due| < budget ==> forall id :: id in named && id !in table ==> id in due)
           && FirstUnseen(named, due)
    }

    /** Of the accounts never tracked before, the first ones named are asked about. */
    ghost predicate FirstUnseen(named: seq<nat>, due: set<nat>)
      reads this
    {
      forall i, j :: 0 <= i < j < |named| && named[i] !in table && named[j] !in table && named[j] in due ==> named[i] in due
    }

    /** `sync_wiki`. A wiki that cannot be reached leaves the table exactly as it was. */
    method SyncWiki(r: Reports, now: int, recheck: int, budget: nat, dryRun: bool)
      returns (reached: bool, tracked: nat, added: nat, removed: nat, locksChecked: nat, ghost due: set<nat>)
      requires NoRepeats(r.named)
      modifies this
      ensures reached <==> r.blocks.Some?
      ensures !reached || dryRun ==> table == old(table) && locksChecked == 0
      ensures reached ==> old(IsDue(r.named, now - recheck, budget, due))
      ensures reached && !dryRun ==>
        && IsReplaced(r, old(table), table, due, now)
        && tracked == |table| && added == |table.Keys - old(table).Keys| && removed == |old(table).Keys - table.Keys|
        && locksChecked == |Checked(r, due, r.named)| <= budget
    {
      reached, tracked, added, removed, locksChecked, due := false, 0, 0, 0, 0, {};
      if r.blocks.None? {
        return;
      }
      reached := true;
      var turns := DueChecks(r.named, now - recheck, budget);
      due := turns;
      var records;
      records, locksChecked := BuildRecords(r, turns, now);
      SubsetSize(Checked(r, turns, r.named), turns);
      tracked := |records|;
      if dryRun {
        locksChecked := 0;
        return;
      }
      added, removed := ReplaceStanding(records);
    }

    /** The loop of `sync_wiki` over the named accounts. */
    method BuildRecords(r: Reports, due: set<nat>, now: int) returns (records: Standings, locksChecked: nat)
      requires NoRepeats(r.named) && r.blocks.Some?
      ensures IsReplaced(r, table, records, due, now)
      ensures locksChecked == |Checked(r, due, r.named)|
    {
      records, locksChecked := map[], 0;
      for i := 0 to |r.named|
        invariant IsReplacedUpTo(r, table, records, due, now, r.named[..i])
        invariant locksChecked == |Checked(r, due, r.named[..i])|
      {
        var id := r.named[i];
        assert r.named[..i + 1] == r.named[..i] + [id] && id !in r.named[..i];
        CheckedNext(r, due, r.named[..i], id);
        var next := Updated(r, table, due, id, now);
        if next.Some? {
          records := records[id := next.value];
        }
        if id in due && CheckSucceeds(r, id) {
          locksChecked := locksChecked + 1;
        }
      }
      assert r.named[..|r.named|] == r.named;
    }

    /** The stale accounts whose turn it is, and then, as far as the budget goes, named accounts never tracked before. */
    method DueChecks(named: seq<nat>, cutoff: int, budget: nat) returns (due: set<nat>)
      requires NoRepeats(named)
      ensures IsDue(named, cutoff, budget, due)
    {
      var picked := LockCheckCandidates(cutoff, budget);
      due := picked;
      for i := 0 to |named|
        invariant picked <= due && |due| <= budget
        invariant forall id :: id in due - picked ==> id in named[..i] && id !in table
        invariant |due| < budget ==> forall id :: id in named[..i] && id !in table ==> id in due
        invariant FirstUnseen(named[..i], due)
      {
        assert named[..i + 1] == named[..i] + [named[i]];
        if named[i] !in table && |due| < budget {
          due := due + {named[i]};
        }
      }
      assert named[..|named|] == named;
    }
  }

  /** The records built so far: one for each of `ids` that is tracked. */
  ghost predicate IsReplacedUpTo(r: Reports, t: Standings, records: Standings, due: set<nat>, now: int, ids: seq<nat>) {
    forall id :: Lookup(records, id) == if id in ids then Updated(r, t, due, id, now) else None
  }

  lemma CheckedNext(r: Reports, due: set<nat>, ids: seq<nat>, id: nat)
    requires id !in ids
    ensures |Checked(r, due, ids + [id])| == |Checked(r, due, ids)| + if id in due && CheckSucceeds(r, id) then 1 else 0
  {
    var before := Checked(r, due, ids);
    if id in due && CheckSucceeds(r, id) {
      assert Checked(r, due, ids + [id]) == before + {id};
    } else {
      assert Checked(r, due, ids + [id]) == before;
    }
  }
}
