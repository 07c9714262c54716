/** The size walk when runs may die: any run, in the middle of any batch, with any part of the batch already handed over
    and its cursor not stored. */
module Crashes {
  import opened Base
  import opened Sorting
  import opened Keyset
  import opened Replica
  import opened Results
  import opened Repository
  import opened Resume
  import opened Handover
  import opened Backfill

  /** One batch as a run goes through it: the snapshot it reads, and whether the run dies after offering `offered` of its
      articles, before the cursor is stored. */
  datatype Attempt = Attempt(table: Snapshot, offered: nat, dies: bool)

  /** The articles an attempt hands over and the text stored after it. */
  function AttemptStep(limit: nat): (Option<string>, Attempt) -> (seq<ReplicaPage>, Option<string>)
    requires limit > 0
  {
    (stored: Option<string>, a: Attempt) =>
      if IsComplete(stored) then ([], stored)
      else
        var (pages, text) := SizeStep(limit)(stored, a.table);
        if a.dies then (Take(pages, a.offered), stored) else (pages, text)
  }

  predicate Never(stored: Option<string>) {
    false
  }

  /** Any number of runs, any of which may have died, each resumed from the stored text. */
  function CrashWalk(stored: Option<string>, attempts: seq<Attempt>, limit: nat): Walked
    requires limit > 0
  {
    Steps(stored, attempts, Never, AttemptStep(limit))
  }

  /** The snapshots of the batches that were completed. */
  function Survivors(attempts: seq<Attempt>): seq<Snapshot> {
    if attempts == [] then []
    else (if attempts[0].dies then [] else [attempts[0].table]) + Survivors(attempts[1..])
  }

  /** What the completed batches handed over. */
  function Kept(attempts: seq<Attempt>, outputs: seq<seq<ReplicaPage>>): seq<seq<ReplicaPage>>
    requires |outputs| == |attempts|
  {
    if attempts == [] then []
    else (if attempts[0].dies then [] else [outputs[0]]) + Kept(attempts[1..], outputs[1..])
  }

  ghost predicate AllTables(attempts: seq<Attempt>) {
    forall a :: a in attempts ==> IsTable(a.table)
  }

  lemma {:induction false} OneOutputEach(stored: Option<string>, attempts: seq<Attempt>, limit: nat)
    requires limit > 0
    ensures |CrashWalk(stored, attempts, limit).outputs| == |attempts|
    decreases |attempts|
  {
    if attempts != [] {
      OneOutputEach(AttemptStep(limit)(stored, attempts[0]).1, attempts[1..], limit);
    }
  }

  /** A finished walk hands nothing more over. */
  lemma {:induction false} CompleteStays(stored: Option<string>, attempts: seq<Attempt>, limit: nat, w: Walked)
    requires limit > 0 && IsComplete(stored) && w == CrashWalk(stored, attempts, limit)
    ensures w.state == stored && |w.outputs| == |attempts|
    ensures forall i :: 0 <= i < |attempts| ==> w.outputs[i] == []
    ensures Concat(w.outputs) == [] && Concat(Kept(attempts, w.outputs)) == []
    decreases |attempts|
  {
    if attempts != [] {
      var rest := CrashWalk(stored, attempts[1..], limit);
      CompleteStays(stored, attempts[1..], limit, rest);
      assert w.outputs == [[]] + rest.outputs && w.outputs[1..] == rest.outputs;
      assert [] + Kept(attempts[1..], rest.outputs) == Kept(attempts[1..], rest.outputs);
    }
  }

  /** The first attempt, and the walk that goes on from the text it leaves. */
  lemma FirstAttempt(stored: Option<string>, attempts: seq<Attempt>, limit: nat, w: Walked,
                     pages: seq<ReplicaPage>, text: Option<string>, rest: Walked)
    requires limit > 0 && attempts != [] && w == CrashWalk(stored, attempts, limit)
    requires (pages, text) == AttemptStep(limit)(stored, attempts[0]) && rest == CrashWalk(text, attempts[1..], limit)
    ensures w.outputs == [pages] + rest.outputs && w.outputs[1..] == rest.outputs && w.state == rest.state
    ensures |w.outputs| == |attempts| && |rest.outputs| == |attempts| - 1
  {
    OneOutputEach(stored, attempts, limit);
    OneOutputEach(text, attempts[1..], limit);
  }

  /** A crash changes nothing that is stored: the text is always the one the completed batches alone would have left, and
      they hand over what a walk without crashes over their snapshots would have. */
  lemma {:induction false} CrashFreeText(stored: Option<string>, attempts: seq<Attempt>, limit: nat, w: Walked)
    requires limit > 0 && w == CrashWalk(stored, attempts, limit) && |w.outputs| == |attempts|
    ensures w.state == SizeRun(stored, Survivors(attempts), limit).state
    ensures Concat(Kept(attempts, w.outputs)) == Concat(SizeRun(stored, Survivors(attempts), limit).outputs)
    decreases |attempts|
  {
    if IsComplete(stored) {
      CompleteStays(stored, attempts, limit, w);
    } else if attempts != [] {
      var (pages, text) := AttemptStep(limit)(stored, attempts[0]);
      var rest := CrashWalk(text, attempts[1..], limit);
      FirstAttempt(stored, attempts, limit, w, pages, text, rest);
      CrashFreeText(text, attempts[1..], limit, rest);
      if !attempts[0].dies {
        assert Survivors(attempts)[1..] == Survivors(attempts[1..]);
      } else {
        assert Survivors(attempts) == Survivors(attempts[1..]);
        assert Kept(attempts, w.outputs) == Kept(attempts[1..], rest.outputs);
      }
    }
  }

  /** Nothing stable is skipped, however often runs die: the completed batches hand over articles in strictly falling
      (length, id), and one that stayed put in their snapshots has been handed over or is still ahead of the stored
      cursor. */
  lemma CrashedWalkCovers(stored: Option<string>, attempts: seq<Attempt>, limit: nat, w: Walked, key: LengthCursor)
    requires limit > 0 && AreTables(Survivors(attempts)) && w == CrashWalk(stored, attempts, limit)
    requires |w.outputs| == |attempts| && !IsComplete(stored) && Decode(stored).None?
    requires forall table :: table in Survivors(attempts) ==> key in KeySet(table)
    ensures var handed := Keys(Concat(Kept(attempts, w.outputs)));
      && StrictlyRanked(handed, Heavier) && LongestFirst(Concat(Kept(attempts, w.outputs)))
      && (key in handed || (!IsComplete(w.state) && Past(Decode(w.state), key, Heavier)))
  {
    var free := SizeRun(stored, Survivors(attempts), limit);
    CrashFreeText(stored, attempts, limit, w);
    SizeRunCovers(stored, Survivors(attempts), limit, free, key);
    VisitedOfConcat(free.outputs);
  }

  /** Everything handed over lies behind the text it starts from. */
  lemma {:induction false} HandedBehindText(stored: Option<string>, attempts: seq<Attempt>, limit: nat, w: Walked, j: nat,
                                            page: ReplicaPage)
    requires limit > 0 && AllTables(attempts) && w == CrashWalk(stored, attempts, limit)
    requires j < |w.outputs| && page in w.outputs[j]
    ensures !IsComplete(stored) && Past(Decode(stored), KeyOf(page), Heavier)
    decreases |attempts|
  {
    OneOutputEach(stored, attempts, limit);
    if IsComplete(stored) {
      CompleteStays(stored, attempts, limit, w);
    } else {
      var (pages, text) := AttemptStep(limit)(stored, attempts[0]);
      var rest := CrashWalk(text, attempts[1..], limit);
      FirstAttempt(stored, attempts, limit, w, pages, text, rest);
      assert attempts[0] in attempts && forall a :: a in attempts[1..] ==> a in attempts;
      if j == 0 {
        AttemptBehind(stored, attempts[0], limit, pages, text, page);
      } else {
        HandedBehindText(text, attempts[1..], limit, rest, j - 1, page);
        LaterIsBehind(stored, attempts[0], limit, pages, text, page);
      }
    }
  }

  lemma AttemptBehind(stored: Option<string>, a: Attempt, limit: nat, pages: seq<ReplicaPage>, text: Option<string>,
                      page: ReplicaPage)
    requires limit > 0 && IsTable(a.table) && !IsComplete(stored) && (pages, text) == AttemptStep(limit)(stored, a)
    requires page in pages
    ensures Past(Decode(stored), KeyOf(page), Heavier)
  {
    var (batch, next) := SizeStep(limit)(stored, a.table);
    StepIsBatch(stored, a.table, limit, batch, next);
    var i :| 0 <= i < |batch| && batch[i] == page;
    assert Keys(batch)[i] in Keys(batch);
  }

  /** What lies behind the text an attempt leaves lies behind the one it found, and a completed batch is not behind it. */
  lemma LaterIsBehind(stored: Option<string>, a: Attempt, limit: nat, pages: seq<ReplicaPage>, text: Option<string>,
                      page: ReplicaPage)
    requires limit > 0 && IsTable(a.table) && !IsComplete(stored) && (pages, text) == AttemptStep(limit)(stored, a)
    requires !IsComplete(text) && Past(Decode(text), KeyOf(page), Heavier)
    ensures Past(Decode(stored), KeyOf(page), Heavier)
    ensures !a.dies ==> KeyOf(page) !in Keys(pages)
  {
    if !a.dies {
      StepIsBatch(stored, a.table, limit, pages, text);
      BehindBatch(KeySet(a.table), Decode(stored), limit, Keys(pages), KeyOf(page));
    }
  }

  lemma BehindBatch(keys: set<LengthCursor>, cursor: Option<LengthCursor>, limit: nat, batch: seq<LengthCursor>,
                    key: LengthCursor)
    requires limit > 0 && IsBatch(keys, cursor, limit, batch, Heavier) && |batch| == limit
    requires Past(Advance(cursor, batch), key, Heavier)
    ensures key !in batch && Past(cursor, key, Heavier)
  {
    var last := batch[|batch| - 1];
    assert last in batch && Heavier(last, key);
    forall i | 0 <= i < |batch| ensures batch[i] != key {
      assert i == |batch| - 1 || Heavier(batch[i], last);
    }
  }

  /** An article comes up twice only through a crash: of two batches that hand over the same (length, id), the earlier one
      died before its cursor was stored. Within a batch nothing comes up twice. */
  lemma {:induction false} RepeatsOnlyAfterCrash(stored: Option<string>, attempts: seq<Attempt>, limit: nat, w: Walked,
                                                 i: nat, j: nat, page: ReplicaPage, again: ReplicaPage)
    requires limit > 0 && AllTables(attempts) && w == CrashWalk(stored, attempts, limit) && |w.outputs| == |attempts|
    requires i < j < |attempts| && page in w.outputs[i] && again in w.outputs[j] && KeyOf(page) == KeyOf(again)
    ensures attempts[i].dies
    decreases |attempts|
  {
    if IsComplete(stored) {
      CompleteStays(stored, attempts, limit, w);
    } else {
      var (pages, text) := AttemptStep(limit)(stored, attempts[0]);
      var rest := CrashWalk(text, attempts[1..], limit);
      FirstAttempt(stored, attempts, limit, w, pages, text, rest);
      assert attempts[0] in attempts && forall a :: a in attempts[1..] ==> a in attempts;
      if i > 0 {
        RepeatsOnlyAfterCrash(text, attempts[1..], limit, rest, i - 1, j - 1, page, again);
      } else {
        HandedBehindText(text, attempts[1..], limit, rest, j - 1, again);
        LaterIsBehind(stored, attempts[0], limit, pages, text, again);
        var k :| 0 <= k < |pages| && pages[k] == page;
        assert Keys(pages)[k] == KeyOf(again);
      }
    }
  }

  lemma {:induction false} BatchHasNoRepeats(stored: Option<string>, attempts: seq<Attempt>, limit: nat, w: Walked, i: nat)
    requires limit > 0 && AllTables(attempts) && w == CrashWalk(stored, attempts, limit) && |w.outputs| == |attempts|
    requires i < |attempts|
    ensures StrictlyRanked(Keys(w.outputs[i]), Heavier)
    decreases |attempts|
  {
    if IsComplete(stored) {
      CompleteStays(stored, attempts, limit, w);
    } else {
      var (pages, text) := AttemptStep(limit)(stored, attempts[0]);
      var rest := CrashWalk(text, attempts[1..], limit);
      FirstAttempt(stored, attempts, limit, w, pages, text, rest);
      assert attempts[0] in attempts && forall a :: a in attempts[1..] ==> a in attempts;
      if i > 0 {
        BatchHasNoRepeats(text, attempts[1..], limit, rest, i - 1);
      } else {
        AttemptIsRanked(stored, attempts[0], limit, pages, text);
      }
    }
  }

  lemma AttemptIsRanked(stored: Option<string>, a: Attempt, limit: nat, pages: seq<ReplicaPage>, text: Option<string>)
    requires limit > 0 && IsTable(a.table) && !IsComplete(stored) && (pages, text) == AttemptStep(limit)(stored, a)
    ensures StrictlyRanked(Keys(pages), Heavier)
  {
    var (batch, next) := SizeStep(limit)(stored, a.table);
    StepIsBatch(stored, a.table, limit, batch, next);
    assert forall k :: 0 <= k < |pages| ==> Keys(pages)[k] == Keys(batch)[k];
  }

  /** The attempt handed the article over. */
  ghost predicate HandsOver(w: Walked, i: nat, key: LengthCursor) {
    i < |w.outputs| && key in Keys(w.outputs[i])
  }

  /** Two different batches handed the article over. */
  ghost predicate Repeats(w: Walked, key: LengthCursor) {
    exists i: nat, j: nat :: i < j && HandsOver(w, i, key) && HandsOver(w, j, key)
  }

  /** The stored text says that the walk is done with the article. */
  ghost predicate HasPassed(text: Option<string>, key: LengthCursor) {
    IsComplete(text) || !Past(Decode(text), key, Heavier)
  }

  /** `RepeatsOnlyAfterCrash` for keys. */
  lemma EarlierDied(stored: Option<string>, attempts: seq<Attempt>, limit: nat, w: Walked, i: nat, j: nat, key: LengthCursor)
    requires limit > 0 && AllTables(attempts) && w == CrashWalk(stored, attempts, limit) && |w.outputs| == |attempts|
    requires i < j && HandsOver(w, i, key) && HandsOver(w, j, key)
    ensures attempts[i].dies
  {
    var a :| 0 <= a < |w.outputs[i]| && Keys(w.outputs[i])[a] == key;
    var b :| 0 <= b < |w.outputs[j]| && Keys(w.outputs[j])[b] == key;
    RepeatsOnlyAfterCrash(stored, attempts, limit, w, i, j, w.outputs[i][a], w.outputs[j][b]);
  }

  /** What the completed batches handed over was handed over by one of them. */
  lemma {:induction false} KeptFromSurvivor(attempts: seq<Attempt>, outputs: seq<seq<ReplicaPage>>, key: LengthCursor)
    returns (i: nat)
    requires |outputs| == |attempts| && key in Keys(Concat(Kept(attempts, outputs)))
    ensures i < |attempts| && !attempts[i].dies && key in Keys(outputs[i])
  {
    var rest := Concat(Kept(attempts[1..], outputs[1..]));
    if !attempts[0].dies && key in Keys(outputs[0]) {
      i := 0;
    } else {
      assert key in Keys(rest) by {
        if !attempts[0].dies {
          assert Kept(attempts, outputs)[1..] == Kept(attempts[1..], outputs[1..]);
          assert Keys(outputs[0] + rest) == Keys(outputs[0]) + Keys(rest);
        } else {
          assert Kept(attempts, outputs) == Kept(attempts[1..], outputs[1..]);
        }
      }
      var k := KeptFromSurvivor(attempts[1..], outputs[1..], key);
      i := k + 1;
    }
  }

  /** The stored text never goes back to an article it has passed. */
  lemma {:induction false} PassedStays(stored: Option<string>, attempts: seq<Attempt>, limit: nat, w: Walked, key: LengthCursor)
    requires limit > 0 && AllTables(attempts) && w == CrashWalk(stored, attempts, limit) && HasPassed(stored, key)
    ensures HasPassed(w.state, key)
    decreases |attempts|
  {
    if IsComplete(stored) {
      CompleteStays(stored, attempts, limit, w);
    } else if attempts != [] {
      var (pages, text) := AttemptStep(limit)(stored, attempts[0]);
      var rest := CrashWalk(text, attempts[1..], limit);
      FirstAttempt(stored, attempts, limit, w, pages, text, rest);
      assert attempts[0] in attempts && forall a :: a in attempts[1..] ==> a in attempts;
      if !HasPassed(text, key) {
        LaterIsBehind(stored, attempts[0], limit, pages, text, ReplicaPage(key.pageId, 0, key.length));
      }
      PassedStays(text, attempts[1..], limit, rest, key);
    }
  }

  /** A completed batch puts the stored text past what it handed over. */
  lemma {:induction false} SurvivorPasses(stored: Option<string>, attempts: seq<Attempt>, limit: nat, w: Walked, i: nat,
                                          key: LengthCursor)
    requires limit > 0 && AllTables(attempts) && w == CrashWalk(stored, attempts, limit) && |w.outputs| == |attempts|
    requires HandsOver(w, i, key) && !attempts[i].dies
    ensures HasPassed(w.state, key)
    decreases |attempts|
  {
    if IsComplete(stored) {
      CompleteStays(stored, attempts, limit, w);
    } else {
      var (pages, text) := AttemptStep(limit)(stored, attempts[0]);
      var rest := CrashWalk(text, attempts[1..], limit);
      FirstAttempt(stored, attempts, limit, w, pages, text, rest);
      assert attempts[0] in attempts && forall a :: a in attempts[1..] ==> a in attempts;
      if i > 0 {
        SurvivorPasses(text, attempts[1..], limit, rest, i - 1, key);
      } else {
        if !HasPassed(text, key) {
          LaterIsBehind(stored, attempts[0], limit, pages, text, ReplicaPage(key.pageId, 0, key.length));
        }
        PassedStays(text, attempts[1..], limit, rest, key);
      }
    }
  }

  /** Exactly when an article that stays put comes up twice: a batch that handed it over died, and either the walk has
      passed it since, or a second batch that handed it over died too. */
  lemma RepeatsExactly(stored: Option<string>, attempts: seq<Attempt>, limit: nat, w: Walked, key: LengthCursor)
    requires limit > 0 && AllTables(attempts) && w == CrashWalk(stored, attempts, limit) && |w.outputs| == |attempts|
    requires !IsComplete(stored) && Decode(stored).None?
    requires forall a :: a in attempts ==> key in KeySet(a.table)
    ensures Repeats(w, key) <==> exists i: nat :: CutAndResumed(attempts, w, key, i)
  {
    if Repeats(w, key) {
      var i: nat, j: nat :| i < j && HandsOver(w, i, key) && HandsOver(w, j, key);
      EarlierDied(stored, attempts, limit, w, i, j, key);
      if !attempts[j].dies {
        SurvivorPasses(stored, attempts, limit, w, j, key);
      }
      assert CutAndResumed(attempts, w, key, i);
    }
    if i: nat :| CutAndResumed(attempts, w, key, i) {
      if HasPassed(w.state, key) {
        PassedRepeats(stored, attempts, limit, w, key, i);
      } else {
        var j: nat :| j != i && HandsOver(w, j, key) && attempts[j].dies;
        assert i < j || j < i;
      }
    }
  }

  /** Batch `i` handed the article over and died; since then the walk has passed the article, or another batch that
      handed it over died too. */
  ghost predicate CutAndResumed(attempts: seq<Attempt>, w: Walked, key: LengthCursor, i: nat)
    requires |w.outputs| == |attempts|
  {
    && HandsOver(w, i, key) && attempts[i].dies
    && (HasPassed(w.state, key) || exists j: nat :: j != i && HandsOver(w, j, key) && attempts[j].dies)
  }

  /** An article cut off with its batch comes up again by the time the walk has passed it. */
  lemma PassedRepeats(stored: Option<string>, attempts: seq<Attempt>, limit: nat, w: Walked, key: LengthCursor, i: nat)
    requires limit > 0 && AllTables(attempts) && w == CrashWalk(stored, attempts, limit) && |w.outputs| == |attempts|
    requires !IsComplete(stored) && Decode(stored).None? && HasPassed(w.state, key)
    requires forall a :: a in attempts ==> key in KeySet(a.table)
    requires HandsOver(w, i, key) && attempts[i].dies
    ensures Repeats(w, key)
  {
    SurvivorsAreAttempted(attempts);
    CrashedWalkCovers(stored, attempts, limit, w, key);
    var j := KeptFromSurvivor(attempts, w.outputs, key);
    assert HandsOver(w, j, key);
    if j < i {
      EarlierDied(stored, attempts, limit, w, j, i, key);
    }
    assert i < j;
  }

  lemma {:induction false} SurvivorsAreAttempted(attempts: seq<Attempt>)
    ensures forall table :: table in Survivors(attempts) ==> exists a :: a in attempts && a.table == table
  {
    if attempts != [] {
      SurvivorsAreAttempted(attempts[1..]);
      forall table | table in Survivors(attempts) ensures exists a :: a in attempts && a.table == table {
        if table in Survivors(attempts[1..]) {
          var a :| a in attempts[1..] && a.table == table;
          assert a in attempts;
        } else {
          assert attempts[0] in attempts;
        }
      }
    }
  }

  /** So over a walk that completes, the articles that stay put and come up twice are exactly those a dying batch had
      already handed over. */
  lemma CompleteWalkRepeats(stored: Option<string>, attempts: seq<Attempt>, limit: nat, w: Walked, key: LengthCursor)
    requires limit > 0 && AllTables(attempts) && w == CrashWalk(stored, attempts, limit) && |w.outputs| == |attempts|
    requires !IsComplete(stored) && Decode(stored).None? && IsComplete(w.state)
    requires forall a :: a in attempts ==> key in KeySet(a.table)
    ensures Repeats(w, key) <==> exists i: nat :: HandsOver(w, i, key) && attempts[i].dies
  {
    RepeatsExactly(stored, attempts, limit, w, key);
    if i: nat :| HandsOver(w, i, key) && attempts[i].dies {
      assert CutAndResumed(attempts, w, key, i);
    }
  }

  /** The smallest such walk: a wiki of one article, a run that dies after handing it over, and the run that finishes. */
  lemma RepeatingWalk(page: ReplicaPage, limit: nat)
    requires limit > 1 && page.length >= 0 && page.pageId >= 0
    ensures var attempts := [Attempt([page], 1, true), Attempt([page], 0, false)];
      var w := CrashWalk(None, attempts, limit);
      AllTables(attempts) && w.outputs == [[page], [page]] && IsComplete(w.state) && Repeats(w, KeyOf(page))
  {
    var a, b := Attempt([page], 1, true), Attempt([page], 0, false);
    assert [page][1..] == [] && Past(None, KeyOf(page), Heavier) && Behind([], None) == [];
    assert Behind([page], None) == [page] + [] == [page];
    assert Sort<ReplicaPage>([], HeavierPage) == [] && Sort([page], HeavierPage) == [page];
    assert Query([page], None, limit) == [page];
    assert SizeStep(limit)(None, [page]) == ([page], Some(COMPLETE));
    assert AttemptStep(limit)(None, a) == ([page], None) && AttemptStep(limit)(None, b) == ([page], Some(COMPLETE));
    var last := CrashWalk(None, [b], limit);
    assert [a, b][1..] == [b] && [b][1..] == [];
    FirstAttempt(None, [b], limit, last, [page], Some(COMPLETE), CrashWalk(Some(COMPLETE), [], limit));
    var w := CrashWalk(None, [a, b], limit);
    FirstAttempt(None, [a, b], limit, w, [page], None, last);
    assert w.outputs == [[page], [page]];
    assert Keys([page])[0] == KeyOf(page);
    assert HandsOver(w, 0, KeyOf(page)) && HandsOver(w, 1, KeyOf(page));
  }

  /* ---- The runs themselves ---- */

  /** One run of the backfill: the snapshots it gets through, and, if it dies, the one it dies on and how many of that
      batch's articles it has offered by then. */
  datatype Death = Death(table: Snapshot, offered: nat)

  datatype SizeRunPlan = SizeRunPlan(tables: seq<Snapshot>, death: Option<Death>)

  function Living(tables: seq<Snapshot>): seq<Attempt> {
    seq(|tables|, i requires 0 <= i < |tables| => Attempt(tables[i], 0, false))
  }

  function AttemptsOf(run: SizeRunPlan): seq<Attempt> {
    Living(run.tables) + if run.death.Some? then [Attempt(run.death.value.table, run.death.value.offered, true)] else []
  }

  function AllAttempts(runs: seq<SizeRunPlan>): seq<Attempt> {
    if runs == [] then [] else AttemptsOf(runs[0]) + AllAttempts(runs[1..])
  }

  /** Batches that all complete are the plain walk. */
  lemma {:induction false} LivingIsSizeRun(stored: Option<string>, tables: seq<Snapshot>, limit: nat, w: Walked, plain: Walked)
    requires limit > 0 && w == CrashWalk(stored, Living(tables), limit) && plain == SizeRun(stored, tables, limit)
    ensures w.state == plain.state && Concat(w.outputs) == Concat(plain.outputs)
    decreases |tables|
  {
    OneOutputEach(stored, Living(tables), limit);
    if IsComplete(stored) {
      CompleteStays(stored, Living(tables), limit, w);
    } else if tables != [] {
      var (pages, text) := AttemptStep(limit)(stored, Living(tables)[0]);
      assert Living(tables)[1..] == Living(tables[1..]);
      var rest, plainRest := CrashWalk(text, Living(tables[1..]), limit), SizeRun(text, tables[1..], limit);
      FirstAttempt(stored, Living(tables), limit, w, pages, text, rest);
      LivingIsSizeRun(text, tables[1..], limit, rest, plainRest);
      assert plain.outputs == [pages] + plainRest.outputs && plain.outputs[1..] == plainRest.outputs;
    }
  }

  lemma {:induction false} ConcatAppend<T>(a: seq<seq<T>>, b: seq<seq<T>>)
    ensures Concat(a + b) == Concat(a) + Concat(b)
  {
    if a == [] {
      assert a + b == b;
    } else {
      assert (a + b)[1..] == a[1..] + b;
      ConcatAppend(a[1..], b);
    }
  }

  /** The walk over `first` and then `second`, with what each hands over. */
  lemma CrashWalkSplit(stored: Option<string>, first: seq<Attempt>, second: seq<Attempt>, limit: nat, one: Walked, two: Walked)
    requires limit > 0 && one == CrashWalk(stored, first, limit) && two == CrashWalk(one.state, second, limit)
    ensures var both := CrashWalk(stored, first + second, limit);
      both.state == two.state && Concat(both.outputs) == Concat(one.outputs) + Concat(two.outputs)
  {
    StepsSplit(stored, first, second, Never, AttemptStep(limit));
    ConcatAppend(one.outputs, two.outputs);
  }

  /** The repository after attempts from the text `raw` and the queue `q`: the specification's text, and everything the
      attempts handed over, in order. */
  ghost predicate HasWalked(r: Repository, site: Site, q: Queue, raw: Option<string>, attempts: seq<Attempt>, limit: nat)
    requires limit > 0
    reads r
  {
    var w := CrashWalk(raw, attempts, limit);
    && StoredText(r, site.CursorKey()) == w.state
    && QueueOf(r) == HandOver(q, r.results, site.Offers(Concat(w.outputs)))
  }

  lemma OffersConcat(q: Queue, results: ResultTable, site: Site, one: seq<ReplicaPage>, two: seq<ReplicaPage>)
    ensures HandOver(q, results, site.Offers(one + two))
      == HandOver(HandOver(q, results, site.Offers(one)), results, site.Offers(two))
  {
    OffersAppend(site, one, two);
    HandOverAppend(q, results, site.Offers(one), site.Offers(two));
  }

  /** What a walk of completed batches did is what the plain walk did. */
  lemma LivingHasWalked(r: Repository, site: Site, q: Queue, raw: Option<string>, tables: seq<Snapshot>, limit: nat,
                        handed: seq<seq<ReplicaPage>>)
    requires limit > 0 && IsSizeRun(raw, tables, limit, handed, StoredText(r, site.CursorKey()))
    requires QueueOf(r) == HandOver(q, r.results, site.Offers(Concat(handed)))
    ensures HasWalked(r, site, q, raw, Living(tables), limit)
  {
    LivingIsSizeRun(raw, tables, limit, CrashWalk(raw, Living(tables), limit), SizeRun(raw, tables, limit));
  }

  lemma DyingAttempt(stored: Option<string>, death: Death, limit: nat, offered: seq<ReplicaPage>)
    requires limit > 0 && !IsComplete(stored) && offered == Take(Query(death.table, Decode(stored), limit), death.offered)
    ensures CrashWalk(stored, [Attempt(death.table, death.offered, true)], limit) == Progress([offered], stored)
  {
    var a := Attempt(death.table, death.offered, true);
    var attempts := [a];
    assert SizeStep(limit)(stored, a.table).0 == Query(a.table, Decode(stored), limit);
    assert AttemptStep(limit)(stored, a) == (offered, stored);
    FirstAttempt(stored, attempts, limit, CrashWalk(stored, attempts, limit), offered, stored, CrashWalk(stored, [], limit));
    assert attempts[1..] == [];
  }

  /** One attempt that dies adds what it offered and leaves the text. */
  lemma DyingStep(raw: Option<string>, before: seq<Attempt>, death: Death, limit: nat, one: Walked, offered: seq<ReplicaPage>)
    requires limit > 0 && one == CrashWalk(raw, before, limit) && !IsComplete(one.state)
    requires offered == Take(Query(death.table, Decode(one.state), limit), death.offered)
    ensures var w := CrashWalk(raw, before + [Attempt(death.table, death.offered, true)], limit);
      w.state == one.state && Concat(w.outputs) == Concat(one.outputs) + offered
  {
    DyingAttempt(one.state, death, limit, offered);
    CrashWalkSplit(raw, before, [Attempt(death.table, death.offered, true)], limit, one, Progress([offered], one.state));
    assert Concat([offered]) == offered;
  }

  /** A batch that dies: read, the first `offered` articles handed over, and nothing stored. */
  method DyingBatch(r: Repository, site: Site, ghost q: Queue, ghost raw: Option<string>, ghost before: seq<Attempt>,
                    death: Death, cursor: Option<LengthCursor>, limit: nat)
    requires r.Valid() && limit > 0 && IsTable(death.table) && HasWalked(r, site, q, raw, before, limit)
    requires !IsComplete(StoredText(r, site.CursorKey())) && cursor == Decode(StoredText(r, site.CursorKey()))
    modifies r`work, r`nextWork
    ensures r.Valid() && HasWalked(r, site, q, raw, before + [Attempt(death.table, death.offered, true)], limit)
  {
    var pages, next := PagesByDescendingLength(death.table, cursor, limit);
    var offered := Take(pages, death.offered);
    ghost var one := CrashWalk(raw, before, limit);
    DyingStep(raw, before, death, limit, one, offered);
    OffersConcat(q, r.results, site, Concat(one.outputs), offered);
    var _ := EnqueuePages(r, site, offered);
  }

  /** One run, from the stored text to its end or its death. */
  method BackfillRun(r: Repository, site: Site, run: SizeRunPlan, limit: nat)
    requires r.Valid() && limit > 0 && AreTables(run.tables) && (run.death.Some? ==> IsTable(run.death.value.table))
    modifies r`work, r`nextWork, r`state
    ensures r.Valid() && HasWalked(r, site, old(QueueOf(r)), old(StoredText(r, site.CursorKey())), AttemptsOf(run), limit)
  {
    ghost var q, raw := QueueOf(r), StoredText(r, site.CursorKey());
    var stored := r.GetState(site.CursorKey());
    if stored == Some(COMPLETE) {
      CompleteStays(raw, AttemptsOf(run), limit, CrashWalk(raw, AttemptsOf(run), limit));
      return;
    }
    var _, cursor, done, handed := WalkBatches(r, site, run.tables, limit);
    LivingHasWalked(r, site, q, raw, run.tables, limit, handed);
    if run.death.Some? {
      if done {
        DeathAfterEnd(r, site, q, raw, Living(run.tables), [Attempt(run.death.value.table, run.death.value.offered, true)], limit);
      } else {
        DyingBatch(r, site, q, raw, Living(run.tables), run.death.value, cursor, limit);
      }
    } else {
      assert Living(run.tables) + [] == Living(run.tables);
    }
  }

  /** A complete walk attempts nothing more. */
  lemma DeathAfterEnd(r: Repository, site: Site, q: Queue, raw: Option<string>, before: seq<Attempt>, more: seq<Attempt>, limit: nat)
    requires limit > 0 && HasWalked(r, site, q, raw, before, limit) && IsComplete(StoredText(r, site.CursorKey()))
    ensures HasWalked(r, site, q, raw, before + more, limit)
  {
    var one := CrashWalk(raw, before, limit);
    var two := CrashWalk(one.state, more, limit);
    CompleteStays(one.state, more, limit, two);
    CrashWalkSplit(raw, before, more, limit, one, two);
    assert Concat(one.outputs) + Concat(two.outputs) == Concat(one.outputs);
  }

  /** Any number of runs, any of which dies: together they hand over exactly what the walk of all their attempts does, and
      leave its text. */
  method BackfillRuns(r: Repository, site: Site, runs: seq<SizeRunPlan>, limit: nat)
    requires r.Valid() && limit > 0
    requires forall run :: run in runs ==> AreTables(run.tables) && (run.death.Some? ==> IsTable(run.death.value.table))
    modifies r`work, r`nextWork, r`state
    ensures r.Valid() && HasWalked(r, site, old(QueueOf(r)), old(StoredText(r, site.CursorKey())), AllAttempts(runs), limit)
  {
    ghost var q, raw, gone := QueueOf(r), StoredText(r, site.CursorKey()), [];
    NothingWalked(r, site, q, raw, limit);
    for i := 0 to |runs|
      invariant r.Valid() && r.results == old(r.results) && gone == AllAttempts(runs[..i])
      invariant HasWalked(r, site, q, raw, gone, limit)
    {
      assert runs[i] in runs;
      ghost var q1, raw1 := QueueOf(r), StoredText(r, site.CursorKey());
      BackfillRun(r, site, runs[i], limit);
      RunsOn(r, site, q, raw, gone, q1, raw1, AttemptsOf(runs[i]), limit);
      OneMoreRun(runs, i);
      gone := gone + AttemptsOf(runs[i]);
    }
    assert runs[..|runs|] == runs;
  }

  lemma NothingWalked(r: Repository, site: Site, q: Queue, raw: Option<string>, limit: nat)
    requires limit > 0 && q == QueueOf(r) && raw == StoredText(r, site.CursorKey())
    ensures HasWalked(r, site, q, raw, [], limit)
  {
  }

  lemma RunsOn(r: Repository, site: Site, q: Queue, raw: Option<string>, before: seq<Attempt>, q1: Queue, raw1: Option<string>,
               more: seq<Attempt>, limit: nat)
    requires limit > 0 && HasWalked(r, site, q1, raw1, more, limit)
    requires var w := CrashWalk(raw, before, limit);
      raw1 == w.state && q1 == HandOver(q, r.results, site.Offers(Concat(w.outputs)))
    ensures HasWalked(r, site, q, raw, before + more, limit)
  {
    var one, two := CrashWalk(raw, before, limit), CrashWalk(raw1, more, limit);
    CrashWalkSplit(raw, before, more, limit, one, two);
    OffersConcat(q, r.results, site, Concat(one.outputs), Concat(two.outputs));
  }

  lemma {:induction false} OneMoreRun(runs: seq<SizeRunPlan>, i: nat)
    requires i < |runs|
    ensures AllAttempts(runs[..i + 1]) == AllAttempts(runs[..i]) + AttemptsOf(runs[i])
  {
    if i == 0 {
      assert runs[..1][1..] == [];
    } else {
      OneMoreRun(runs[1..], i - 1);
      assert runs[..i + 1][1..] == runs[1..][..i] && runs[..i][1..] == runs[1..][..i - 1];
    }
  }

  /* ---- Demand runs that die ---- */

  /** The articles a demand run offers for the lines it selected, up to its death. */
  function DemandOffers(lines: seq<Wanted>, death: Death): seq<ReplicaPage> {
    if lines == [] then [] else Take(StillArticles(death.table, PageIds(lines)), death.offered)
  }

  function AllDemandOffers(lines: seq<Wanted>, deaths: seq<Death>): seq<ReplicaPage> {
    if deaths == [] then []
    else AllDemandOffers(lines, deaths[..|deaths| - 1]) + DemandOffers(lines, deaths[|deaths| - 1])
  }

  /** A demand run that dies before the mark: some of the selected pages are handed over, and the ranking, which it does
      not write to, is as it was. */
  method DyingDemandBatch(r: Repository, site: Site, death: Death, limit: nat) returns (ghost lines: seq<Wanted>)
    requires r.Valid()
    modifies r`work, r`nextWork
    ensures r.Valid() && IsBatch(WaitingLines(r.demand, site.wiki), None, limit, lines, MoreWanted)
    ensures QueueOf(r) == HandOver(old(QueueOf(r)), r.results, site.Offers(DemandOffers(lines, death)))
  {
    var ranking := r.PendingDemand(site.wiki, limit);
    lines := ranking;
    if ranking != [] {
      var _ := EnqueuePages(r, site, Take(StillArticles(death.table, PageIds(ranking)), death.offered));
    }
  }

  /** However many runs die before the mark, each of them and the run that gets through select the very same lines: the
      top of the ranking, taken out of it once, by the run that marks it. */
  method DemandAfterDeaths(r: Repository, site: Site, deaths: seq<Death>, table: Snapshot, limit: nat, now: int,
                           ghost top: seq<Wanted>) returns (queued: nat, selected: nat)
    requires r.Valid() && IsBatch(WaitingLines(r.demand, site.wiki), None, limit, top, MoreWanted)
    modifies r`work, r`nextWork, r`demand
    ensures r.Valid() && selected == |top| && Taken(old(r.demand), r.demand, site.wiki, limit, top, now)
    ensures var last := if top == [] then [] else StillArticles(table, PageIds(top));
      QueueOf(r) == HandOver(HandOver(old(QueueOf(r)), r.results, site.Offers(AllDemandOffers(top, deaths))),
                             r.results, site.Offers(last))
  {
    MoreWantedIsStrict();
    ghost var q := QueueOf(r);
    for i := 0 to |deaths|
      invariant r.Valid() && r.demand == old(r.demand) && r.results == old(r.results)
      invariant QueueOf(r) == HandOver(q, r.results, site.Offers(AllDemandOffers(top, deaths[..i])))
    {
      var lines := DyingDemandBatch(r, site, deaths[i], limit);
      BatchIsUnique(WaitingLines(r.demand, site.wiki), None, limit, lines, top, MoreWanted);
      assert deaths[..i + 1][..i] == deaths[..i];
      OffersConcat(q, r.results, site, AllDemandOffers(top, deaths[..i]), DemandOffers(top, deaths[i]));
    }
    assert deaths[..|deaths|] == deaths;
    ghost var lines;
    queued, selected, lines := DemandBatch(r, site, table, limit, now);
    BatchIsUnique(WaitingLines(old(r.demand), site.wiki), None, limit, lines, top, MoreWanted);
  }
}
