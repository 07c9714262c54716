/** Keyset pagination over a table that changes between batches, for any key type and any strict order.

    `before(a, b)` says that `a` comes out ahead of `b`. A snapshot is the set of keys present when a batch is read. */
module Keyset {
  import opened Base
  import opened Sorting

  ghost predicate StrictOrder<K(!new)>(before: (K, K) -> bool) {
    && (forall a :: !before(a, a))
    && (forall a, b, c :: before(a, b) && before(b, c) ==> before(a, c))
    && (forall a, b :: a != b ==> before(a, b) || before(b, a))
  }

  /** `k` is strictly behind the cursor; without a cursor everything is. */
  predicate Past<K>(cursor: Option<K>, k: K, before: (K, K) -> bool) {
    cursor.None? || before(cursor.value, k)
  }

  /** What one keyset query returns: the first `limit` keys behind the cursor, in order. */
  ghost predicate IsBatch<K>(keys: set<K>, cursor: Option<K>, limit: nat, batch: seq<K>, before: (K, K) -> bool) {
    && StrictlyRanked(batch, before) && |batch| <= limit
    && (forall k :: k in batch ==> k in keys && Past(cursor, k, before))
    && (forall k :: k in keys && Past(cursor, k, before) && k !in batch ==>
          |batch| == limit && forall b :: b in batch ==> before(b, k))
  }

  function Advance<K>(cursor: Option<K>, batch: seq<K>): Option<K> {
    if batch == [] then cursor else Some(batch[|batch| - 1])
  }

  /** Where the walk stands after `batches`. */
  ghost function CursorAfter<K>(start: Option<K>, batches: seq<seq<K>>): Option<K>
    decreases |batches|
  {
    if batches == [] then start else CursorAfter(Advance(start, batches[0]), batches[1..])
  }

  ghost function Visited<K>(batches: seq<seq<K>>): seq<K> {
    if batches == [] then [] else batches[0] + Visited(batches[1..])
  }

  /** Each batch is a keyset query on its own snapshot, resumed where the one before it stopped. */
  ghost predicate IsWalk<K>(start: Option<K>, snapshots: seq<set<K>>, batches: seq<seq<K>>, limit: nat,
                            before: (K, K) -> bool)
    decreases |batches|
  {
    && |snapshots| == |batches|
    && (batches != [] ==>
          && IsBatch(snapshots[0], start, limit, batches[0], before)
          && IsWalk(Advance(start, batches[0]), snapshots[1..], batches[1..], limit, before))
  }

  /** Whatever happens to the table, the walk visits keys in strictly falling rank: none twice, none out of order,
      none at or ahead of where it started. */
  lemma {:induction false} WalkIsStrict<K(!new)>(start: Option<K>, snapshots: seq<set<K>>, batches: seq<seq<K>>,
                                                 limit: nat, before: (K, K) -> bool)
    requires StrictOrder(before) && IsWalk(start, snapshots, batches, limit, before)
    ensures StrictlyRanked(Visited(batches), before)
    ensures forall k :: k in Visited(batches) ==> Past(start, k, before)
    decreases |batches|
  {
    if batches != [] {
      WalkIsStrict(Advance(start, batches[0]), snapshots[1..], batches[1..], limit, before);
      BatchThenRest(start, batches[0], Visited(batches[1..]), before);
    }
  }

  lemma BatchThenRest<K(!new)>(cursor: Option<K>, batch: seq<K>, rest: seq<K>, before: (K, K) -> bool)
    requires StrictOrder(before) && StrictlyRanked(batch, before) && StrictlyRanked(rest, before)
    requires forall k :: k in batch ==> Past(cursor, k, before)
    requires forall k :: k in rest ==> Past(Advance(cursor, batch), k, before)
    ensures StrictlyRanked(batch + rest, before)
    ensures forall k :: k in batch + rest ==> Past(cursor, k, before)
  {
    if batch != [] {
      var last := batch[|batch| - 1];
      assert last in batch;
      forall i, j | 0 <= i < j < |batch + rest| ensures before((batch + rest)[i], (batch + rest)[j]) {
        if i < |batch| <= j {
          assert rest[j - |batch|] in rest;
          assert i == |batch| - 1 || before(batch[i], last);
        }
      }
    } else {
      assert batch + rest == rest;
    }
  }

  /** A key that stays in the table is never skipped: it has been visited, or the walk has not reached it yet. */
  lemma {:induction false} StableKeyNotSkipped<K>(start: Option<K>, snapshots: seq<set<K>>, batches: seq<seq<K>>,
                                                  limit: nat, before: (K, K) -> bool, k: K)
    requires IsWalk(start, snapshots, batches, limit, before)
    requires Past(start, k, before) && forall keys :: keys in snapshots ==> k in keys
    ensures k in Visited(batches) || Past(CursorAfter(start, batches), k, before)
    decreases |batches|
  {
    if batches != [] {
      KeyAfterBatch(snapshots[0], start, limit, batches[0], before, k);
      if k !in batches[0] {
        StableKeyNotSkipped(Advance(start, batches[0]), snapshots[1..], batches[1..], limit, before, k);
      }
    }
  }

  lemma KeyAfterBatch<K>(keys: set<K>, cursor: Option<K>, limit: nat, batch: seq<K>, before: (K, K) -> bool, k: K)
    requires IsBatch(keys, cursor, limit, batch, before) && k in keys && Past(cursor, k, before)
    ensures k in batch || (|batch| == limit && Past(Advance(cursor, batch), k, before))
  {
    if batch != [] {
      assert batch[|batch| - 1] in batch;
    }
  }

  /** A short batch ends the walk: by then every key that stayed in the table has been visited. */
  lemma {:induction false} ShortBatchEndsWalk<K>(start: Option<K>, snapshots: seq<set<K>>, batches: seq<seq<K>>,
                                                 limit: nat, before: (K, K) -> bool, k: K)
    requires IsWalk(start, snapshots, batches, limit, before)
    requires batches != [] && |batches[|batches| - 1]| < limit
    requires Past(start, k, before) && forall keys :: keys in snapshots ==> k in keys
    ensures k in Visited(batches)
    decreases |batches|
  {
    KeyAfterBatch(snapshots[0], start, limit, batches[0], before, k);
    if k !in batches[0] {
      ShortBatchEndsWalk(Advance(start, batches[0]), snapshots[1..], batches[1..], limit, before, k);
    }
  }

  /* ---- Marking instead of a cursor ---- */

  function KeysOf<K>(batch: seq<K>): set<K> {
    set k | k in batch
  }

  /** A ranking consumed by taking its first keys out is consumed in order: what two reads take, the first from
      `keys` and the second from what the first left, is what one longer read would have taken. */
  lemma ConsecutiveReads<K(!new)>(keys: set<K>, m: nat, first: seq<K>, n: nat, second: seq<K>, before: (K, K) -> bool)
    requires StrictOrder(before)
    requires IsBatch(keys, None, m, first, before) && IsBatch(keys - KeysOf(first), None, n, second, before)
    ensures IsBatch(keys, None, m + n, first + second, before)
  {
    forall i, j | 0 <= i < j < |first + second| ensures before((first + second)[i], (first + second)[j]) {
      if i < |first| <= j {
        assert first[i] in first;
        assert second[j - |first|] in second;
      }
    }
    forall k | k in keys && k !in first + second
      ensures |first + second| == m + n && forall b :: b in first + second ==> before(b, k)
    {
      assert k !in first && k !in second;
    }
  }

  /** One ranking has only one first batch of a given size. */
  lemma BatchIsUnique<K(!new)>(keys: set<K>, cursor: Option<K>, limit: nat, a: seq<K>, b: seq<K>, before: (K, K) -> bool)
    requires StrictOrder(before)
    requires IsBatch(keys, cursor, limit, a, before) && IsBatch(keys, cursor, limit, b, before)
    ensures a == b
  {
    BatchWithin(keys, cursor, limit, a, b, before);
    BatchWithin(keys, cursor, limit, b, a, before);
    StrictRankingUnique(a, b, before);
  }

  lemma BatchWithin<K(!new)>(keys: set<K>, cursor: Option<K>, limit: nat, a: seq<K>, b: seq<K>, before: (K, K) -> bool)
    requires StrictOrder(before)
    requires IsBatch(keys, cursor, limit, a, before) && IsBatch(keys, cursor, limit, b, before)
    ensures forall k :: k in a ==> k in b
  {
    forall k | k in a ensures k in b {
      if k !in b {
        forall x | x in b ensures x in a {
          assert before(x, k);
        }
        DistinctCount(a, before);
        DistinctCount(b, before);
        assert KeysOf(b) <= KeysOf(a) - {k};
        SubsetSize(KeysOf(b), KeysOf(a) - {k});
      }
    }
  }

  lemma SubsetSize<K>(a: set<K>, b: set<K>)
    requires a <= b
    ensures |a| <= |b|
  {
    assert b == a + (b - a);
  }

  lemma {:induction false} DistinctCount<K(!new)>(batch: seq<K>, before: (K, K) -> bool)
    requires StrictOrder(before) && StrictlyRanked(batch, before)
    ensures |KeysOf(batch)| == |batch|
  {
    if batch != [] {
      var rest := batch[1..];
      DistinctCount(rest, before);
      assert KeysOf(batch) == {batch[0]} + KeysOf(rest);
    }
  }

  lemma SomeMember<K>(keys: set<K>) returns (k: K)
    requires keys != {}
    ensures k in keys
  {
    k :| k in keys;
  }

  lemma {:induction false} FirstKeyExists<K(!new)>(keys: set<K>, before: (K, K) -> bool) returns (first: K)
    requires StrictOrder(before) && keys != {}
    ensures first in keys && forall k :: k in keys ==> !before(k, first)
  {
    first :| first in keys;
    if better :| better in keys && before(better, first) {
      var rest := keys - {first};
      assert better in rest;
      first := FirstKeyExists(rest, before);
    }
  }

  /** `ORDER BY ... LIMIT limit`: the first keys in order, found one after the other. */
  method FirstKeys<K(==, !new)>(keys: set<K>, limit: nat, before: (K, K) -> bool) returns (batch: seq<K>)
    requires StrictOrder(before)
    ensures IsBatch(keys, None, limit, batch, before)
  {
    batch := [];
    var left := keys;
    while left != {} && |batch| < limit
      invariant |batch| <= limit && StrictlyRanked(batch, before)
      invariant left == keys - KeysOf(batch) && forall b :: b in batch ==> b in keys
      invariant forall b, k :: b in batch && k in left ==> before(b, k)
      decreases left
    {
      ghost var some := FirstKeyExists(left, before);
      var first :| first in left && forall k :: k in left ==> !before(k, first);
      batch, left := batch + [first], left - {first};
    }
    assert forall k :: k in keys && k !in batch ==> k in left;
  }
}
