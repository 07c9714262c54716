/** The table of computed attributions: saving one, picking a page's latest, and dropping obsolete ones. */
module Results {
  import opened Base
  import opened WorkQueue

  datatype Answer = Answer(
    title: string,
    metric: string,
    contributors: seq<Contributor>,
    distinctContributors: int,
    countLimited: bool,
    countableTokens: int)

  datatype ResultRow = ResultRow(page: PageKey, revision: int, computedAt: int, answer: Answer)
  {
    predicate Names(page: PageKey, revision: int) {
      this.page == page && this.revision == revision
    }
  }

  type ResultTable = map<nat, ResultRow>

  /** The unique constraint on (wiki, page, revision, algorithm). */
  ghost predicate UniqueResults(t: ResultTable) {
    forall i, j :: i in t && j in t && t[i].Names(t[j].page, t[j].revision) ==> i == j
  }

  predicate HasResult(t: ResultTable, page: PageKey, revision: int) {
    exists id :: id in t && t[id].Names(page, revision)
  }

  function SaveTx(t: ResultTable, id: nat, row: ResultRow): ResultTable {
    if HasResult(t, row.page, row.revision)
    then map k | k in t :: if t[k].Names(row.page, row.revision) then row else t[k]
    else t[id := row]
  }

  /** `id` is what `ORDER BY computed_at DESC, id DESC LIMIT 1` returns for the page. */
  predicate IsLatest(t: ResultTable, page: PageKey, id: nat) {
    && id in t && t[id].page == page
    && forall j :: j in t && t[j].page == page ==>
         t[j].computedAt < t[id].computedAt || (t[j].computedAt == t[id].computedAt && j <= id)
  }

  /** The page has an answer computed at `since` or later. */
  ghost predicate ReadySince(t: ResultTable, page: PageKey, since: int) {
    exists id :: id in t && t[id].page == page && t[id].computedAt >= since
  }

  /** Older than the cutoff, and a strictly newer answer for the same page exists. */
  predicate Obsolete(t: ResultTable, cutoff: int, id: nat) {
    && id in t && t[id].computedAt < cutoff
    && exists j :: j in t && t[j].page == t[id].page && t[j].computedAt > t[id].computedAt
  }

  const CLEANUP_LIMIT := 10_000

  /** `doomed` may be what one cleanup selects: as many obsolete rows as the limit lets through, in no set order. */
  ghost predicate IsDoomed(t: ResultTable, cutoff: int, doomed: set<nat>) {
    var obsolete := set id | id in t && Obsolete(t, cutoff, id);
    doomed <= obsolete && |doomed| == Min(CLEANUP_LIMIT, |obsolete|)
  }

  lemma {:induction false} LatestOfRows(t: ResultTable, page: PageKey, rows: set<nat>) returns (id: nat)
    requires rows <= t.Keys && rows != {} && forall k :: k in rows ==> t[k].page == page
    ensures id in rows
    ensures forall j :: j in rows ==>
      t[j].computedAt < t[id].computedAt || (t[j].computedAt == t[id].computedAt && j <= id)
  {
    id :| id in rows;
    if rows != {id} {
      var best := LatestOfRows(t, page, rows - {id});
      if t[id].computedAt < t[best].computedAt || (t[id].computedAt == t[best].computedAt && id <= best) {
        id := best;
      }
    }
  }

  /** A page with an answer has a latest one. */
  lemma LatestExists(t: ResultTable, page: PageKey, some: nat) returns (id: nat)
    requires some in t && t[some].page == page
    ensures IsLatest(t, page, id)
  {
    var rows := set k | k in t && t[k].page == page;
    assert some in rows;
    id := LatestOfRows(t, page, rows);
  }

  /** The latest answer is the one that says since when the page has been ready. */
  lemma LatestIsReady(t: ResultTable, page: PageKey, id: nat, since: int)
    requires IsLatest(t, page, id)
    ensures ReadySince(t, page, since) <==> since <= t[id].computedAt
  {
  }

  /** Cleanup removes rows, and whatever its cutoff and its choice of rows, every page keeps the very same latest answer. */
  lemma CleanupKeepsLatest(t: ResultTable, cutoff: int, doomed: set<nat>, page: PageKey, id: nat)
    requires forall k :: k in doomed ==> Obsolete(t, cutoff, k)
    ensures IsLatest(t, page, id) <==> IsLatest(t - doomed, page, id)
  {
    if IsLatest(t - doomed, page, id) {
      var top := LatestExists(t, page, id);
      assert top !in doomed;
      assert top in t - doomed;
    }
  }

  /** A save takes the page's latest time back exactly when it overwrites that one latest answer with an earlier stamp. */
  lemma SaveLowersLatest(t: ResultTable, newId: nat, row: ResultRow, top: nat)
    requires newId !in t && UniqueResults(t) && IsLatest(t, row.page, top)
    ensures !ReadySince(SaveTx(t, newId, row), row.page, t[top].computedAt) <==>
      && t[top].revision == row.revision && row.computedAt < t[top].computedAt
      && forall j :: j in t && t[j].page == row.page && j != top ==> t[j].computedAt < t[top].computedAt
  {
    var u := SaveTx(t, newId, row);
    if t[top].revision != row.revision {
      assert u[top] == t[top];
    } else {
      assert u[top] == row;
      if j :| j in t && t[j].page == row.page && j != top && t[j].computedAt >= t[top].computedAt {
        assert u[j] == t[j];
      }
      assert forall j :: j in u && j != top ==> j in t && u[j] == t[j];
    }
  }

  /** Saving leaves one row for its key, holding what was saved, and touches no other key. */
  lemma SaveKeepsOnePerKey(t: ResultTable, newId: nat, row: ResultRow)
    requires newId !in t && UniqueResults(t)
    ensures var u := SaveTx(t, newId, row);
      && UniqueResults(u)
      && (exists id :: id in u && u[id] == row)
      && (forall k :: k in u && !u[k].Names(row.page, row.revision) ==> k in t && u[k] == t[k])
      && (forall k :: k in t && !t[k].Names(row.page, row.revision) ==> k in u && u[k] == t[k])
  {
    var u := SaveTx(t, newId, row);
    if HasResult(t, row.page, row.revision) {
      var id :| id in t && t[id].Names(row.page, row.revision);
      assert u[id] == row;
      forall i, j | i in u && j in u && u[i].Names(u[j].page, u[j].revision) ensures i == j {
        assert t[i].Names(t[j].page, t[j].revision);
      }
    } else {
      assert u[newId] == row;
    }
  }

  /** The page's answer for this revision computed at `at` or later is stored, or a strictly newer one is. */
  ghost predicate Delivered(t: ResultTable, page: PageKey, revision: int, at: int) {
    exists id :: id in t && t[id].page == page &&
      ((t[id].revision == revision && t[id].computedAt >= at) || t[id].computedAt > at)
  }

  lemma SaveKeepsDelivered(t: ResultTable, newId: nat, row: ResultRow, page: PageKey, revision: int, at: int)
    requires newId !in t && Delivered(t, page, revision, at)
    requires forall k :: k in t && t[k].Names(row.page, row.revision) ==> t[k].computedAt <= row.computedAt
    ensures Delivered(SaveTx(t, newId, row), page, revision, at)
  {
    var id :| id in t && t[id].page == page &&
      ((t[id].revision == revision && t[id].computedAt >= at) || t[id].computedAt > at);
    var u := SaveTx(t, newId, row);
    assert id in u && u[id].page == page && u[id].revision == t[id].revision && u[id].computedAt >= t[id].computedAt;
  }

  lemma CleanupKeepsDelivered(t: ResultTable, cutoff: int, doomed: set<nat>, page: PageKey, revision: int, at: int)
    requires forall k :: k in doomed ==> Obsolete(t, cutoff, k)
    requires Delivered(t, page, revision, at)
    ensures Delivered(t - doomed, page, revision, at)
  {
    var id :| id in t && t[id].page == page &&
      ((t[id].revision == revision && t[id].computedAt >= at) || t[id].computedAt > at);
    var top := LatestExists(t, page, id);
    assert top in t - doomed;
    if id in doomed {
      assert t[top].computedAt > t[id].computedAt;
    } else {
      assert id in t - doomed;
    }
  }
}
