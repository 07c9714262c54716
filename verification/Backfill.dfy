/** Backfilling a wiki: the demand ranking first, then the size walk, resumed from one run to the next.

    `tables` are the replica's successive snapshots, one for each batch a run reads. */
module Backfill {
  import opened Base
  import opened Sorting
  import opened Keyset
  import opened Replica
  import opened WorkQueue
  import opened Results
  import opened Repository
  import opened Resume
  import opened Handover

  type Snapshot = seq<ReplicaPage>

  /* ---- The size walk, run by run ---- */

  function CursorText(next: Option<LengthCursor>): string {
    if next.Some? then Encode(next.value) else COMPLETE
  }

  predicate IsComplete(stored: Option<string>) {
    stored == Some(COMPLETE)
  }

  /** One batch, resumed from the stored text: the articles handed over and the text stored next. */
  function SizeStep(limit: nat): (Option<string>, Snapshot) -> (seq<ReplicaPage>, Option<string>)
    requires limit > 0
  {
    (stored, table) =>
      var pages := Query(table, Decode(stored), limit);
      (pages, Some(CursorText(NextCursor(pages, limit))))
  }

  type Walked = Progress<Option<string>, seq<ReplicaPage>>

  /** One run of the size walk that lets every batch go through the stored text. */
  function SizeRun(stored: Option<string>, tables: seq<Snapshot>, limit: nat): Walked
    requires limit > 0
  {
    Steps(stored, tables, IsComplete, SizeStep(limit))
  }

  /** One run a day. */
  function SizeRuns(stored: Option<string>, days: seq<seq<Snapshot>>, limit: nat): Walked
    requires limit > 0
  {
    Runs(stored, days, IsComplete, SizeStep(limit))
  }

  /** The text a batch stores gives the cursor back, and marks the walk complete only when there is no cursor. */
  lemma NextSurvivesStorage(table: Snapshot, cursor: Option<LengthCursor>, limit: nat)
    requires limit > 0 && IsTable(table)
    ensures var next := NextCursor(Query(table, cursor, limit), limit);
      && (next.Some? ==> Decode(Some(CursorText(next))) == next)
      && (IsComplete(Some(CursorText(next))) <==> next.None?)
  {
    var pages := Query(table, cursor, limit);
    QueryIsBatch(table, cursor, limit);
    if |pages| == limit {
      var last := pages[|pages| - 1];
      assert last in pages;
      CursorRoundTrip(KeyOf(last));
      CompleteIsNoCursor(KeyOf(last));
    }
  }

  /* ---- What the walk covers ---- */

  ghost function KeyBatches(batches: seq<seq<ReplicaPage>>): seq<seq<LengthCursor>> {
    if batches == [] then [] else [Keys(batches[0])] + KeyBatches(batches[1..])
  }

  ghost function KeySets(tables: seq<Snapshot>): seq<set<LengthCursor>> {
    if tables == [] then [] else [KeySet(tables[0])] + KeySets(tables[1..])
  }

  ghost predicate AreTables(tables: seq<Snapshot>) {
    forall table :: table in tables ==> IsTable(table)
  }

  /** A batch resumed from the stored text is a keyset batch; unless it came back short, the text it stores is the
      cursor the keyset walk goes on with. */
  lemma StepIsBatch(stored: Option<string>, table: Snapshot, limit: nat, pages: seq<ReplicaPage>, text: Option<string>)
    requires limit > 0 && IsTable(table) && (pages, text) == SizeStep(limit)(stored, table)
    ensures IsBatch(KeySet(table), Decode(stored), limit, Keys(pages), Heavier)
    ensures |Keys(pages)| == |pages| && (IsComplete(text) <==> |pages| < limit)
    ensures !IsComplete(text) ==> Decode(text) == Advance(Decode(stored), Keys(pages))
  {
    QueryIsBatch(table, Decode(stored), limit);
    NextSurvivesStorage(table, Decode(stored), limit);
  }

  /** A run of the size walk, read as a keyset walk over the snapshots it used. */
  ghost predicate Walks(stored: Option<string>, tables: seq<Snapshot>, limit: nat, w: Walked)
    requires limit > 0
  {
    && |w.outputs| <= |tables|
    && IsWalk(Decode(stored), KeySets(tables[..|w.outputs|]), KeyBatches(w.outputs), limit, Heavier)
  }

  lemma FirstOfWalk(stored: Option<string>, tables: seq<Snapshot>, limit: nat, pages: seq<ReplicaPage>,
                    text: Option<string>, w: Walked, rest: Walked)
    requires limit > 0 && tables != []
    requires IsBatch(KeySet(tables[0]), Decode(stored), limit, Keys(pages), Heavier)
    requires rest.outputs == [] || Decode(text) == Advance(Decode(stored), Keys(pages))
    requires Walks(text, tables[1..], limit, rest)
    requires w.outputs == [pages] + rest.outputs
    ensures Walks(stored, tables, limit, w)
  {
    var n := |w.outputs|;
    assert w.outputs[1..] == rest.outputs;
    assert tables[..n][0] == tables[0] && tables[..n][1..] == tables[1..][..n - 1];
  }

  lemma {:induction false} RunIsWalk(stored: Option<string>, tables: seq<Snapshot>, limit: nat, w: Walked)
    requires limit > 0 && AreTables(tables) && w == SizeRun(stored, tables, limit)
    ensures Walks(stored, tables, limit, w)
    decreases |tables|
  {
    if tables != [] && !IsComplete(stored) {
      assert tables[0] in tables;
      var (pages, text) := SizeStep(limit)(stored, tables[0]);
      var rest := SizeRun(text, tables[1..], limit);
      StepIsBatch(stored, tables[0], limit, pages, text);
      RunIsWalk(text, tables[1..], limit, rest);
      FirstOfWalk(stored, tables, limit, pages, text, w, rest);
    }
  }

  lemma {:induction false} CompleteRunEndsShort(stored: Option<string>, tables: seq<Snapshot>, limit: nat, w: Walked)
    requires limit > 0 && AreTables(tables) && w == SizeRun(stored, tables, limit)
    requires !IsComplete(stored) && IsComplete(w.state)
    ensures w.outputs != [] && |w.outputs[|w.outputs| - 1]| < limit
    decreases |tables|
  {
    assert tables[0] in tables;
    var (pages, text) := SizeStep(limit)(stored, tables[0]);
    StepIsBatch(stored, tables[0], limit, pages, text);
    var rest := SizeRun(text, tables[1..], limit);
    assert w.outputs == [pages] + rest.outputs && w.state == rest.state;
    if !IsComplete(text) {
      CompleteRunEndsShort(text, tables[1..], limit, rest);
    } else {
      assert rest.outputs == [];
    }
  }

  lemma {:induction false} StoredIsCursor(stored: Option<string>, tables: seq<Snapshot>, limit: nat, w: Walked)
    requires limit > 0 && AreTables(tables) && w == SizeRun(stored, tables, limit) && !IsComplete(w.state)
    ensures CursorAfter(Decode(stored), KeyBatches(w.outputs)) == Decode(w.state)
    decreases |tables|
  {
    if tables != [] && !IsComplete(stored) {
      assert tables[0] in tables;
      var (pages, text) := SizeStep(limit)(stored, tables[0]);
      StepIsBatch(stored, tables[0], limit, pages, text);
      var rest := SizeRun(text, tables[1..], limit);
      assert w.outputs == [pages] + rest.outputs && w.state == rest.state;
      StoredIsCursor(text, tables[1..], limit, rest);
    }
  }

  /** Keys listed batch by batch depend only on the pages in order. */
  lemma {:induction false} VisitedOfConcat(batches: seq<seq<ReplicaPage>>)
    ensures Visited(KeyBatches(batches)) == Keys(Concat(batches))
  {
    if batches != [] {
      VisitedOfConcat(batches[1..]);
      assert Keys(batches[0] + Concat(batches[1..])) == Keys(batches[0]) + Keys(Concat(batches[1..]));
    }
  }

  /** A run of the size walk from the top, with pages created, deleted and resized between batches: articles come in
      strictly falling order of (length, id), and one whose length and identifier stayed put has been handed over, or
      is still ahead of the stored cursor. */
  lemma SizeRunCovers(stored: Option<string>, tables: seq<Snapshot>, limit: nat, w: Walked, key: LengthCursor)
    requires limit > 0 && AreTables(tables) && w == SizeRun(stored, tables, limit)
    requires !IsComplete(stored) && Decode(stored).None?
    requires forall table :: table in tables ==> key in KeySet(table)
    ensures var handed := Visited(KeyBatches(w.outputs));
      && StrictlyRanked(handed, Heavier) && LongestFirst(Concat(w.outputs))
      && (key in handed || (!IsComplete(w.state) && Past(Decode(w.state), key, Heavier)))
  {
    RunIsWalk(stored, tables, limit, w);
    var seen, keys := tables[..|w.outputs|], KeyBatches(w.outputs);
    KeySetsOf(seen, key);
    WalkIsStrict(None, KeySets(seen), keys, limit, Heavier);
    VisitedOfConcat(w.outputs);
    RankedFalls(Concat(w.outputs));
    if IsComplete(w.state) {
      CompleteRunEndsShort(stored, tables, limit, w);
      LastKeys(w.outputs);
      ShortBatchEndsWalk(None, KeySets(seen), keys, limit, Heavier, key);
    } else {
      StableKeyNotSkipped(None, KeySets(seen), keys, limit, Heavier, key);
      StoredIsCursor(stored, tables, limit, w);
    }
  }

  /** The same over any number of runs of any lengths, each resumed from the text the one before stored: nothing stable
      is skipped and nothing handed over twice, and once the walk is complete every stable article has been. */
  lemma BackfillCovers(days: seq<seq<Snapshot>>, limit: nat, w: Walked, key: LengthCursor)
    requires limit > 0 && AreTables(Concat(days)) && w == SizeRuns(None, days, limit)
    requires forall table :: table in Concat(days) ==> key in KeySet(table)
    ensures var handed := Visited(KeyBatches(w.outputs));
      && StrictlyRanked(handed, Heavier) && LongestFirst(Concat(w.outputs))
      && (key in handed || (!IsComplete(w.state) && Past(Decode(w.state), key, Heavier)))
  {
    RunsAreOneRun<Option<string>, Snapshot, seq<ReplicaPage>>(None, days, IsComplete, SizeStep(limit));
    SizeRunCovers(None, Concat(days), limit, w, key);
  }

  lemma {:induction false} LastKeys(batches: seq<seq<ReplicaPage>>)
    requires batches != []
    ensures var keys := KeyBatches(batches);
      |keys| == |batches| && |keys[|keys| - 1]| == |batches[|batches| - 1]|
  {
    if |batches| > 1 {
      LastKeys(batches[1..]);
    }
  }

  lemma {:induction false} KeySetsOf(tables: seq<Snapshot>, key: LengthCursor)
    requires forall table :: table in tables ==> key in KeySet(table)
    ensures forall keys :: keys in KeySets(tables) ==> key in keys
  {
    if tables != [] {
      assert tables[0] in tables;
      KeySetsOf(tables[1..], key);
    }
  }

  /* ---- Demand ---- */

  /** Marking the pages of some waiting lines takes exactly those lines out of the ranking. */
  lemma MarkingTakesOut(t: DemandTable, wiki: string, lines: seq<Wanted>, now: int)
    requires forall line :: line in lines ==> line in WaitingLines(t, wiki)
    ensures WaitingLines(MarkQueued(t, wiki, PageIds(lines), now), wiki) == WaitingLines(t, wiki) - KeysOf(lines)
  {
    var u := MarkQueued(t, wiki, PageIds(lines), now);
    forall page | page in t && page.wiki == wiki
      ensures page.pageId in PageIds(lines) <==> WantedLine(t, page) in lines
    {
      if WantedLine(t, page) in lines {
        var i :| 0 <= i < |lines| && lines[i] == WantedLine(t, page);
        assert PageIds(lines)[i] == page.pageId;
      }
      if page.pageId in PageIds(lines) {
        var i :| 0 <= i < |lines| && PageIds(lines)[i] == page.pageId;
        assert lines[i] in lines;
        var other :| other in t && Waiting(t, wiki, other) && WantedLine(t, other) == lines[i];
        assert other == page;
      }
    }
    forall line ensures line in WaitingLines(u, wiki) <==> line in WaitingLines(t, wiki) && line !in KeysOf(lines) {
      if line in WaitingLines(u, wiki) {
        var page :| page in u && Waiting(u, wiki, page) && WantedLine(u, page) == line;
        assert Waiting(t, wiki, page) && WantedLine(t, page) == line;
      }
      if line in WaitingLines(t, wiki) && line !in KeysOf(lines) {
        var page :| page in t && Waiting(t, wiki, page) && WantedLine(t, page) == line;
        assert Waiting(u, wiki, page) && WantedLine(u, page) == line;
      }
    }
  }

  lemma MoreWantedIsStrict()
    ensures StrictOrder(MoreWanted)
  {
  }

  /** Marking in two goes is marking once. */
  lemma MarkTwice(t: DemandTable, wiki: string, first: seq<Wanted>, second: seq<Wanted>, now: int)
    ensures MarkQueued(MarkQueued(t, wiki, PageIds(first), now), wiki, PageIds(second), now)
      == MarkQueued(t, wiki, PageIds(first + second), now)
  {
    assert PageIds(first + second) == PageIds(first) + PageIds(second);
  }

  /* ---- The job ---- */

  datatype Call = Call(rival: Option<Rival>, now: int)

  /** One wiki's backfill, and what each page's enqueue will meet: the clock, and a rival if there is one. */
  datatype Site = Site(wiki: string, algorithm: string, freshness: int, call: ReplicaPage -> Call)
  {
    function OfferOf(page: ReplicaPage): Offer {
      Offer(PageKey(wiki, page.pageId, algorithm), page.revisionId, BACKFILL_PRIORITY, freshness,
            call(page).rival, call(page).now)
    }

    function Offers(pages: seq<ReplicaPage>): seq<Offer> {
      seq(|pages|, i requires 0 <= i < |pages| => OfferOf(pages[i]))
    }

    function CursorKey(): string {
      "backfill:" + wiki + ":length-cursor"
    }
  }

  const BACKFILL_PRIORITY := 10

  function StoredText(r: Repository, key: string): Option<string>
    reads r
  {
    if key in r.state then Some(r.state[key]) else None
  }

  lemma OneMorePage(site: Site, pages: seq<ReplicaPage>, i: nat)
    requires i < |pages|
    ensures site.Offers(pages[..i + 1]) == site.Offers(pages[..i]) + [site.OfferOf(pages[i])]
  {
  }

  method EnqueuePages(r: Repository, site: Site, pages: seq<ReplicaPage>) returns (queued: nat)
    requires r.Valid()
    modifies r`work, r`nextWork
    ensures r.Valid() && QueueOf(r) == HandOver(old(QueueOf(r)), r.results, site.Offers(pages))
    ensures queued == TakenCount(old(QueueOf(r)), r.results, site.Offers(pages))
    ensures forall id :: id in r.work && id !in old(r.work) ==> r.work[id].priority == 10
    ensures OneRowPerPage(pages) ==> AllAttended(r.work, r.results, site, pages)
  {
    queued := 0;
    ghost var q, offers := QueueOf(r), [];
    for i := 0 to |pages|
      invariant r.Valid() && offers == site.Offers(pages[..i])
      invariant QueueOf(r) == HandOver(q, r.results, offers) && queued == TakenCount(q, r.results, offers)
    {
      var o := site.OfferOf(pages[i]);
      OneMorePage(site, pages, i);
      TakenOne(q, r.results, offers, o);
      var isQueued := r.EnqueueIfStale(o.page, o.revision, o.priority, o.freshness, o.rival, o.now);
      offers := offers + [o];
      if isQueued {
        queued := queued + 1;
      }
    }
    assert pages[..|pages|] == pages;
    OffersAtPriority(q, r.results, offers, BACKFILL_PRIORITY);
    if OneRowPerPage(pages) {
      PagesAttended(q, r.results, site, pages);
    }
  }

  /** Every page is attended to at the revision the replica has, on an answer no older than the freshness window. */
  ghost predicate AllAttended(t: WorkTable, results: ResultTable, site: Site, pages: seq<ReplicaPage>) {
    forall page :: page in pages ==>
      IsAttended(t, results, PageKey(site.wiki, page.pageId, site.algorithm), page.revisionId,
                 site.call(page).now - site.freshness)
  }

  lemma PagesAttended(q: Queue, results: ResultTable, site: Site, pages: seq<ReplicaPage>)
    requires IdsBelow(q) && OneRowPerPage(pages)
    ensures AllAttended(HandOver(q, results, site.Offers(pages)).work, results, site, pages)
  {
    var after, offers := HandOver(q, results, site.Offers(pages)), site.Offers(pages);
    forall page | page in pages
      ensures IsAttended(after.work, results, PageKey(site.wiki, page.pageId, site.algorithm), page.revisionId,
                         site.call(page).now - site.freshness)
    {
      var i :| 0 <= i < |pages| && pages[i] == page;
      forall j | i < j < |offers| ensures offers[j].page != offers[i].page {
        assert pages[i].pageId != pages[j].pageId;
      }
      HandOverAttendsAll(q, results, offers, i);
      AttendedIs(after, results, offers[i]);
    }
  }

  /** `latest_revisions`: the wanted pages that are still articles. */
  function StillArticles(table: Snapshot, pageIds: seq<int>): seq<ReplicaPage> {
    if table == [] then []
    else (if table[0].pageId in pageIds then [table[0]] else []) + StillArticles(table[1..], pageIds)
  }

  lemma {:induction false} StillArticlesAre(table: Snapshot, pageIds: seq<int>)
    ensures forall page :: page in StillArticles(table, pageIds) <==> page in table && page.pageId in pageIds
    ensures OneRowPerPage(table) ==> OneRowPerPage(StillArticles(table, pageIds))
  {
    if table != [] {
      StillArticlesAre(table[1..], pageIds);
    }
  }

  /** `taken` are the first `count` lines of the ranking as it was, or all of it, and exactly they have been marked since. */
  ghost predicate Taken(before: DemandTable, t: DemandTable, wiki: string, count: nat, taken: seq<Wanted>, now: int) {
    && IsBatch(WaitingLines(before, wiki), None, count, taken, MoreWanted)
    && t == MarkQueued(before, wiki, PageIds(taken), now)
    && WaitingLines(t, wiki) == WaitingLines(before, wiki) - KeysOf(taken)
  }

  /** Hands over the wanted pages that are still articles. */
  method HandArticles(r: Repository, site: Site, table: Snapshot, pageIds: seq<int>) returns (queued: nat)
    requires r.Valid()
    modifies r`work, r`nextWork
    ensures r.Valid()
    ensures var offers := site.Offers(StillArticles(table, pageIds));
      QueueOf(r) == HandOver(old(QueueOf(r)), r.results, offers) && queued == TakenCount(old(QueueOf(r)), r.results, offers)
    ensures OneRowPerPage(table) ==> AllAttended(r.work, r.results, site, StillArticles(table, pageIds))
  {
    StillArticlesAre(table, pageIds);
    queued := EnqueuePages(r, site, StillArticles(table, pageIds));
  }

  /** Hands over the top of the demand ranking and takes all of it out, the pages the replica dropped included. */
  method DemandBatch(r: Repository, site: Site, table: Snapshot, limit: nat, now: int)
    returns (queued: nat, selected: nat, ghost lines: seq<Wanted>)
    requires r.Valid()
    modifies r`work, r`nextWork, r`demand
    ensures r.Valid() && selected == |lines|
    ensures Taken(old(r.demand), r.demand, site.wiki, limit, lines, now)
    ensures var offers := site.Offers(if lines == [] then [] else StillArticles(table, PageIds(lines)));
      QueueOf(r) == HandOver(old(QueueOf(r)), r.results, offers) && queued == TakenCount(old(QueueOf(r)), r.results, offers)
    ensures OneRowPerPage(table) ==> AllAttended(r.work, r.results, site, StillArticles(table, PageIds(lines)))
  {
    var ranking := r.PendingDemand(site.wiki, limit);
    lines := ranking;
    MarkingTakesOut(r.demand, site.wiki, ranking, now);
    if ranking == [] {
      StillArticlesAre(table, []);
      return 0, 0, lines;
    }
    queued := HandArticles(r, site, table, PageIds(ranking));
    var _ := r.MarkDemandQueued(site.wiki, PageIds(ranking), now);
    selected := |ranking|;
  }

  /** One more batch of the ranking as it was `before`. */
  method TakeBatch(r: Repository, site: Site, table: Snapshot, limit: nat, now: int, ghost before: DemandTable,
                   ghost count: nat, ghost taken: seq<Wanted>)
    returns (queued: nat, selected: nat, ghost lines: seq<Wanted>)
    requires r.Valid() && limit > 0 && Taken(before, r.demand, site.wiki, count, taken, now)
    modifies r`work, r`nextWork, r`demand
    ensures r.Valid() && selected == |lines|
    ensures Taken(before, r.demand, site.wiki, count + limit, taken + lines, now)
    ensures selected == 0 ==> r.demand == old(r.demand) && WaitingLines(r.demand, site.wiki) == {}
  {
    queued, selected, lines := DemandBatch(r, site, table, limit, now);
    TakesMore(before, old(r.demand), r.demand, site.wiki, count, taken, limit, lines, now);
  }

  /** Works down the ranking. The batches together select exactly what one reading of the ranking, as long as the
      batches spent, would have selected; and only an empty ranking stops it early. */
  method BackfillByDemand(r: Repository, site: Site, tables: seq<Snapshot>, batches: int, limit: nat, now: int)
    returns (queued: nat, spent: nat, ghost taken: seq<Wanted>)
    requires r.Valid() && limit > 0 && |tables| == Max(1, batches)
    modifies r`work, r`nextWork, r`demand
    ensures r.Valid() && spent <= Max(1, batches)
    ensures Taken(old(r.demand), r.demand, site.wiki, spent * limit, taken, now)
    ensures spent < Max(1, batches) ==> WaitingLines(r.demand, site.wiki) == {}
  {
    queued, spent, taken := 0, 0, [];
    ghost var before := r.demand;
    NothingTaken(before, site.wiki, now);
    ghost var count: nat := 0;
    while spent < Max(1, batches)
      invariant r.Valid() && spent <= Max(1, batches)
      invariant count == spent * limit && Taken(before, r.demand, site.wiki, count, taken, now)
    {
      var batchQueued, selected, lines := TakeBatch(r, site, tables[spent], limit, now, before, count, taken);
      queued := queued + batchQueued;
      if selected == 0 {
        return;
      }
      taken := taken + lines;
      count := count + limit;
      spent := spent + 1;
    }
  }

  lemma NothingTaken(t: DemandTable, wiki: string, now: int)
    ensures Taken(t, t, wiki, 0, [], now)
  {
    assert PageIds([]) == [];
  }

  lemma TakesMore(before: DemandTable, t: DemandTable, u: DemandTable, wiki: string, count: nat, taken: seq<Wanted>,
                  limit: nat, lines: seq<Wanted>, now: int)
    requires limit > 0 && Taken(before, t, wiki, count, taken, now) && Taken(t, u, wiki, limit, lines, now)
    ensures Taken(before, u, wiki, count + limit, taken + lines, now)
    ensures lines == [] ==> u == t && WaitingLines(u, wiki) == {}
  {
    MoreWantedIsStrict();
    ConsecutiveReads(WaitingLines(before, wiki), count, taken, limit, lines, MoreWanted);
    MarkTwice(before, wiki, taken, lines, now);
    assert KeysOf(taken + lines) == KeysOf(taken) + KeysOf(lines);
    if lines == [] {
      assert u == t;
    }
  }

  /** Reading `tables` one batch each from the stored text `raw` hands over `handed` and leaves the text `stored`. */
  ghost predicate IsSizeRun(raw: Option<string>, tables: seq<Snapshot>, limit: nat, handed: seq<seq<ReplicaPage>>,
                            stored: Option<string>)
    requires limit > 0
  {
    SizeRun(raw, tables, limit) == Progress(handed, stored)
  }

  /** One batch of the walk, and what it makes of the specification: the cursor stays what the stored text says. */
  method NextBatch(ghost raw: Option<string>, ghost read: seq<Snapshot>, table: Snapshot, cursor: Option<LengthCursor>,
                   limit: nat, ghost handed: seq<seq<ReplicaPage>>, ghost stored: Option<string>)
    returns (pages: seq<ReplicaPage>, next: Option<LengthCursor>)
    requires limit > 0 && IsTable(table) && !IsComplete(stored) && cursor == Decode(stored)
    requires IsSizeRun(raw, read, limit, handed, stored)
    ensures IsSizeRun(raw, read + [table], limit, handed + [pages], Some(CursorText(next)))
    ensures if next.None? then IsComplete(Some(CursorText(next)))
            else Decode(Some(CursorText(next))) == next && !IsComplete(Some(CursorText(next)))
  {
    pages, next := PagesByDescendingLength(table, cursor, limit);
    NextSurvivesStorage(table, cursor, limit);
    OneMoreStep(raw, read, table, SizeStep(limit), handed, stored);
  }

  lemma OneMoreStep(raw: Option<string>, read: seq<Snapshot>, table: Snapshot,
                    step: (Option<string>, Snapshot) -> (seq<ReplicaPage>, Option<string>),
                    handed: seq<seq<ReplicaPage>>, stored: Option<string>)
    requires !IsComplete(stored) && Steps(raw, read, IsComplete, step) == Progress(handed, stored)
    ensures var (pages, text) := step(stored, table);
      Steps(raw, read + [table], IsComplete, step) == Progress(handed + [pages], text)
  {
    assert [table][1..] == [];
    StepsSplit(raw, read, [table], IsComplete, step);
  }

  /** Once complete, the walk reads no further. */
  lemma StopsHere(raw: Option<string>, read: seq<Snapshot>, rest: seq<Snapshot>, limit: nat,
                  handed: seq<seq<ReplicaPage>>, stored: Option<string>)
    requires limit > 0 && IsSizeRun(raw, read, limit, handed, stored) && IsComplete(stored)
    ensures IsSizeRun(raw, read + rest, limit, handed, stored)
  {
    StepsSplit(raw, read, rest, IsComplete, SizeStep(limit));
  }

  /** Batches of the size walk from the stored cursor, until the snapshots are used up or the walk is complete. */
  method WalkBatches(r: Repository, site: Site, tables: seq<Snapshot>, limit: nat)
    returns (queued: nat, cursor: Option<LengthCursor>, done: bool, ghost handed: seq<seq<ReplicaPage>>)
    requires r.Valid() && limit > 0 && AreTables(tables) && !IsComplete(StoredText(r, site.CursorKey()))
    modifies r`work, r`nextWork, r`state
    ensures r.Valid()
    ensures IsSizeRun(old(StoredText(r, site.CursorKey())), tables, limit, handed, StoredText(r, site.CursorKey()))
    ensures QueueOf(r) == HandOver(old(QueueOf(r)), r.results, site.Offers(Concat(handed)))
    ensures r.state - {site.CursorKey()} == old(r.state) - {site.CursorKey()}
    ensures done <==> IsComplete(StoredText(r, site.CursorKey()))
    ensures !done ==> cursor == Decode(StoredText(r, site.CursorKey()))
  {
    var key := site.CursorKey();
    var raw := r.GetState(key);
    queued, handed, done := 0, [], false;
    ghost var read: seq<Snapshot> := [];
    cursor := Decode(raw);
    var batch := 0;
    while batch < |tables|
      invariant r.Valid() && batch <= |tables| && read == tables[..batch]
      invariant IsSizeRun(raw, read, limit, handed, StoredText(r, key))
      invariant !IsComplete(StoredText(r, key)) && cursor == Decode(StoredText(r, key))
      invariant QueueOf(r) == HandOver(old(QueueOf(r)), r.results, site.Offers(Concat(handed)))
      invariant r.state - {key} == old(r.state) - {key}
    {
      assert tables[batch] in tables && tables[..batch + 1] == read + [tables[batch]];
      var n, pages;
      n, pages, cursor := LengthBatch(r, site, key, old(QueueOf(r)), raw, read, tables[batch], cursor, limit, handed);
      queued := queued + n;
      read, handed := read + [tables[batch]], handed + [pages];
      batch := batch + 1;
      if cursor.None? {
        StopsHere(raw, read, tables[batch..], limit, handed, StoredText(r, key));
        assert read + tables[batch..] == tables;
        done := true;
        return;
      }
    }
    assert read == tables;
  }

  /** Runs the size walk from the stored cursor, until its budget is spent or the walk is complete. */
  method BackfillByLength(r: Repository, site: Site, tables: seq<Snapshot>, batches: int, limit: nat)
    returns (queued: nat, ghost handed: seq<seq<ReplicaPage>>)
    requires r.Valid() && limit > 0 && |tables| == Max(1, batches) && AreTables(tables)
    modifies r`work, r`nextWork, r`state
    ensures r.Valid()
    ensures IsSizeRun(old(StoredText(r, site.CursorKey())), tables, limit, handed, StoredText(r, site.CursorKey()))
    ensures QueueOf(r) == HandOver(old(QueueOf(r)), r.results, site.Offers(Concat(handed)))
    ensures r.state - {site.CursorKey()} == old(r.state) - {site.CursorKey()}
  {
    var raw := r.GetState(site.CursorKey());
    if raw == Some(COMPLETE) {
      queued, handed := 0, [];
      StopsHere(raw, [], tables, limit, handed, raw);
      assert [] + tables == tables;
      return;
    }
    var cursor, done;
    queued, cursor, done, handed := WalkBatches(r, site, tables, limit);
  }

  /** One batch: read, handed over, and only then its cursor stored. */
  method LengthBatch(r: Repository, site: Site, key: string, ghost q: Queue, ghost raw: Option<string>,
                     ghost read: seq<Snapshot>, table: Snapshot, cursor: Option<LengthCursor>, limit: nat,
                     ghost handed: seq<seq<ReplicaPage>>)
    returns (queued: nat, pages: seq<ReplicaPage>, next: Option<LengthCursor>)
    requires r.Valid() && limit > 0 && IsTable(table)
    requires !IsComplete(StoredText(r, key)) && cursor == Decode(StoredText(r, key))
    requires IsSizeRun(raw, read, limit, handed, StoredText(r, key))
    requires QueueOf(r) == HandOver(q, r.results, site.Offers(Concat(handed)))
    modifies r`work, r`nextWork, r`state
    ensures r.Valid()
    ensures IsSizeRun(raw, read + [table], limit, handed + [pages], StoredText(r, key))
    ensures QueueOf(r) == HandOver(q, r.results, site.Offers(Concat(handed + [pages])))
    ensures if next.None? then IsComplete(StoredText(r, key))
            else !IsComplete(StoredText(r, key)) && next == Decode(StoredText(r, key))
    ensures r.state - {key} == old(r.state) - {key}
  {
    pages, next := NextBatch(raw, read, table, cursor, limit, handed, StoredText(r, key));
    queued := HandBatch(r, site, q, handed, pages);
    StoreCursor(r, key, next);
  }

  method StoreCursor(r: Repository, key: string, next: Option<LengthCursor>)
    modifies r`state
    ensures StoredText(r, key) == Some(CursorText(next)) && r.state - {key} == old(r.state) - {key}
  {
    r.SetState(key, CursorText(next));
  }

  /** One more batch handed over, after `handed`. */
  method HandBatch(r: Repository, site: Site, ghost q: Queue, ghost handed: seq<seq<ReplicaPage>>, pages: seq<ReplicaPage>)
    returns (queued: nat)
    requires r.Valid() && QueueOf(r) == HandOver(q, r.results, site.Offers(Concat(handed)))
    modifies r`work, r`nextWork
    ensures r.Valid() && QueueOf(r) == HandOver(q, r.results, site.Offers(Concat(handed + [pages])))
  {
    queued := EnqueuePages(r, site, pages);
    HandedNext(site, handed, pages);
    HandOverAppend(q, r.results, site.Offers(Concat(handed)), site.Offers(pages));
  }

  lemma {:induction false} ConcatSnoc<T>(parts: seq<seq<T>>, part: seq<T>)
    ensures Concat(parts + [part]) == Concat(parts) + part
  {
    if parts != [] {
      assert (parts + [part])[1..] == parts[1..] + [part];
      ConcatSnoc(parts[1..], part);
    }
  }

  lemma OffersAppend(site: Site, first: seq<ReplicaPage>, second: seq<ReplicaPage>)
    ensures site.Offers(first + second) == site.Offers(first) + site.Offers(second)
  {
  }

  lemma HandedNext(site: Site, handed: seq<seq<ReplicaPage>>, pages: seq<ReplicaPage>)
    ensures site.Offers(Concat(handed + [pages])) == site.Offers(Concat(handed)) + site.Offers(pages)
  {
    ConcatSnoc(handed, pages);
    OffersAppend(site, Concat(handed), pages);
  }

  /** Demand first, then the size walk with whatever budget is left. Together they never read more than the budget's
      batches, and the walk is reached only when no demand is waiting. */
  method BackfillWiki(r: Repository, site: Site, demandTables: seq<Snapshot>, sizeTables: seq<Snapshot>, batches: int,
                      limit: nat, now: int)
    returns (queued: nat, spent: nat, ghost handed: seq<seq<ReplicaPage>>)
    requires r.Valid() && limit > 0 && |demandTables| == |sizeTables| == Max(1, batches) && AreTables(sizeTables)
    modifies r`work, r`nextWork, r`demand, r`state
    ensures r.Valid()
    ensures spent + |handed| <= Max(1, batches)
    ensures handed != [] ==> WaitingLines(r.demand, site.wiki) == {}
    ensures var budget := Max(0, batches - spent);
      budget > 0 ==> handed == SizeRun(old(StoredText(r, site.CursorKey())), sizeTables[..budget], limit).outputs
  {
    ghost var taken;
    queued, spent, taken := BackfillByDemand(r, site, demandTables, batches, limit, now);
    handed := [];
    var remaining := Max(0, batches - spent);
    if remaining > 0 {
      var more;
      more, handed := BackfillByLength(r, site, sizeTables[..remaining], remaining, limit);
      queued := queued + more;
      StepsBound<Option<string>, Snapshot, seq<ReplicaPage>>(old(StoredText(r, site.CursorKey())), sizeTables[..remaining], IsComplete, SizeStep(limit));
    }
  }
}
