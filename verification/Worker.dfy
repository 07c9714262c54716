/** A worker: claims one job, attributes the page, and settles the job whatever happens.

    Everything MediaWiki and WikiWho answer, and every fault a call may raise, is an input. Each call is followed in the
    queue's state machine, so what holds over every run of that machine holds of the workers. */
module Workers {
  import opened Base
  import Sorting
  import opened Policy
  import opened Attribution
  import opened History
  import opened WorkQueue
  import opened Results
  import opened QueueSystem
  import opened Repository
  import opened Replica

  const METRIC_TOKENS := "wikiwho-surviving-alphanumeric-tokens"
  const METRIC_EDITS := "mediawiki-revision-count"
  const NAMES := 3

  /** A raised exception; anything but a `WikiPeopleError` has the code "unexpected_error" and is not permanent. */
  datatype Fault = Fault(code: string, message: string, permanent: bool)

  datatype Outcome<+T> = Answered(value: T) | Raised(fault: Fault)

  datatype PageMetadata = PageMetadata(revision: int, title: string, namespace: int, isRedirect: bool)

  datatype EditorCount = EditorCount(count: int, limited: bool)

  /** What one job will meet. */
  datatype Upstream = Upstream(
    page: Outcome<PageMetadata>,
    tokens: Outcome<seq<Token>>,
    isAlnum: char -> bool,
    tokenLookups: Option<Fault>,       // raised while the candidates of the token ranking are looked up
    history: Outcome<seq<Reply<nat>>>,
    historyLookups: Option<Fault>,     // raised while the candidates of the edit ranking are looked up
    directory: Users,
    patterns: Patterns,
    globalGroups: string -> seq<string>,
    editors: Outcome<EditorCount>,
    bots: Outcome<int>,
    supersedeFault: Option<Fault>,
    requeueFault: Option<Fault>,
    requeueRival: Option<Rival>,
    saveFault: Option<Fault>,
    completeFault: Option<Fault>,
    registerFault: Option<Fault>)

  /** Accounts are filed under their own identifiers, and the server answers a history in chunks. */
  ghost predicate Honest(up: Upstream) {
    && (forall id :: id in up.directory ==> up.directory[id].userId == id)
    && (up.history.Answered? ==> Answers(up.history.value))
  }

  /** Whether an account may be named, by its local facts and the groups CentralAuth would answer. */
  function Nameable(up: Upstream): ResolvedUser -> bool {
    user => ShouldHighlight(up.patterns, user, Some(up.globalGroups))
  }

  datatype WorkerSettings = WorkerSettings(
    queue: Settings,
    candidatePool: nat,
    minimumTokens: int,
    minimumShare: Ratio,
    topEditorMaxRevisions: int)

  datatype Attributed = Attributed(contributors: seq<Contributor>, totalTokens: nat, metric: string)

  /* ---- What a name rests on ---- */

  /** The credit states its account's true number of `editors` entries, out of `total`. */
  ghost predicate Evidence(c: Contributor, editors: seq<Editor>, total: nat) {
    c.userId > 0 && c.count == multiset(editors)[Account(c.userId)] && c.outOf == total
  }

  /** The credit names an account of the directory that may be named, by its own name. */
  ghost predicate IsKnown(c: Contributor, directory: Users, nameable: ResolvedUser -> bool) {
    c.userId in directory && c.username == directory[c.userId].username && nameable(directory[c.userId])
  }

  lemma {:induction false} CountOfEntry(c: Counter, e: Entry)
    requires Distinct(c) && e in c
    ensures CountOf(c, e.editor) == e.count
  {
    if e != c[0] {
      EditorIn(c[1..], e);
      CountOfEntry(c[1..], e);
    }
  }

  lemma {:induction false} ListedFrom(entries: Counter, total: nat, users: Users, c: Contributor) returns (e: Entry)
    requires total > 0 && c in Listed(entries, total, users)
    ensures e in entries && e.editor.Account? && e.editor.id in users && c == CreditFor(e, users[e.editor.id], total)
  {
    var rest := Listed(entries[1..], total, users);
    if c in rest {
      e := ListedFrom(entries[1..], total, users, c);
    } else {
      e := entries[0];
    }
  }

  /** At most three names, each with its true count and past the gate. */
  lemma NamesHaveEvidence(counts: Counter, total: nat, gate: Gate, pool: nat, directory: Users,
                          nameable: ResolvedUser -> bool, limit: nat, editors: seq<Editor>)
    requires limit > 0 && Distinct(counts) && forall e :: CountOf(counts, e) == multiset(editors)[e]
    requires forall id :: id in directory ==> directory[id].userId == id
    ensures var named := PoolNamed(counts, total, gate, pool, directory, nameable, limit);
      && |named| <= limit
      && forall c :: c in named ==>
           && Evidence(c, editors, total)
           && IsKnown(c, directory, nameable)
           && (gate.Tokens? ==> c.count >= gate.minimumTokens && c.count * gate.least.den >= gate.least.num * total)
  {
    var ranked := MostCommon(counts);
    var users := Resolve(directory, CandidateIds(ranked, pool));
    if total > 0 {
      var all := Creditables(ranked, total, gate, users, nameable);
      SelectNamesFirst(ranked, total, gate, users, nameable, limit, []);
      CreditablesAreKnown(ranked, total, gate, users, nameable);
      NamedAlike(ranked, total, gate, users, users, nameable, limit);
      SortKeepsEntries(counts);
      forall c | c in Listed(Take(all, limit), total, users)
        ensures Evidence(c, editors, total) && IsKnown(c, directory, nameable)
        ensures gate.Tokens? ==> c.count >= gate.minimumTokens && c.count * gate.least.den >= gate.least.num * total
      {
        var e := ListedFrom(Take(all, limit), total, users, c);
        assert e in all && e in counts;
        CountOfEntry(counts, e);
      }
    }
  }

  lemma SortKeepsEntries(counts: Counter)
    ensures forall e :: e in MostCommon(counts) <==> e in counts
  {
    Sorting.SortKeeps(counts, Larger);
  }

  /* ---- The answer as a function of what upstream says ---- */

  /** The fault of the token ranking that the job does not survive; permanent refusals are swallowed. */
  function TokenFault(up: Upstream): Option<Fault> {
    var raised := if up.tokens.Raised? then Some(up.tokens.fault) else up.tokenLookups;
    if raised.Some? && !raised.value.permanent then raised else None
  }

  function TokenEditors(up: Upstream): seq<Editor> {
    if up.tokens.Raised? then [] else CountedEditors(up.tokens.value, up.isAlnum)
  }

  function TokenNames(c: WorkerSettings, up: Upstream): seq<Contributor> {
    if up.tokens.Raised? || up.tokenLookups.Some? then []
    else PoolNamed(CounterOf(TokenEditors(up)), |TokenEditors(up)|, Tokens(c.minimumTokens, c.minimumShare),
                   c.candidatePool, up.directory, Nameable(up), NAMES)
  }

  function EditNames(c: WorkerSettings, up: Upstream): Outcome<seq<Contributor>>
    requires up.history.Answered? ==> up.history.value != []
  {
    if up.history.Raised? then Raised(up.history.fault)
    else if !ReadToTheEnd(up.history.value, c.topEditorMaxRevisions) then Answered([])
    else if up.historyLookups.Some? then Raised(up.historyLookups.value)
    else
      var whole := Items(up.history.value);
      Answered(PoolNamed(CounterOf(Accounts(whole)), |whole|, Edits, c.candidatePool, up.directory, Nameable(up), NAMES))
  }

  ghost function AttributionOf(c: WorkerSettings, up: Upstream): Outcome<Attributed>
    requires Honest(up)
  {
    if TokenFault(up).Some? then Raised(TokenFault(up).value)
    else if TokenNames(c, up) != [] then Answered(Attributed(TokenNames(c, up), |TokenEditors(up)|, METRIC_TOKENS))
    else
      match EditNames(c, up)
      case Raised(f) => Raised(f)
      case Answered(names) => Answered(Attributed(names, |TokenEditors(up)|, METRIC_EDITS))
  }

  /** Reading the tokens, or looking up the accounts they name, is refused for good. */
  predicate Declined(up: Upstream) {
    if up.tokens.Raised? then up.tokens.fault.permanent
    else up.tokenLookups.Some? && up.tokenLookups.value.permanent
  }

  /** Which faults the attribution survives. Reading and ranking tokens raises through unless the refusal is permanent; a
      permanent one leaves the edit ranking, whose own faults all raise through. */
  lemma OnlyRefusalsAreSwallowed(c: WorkerSettings, up: Upstream)
    requires Honest(up)
    ensures up.tokens.Raised? && !up.tokens.fault.permanent ==> AttributionOf(c, up) == Raised(up.tokens.fault)
    ensures up.tokens.Answered? && up.tokenLookups.Some? && !up.tokenLookups.value.permanent ==>
      AttributionOf(c, up) == Raised(up.tokenLookups.value)
    ensures Declined(up) ==>
      if up.history.Raised? then AttributionOf(c, up) == Raised(up.history.fault)
      else if ReadToTheEnd(up.history.value, c.topEditorMaxRevisions) && up.historyLookups.Some? then
        AttributionOf(c, up) == Raised(up.historyLookups.value)
      else
        && AttributionOf(c, up).Answered? && AttributionOf(c, up).value.metric == METRIC_EDITS
        && (up.tokens.Raised? ==> AttributionOf(c, up).value.totalTokens == 0)
    ensures AttributionOf(c, up).Answered? && AttributionOf(c, up).value.metric == METRIC_TOKENS ==>
      up.tokens.Answered? && up.tokenLookups.None? && AttributionOf(c, up).value.contributors != []
  {
  }

  /** The account exists, is not temporary, does not call itself a bot, and is in no group of bots, local or global. */
  ghost predicate IsPerson(up: Upstream, user: ResolvedUser) {
    && !user.missing && (user.username != "" ==> user.username[0] != '~')
    && !up.patterns.isBotName(user.username)
    && forall g :: g in user.groups || g in up.globalGroups(user.username) ==> !up.patterns.isBotGroup(g)
  }

  /** Every name rests on evidence: at most three; by tokens with the account's true token count past the gate; by
      edits with its true revision count over a history read to its end. */
  lemma AttributionHasEvidence(c: WorkerSettings, up: Upstream, a: Attributed)
    requires Honest(up) && AttributionOf(c, up) == Answered(a)
    ensures |a.contributors| <= 3 && (a.metric == METRIC_TOKENS || a.contributors == [] || up.history.Answered?)
    ensures forall k :: k in a.contributors ==> IsKnown(k, up.directory, Nameable(up)) && IsPerson(up, up.directory[k.userId])
    ensures forall k :: k in a.contributors ==>
      if a.metric == METRIC_TOKENS then
        && Evidence(k, TokenEditors(up), a.totalTokens)
        && k.count >= c.minimumTokens && k.count * c.minimumShare.den >= c.minimumShare.num * a.totalTokens
      else
        && up.history.value != [] && ReadToTheEnd(up.history.value, c.topEditorMaxRevisions)
        && Evidence(k, Accounts(Items(up.history.value)), |Items(up.history.value)|)
  {
    CounterCounts(TokenEditors(up));
    NamesHaveEvidence(CounterOf(TokenEditors(up)), |TokenEditors(up)|, Tokens(c.minimumTokens, c.minimumShare),
                      c.candidatePool, up.directory, Nameable(up), NAMES, TokenEditors(up));
    if up.history.Answered? {
      var whole := Items(up.history.value);
      CounterCounts(Accounts(whole));
      NamesHaveEvidence(CounterOf(Accounts(whole)), |whole|, Edits, c.candidatePool, up.directory, Nameable(up), NAMES,
                        Accounts(whole));
    }
  }

  /** When the tokens can be read and anybody qualifies, the names go by tokens and are the top: while the pool meets its
      bound, a registered person of the directory with enough tokens and a large enough share is among the three, or
      three with at least as many tokens are. */
  lemma NobodyBetterIsLeftOut(c: WorkerSettings, up: Upstream, id: nat)
    requires Honest(up) && up.tokens.Answered? && up.tokenLookups.None?
    requires c.minimumShare.den > 0 && (c.candidatePool + 1) * c.minimumShare.num > c.minimumShare.den
    requires id > 0 && id in up.directory && IsPerson(up, up.directory[id])
    requires var count, total := multiset(TokenEditors(up))[Account(id)], |TokenEditors(up)|;
      count > 0 && count >= c.minimumTokens && count * c.minimumShare.den >= c.minimumShare.num * total
    ensures var count, total := multiset(TokenEditors(up))[Account(id)], |TokenEditors(up)|;
      && AttributionOf(c, up).Answered?
      && var a := AttributionOf(c, up).value;
        && a.metric == METRIC_TOKENS && a.totalTokens == total
        && (|| Contributor(id, up.directory[id].username, count, total) in a.contributors
            || (|a.contributors| == 3 && forall k :: k in a.contributors ==> k.count >= count))
  {
    var counts, total := CounterOf(TokenEditors(up)), |TokenEditors(up)|;
    var count := multiset(TokenEditors(up))[Account(id)];
    CounterCounts(TokenEditors(up));
    EntryOfCount(counts, Account(id));
    PoolIsLossless(counts, c.candidatePool, c.minimumTokens, c.minimumShare, up.directory, Nameable(up), NAMES);
    TopAreNamed(counts, total, Tokens(c.minimumTokens, c.minimumShare), up.directory, Nameable(up), NAMES, id, count);
  }

  /** Where the tokens name nobody, a history read to its end by no more accounts than the pool holds names the top by edits:
      a person of the directory who edited is among the three, or three who edited at least as often are. */
  lemma EditorsAreNamed(c: WorkerSettings, up: Upstream, id: nat)
    requires Honest(up) && TokenFault(up).None? && TokenNames(c, up) == []
    requires up.history.Answered? && up.historyLookups.None? && ReadToTheEnd(up.history.value, c.topEditorMaxRevisions)
    requires |CounterOf(Accounts(Items(up.history.value)))| <= c.candidatePool
    requires id > 0 && id in up.directory && IsPerson(up, up.directory[id])
    requires multiset(Accounts(Items(up.history.value)))[Account(id)] > 0
    ensures var whole := Items(up.history.value);
      && AttributionOf(c, up).Answered? && AttributionOf(c, up).value.metric == METRIC_EDITS
      && var a, count := AttributionOf(c, up).value, multiset(Accounts(whole))[Account(id)];
        || Contributor(id, up.directory[id].username, count, |whole|) in a.contributors
        || (|a.contributors| == 3 && forall k :: k in a.contributors ==> k.count >= count)
  {
    var whole := Items(up.history.value);
    AccountsAtMost(whole);
    EditNamesAreTop(Accounts(whole), |whole|, c.candidatePool, up, id);
  }

  lemma EditNamesAreTop(editors: seq<Editor>, total: nat, pool: nat, up: Upstream, id: nat)
    requires Honest(up) && total > 0 && |CounterOf(editors)| <= pool && multiset(editors)[Account(id)] > 0
    requires id > 0 && id in up.directory && IsPerson(up, up.directory[id])
    ensures var named, count := PoolNamed(CounterOf(editors), total, Edits, pool, up.directory, Nameable(up), NAMES),
                                multiset(editors)[Account(id)];
      || Contributor(id, up.directory[id].username, count, total) in named
      || (|named| == 3 && forall k :: k in named ==> k.count >= count)
  {
    var counts, count := CounterOf(editors), multiset(editors)[Account(id)];
    CounterCounts(editors);
    EntryOfCount(counts, Account(id));
    SortKeepsEntries(counts);
    Sorting.SortKeeps(counts, Larger);
    assert Entry(Account(id), count) in MostCommon(counts);
    AllAreCandidates(MostCommon(counts), pool, id);
    var users := Resolve(up.directory, CandidateIds(MostCommon(counts), pool));
    TopAreNamed(counts, total, Edits, users, Nameable(up), NAMES, id, count);
  }

  lemma {:induction false} AllAreCandidates(ranked: Counter, pool: nat, id: nat)
    requires |ranked| <= pool && id > 0 && exists e :: e in ranked && e.editor == Account(id)
    ensures id in CandidateIds(ranked, pool)
  {
    if ranked[0].editor != Account(id) {
      var e :| e in ranked && e.editor == Account(id);
      assert e in ranked[1..];
      AllAreCandidates(ranked[1..], if IsRegistered(ranked[0].editor) then pool - 1 else pool, id);
    }
  }

  lemma {:induction false} EntryOfCount(c: Counter, editor: Editor)
    requires CountOf(c, editor) > 0
    ensures Entry(editor, CountOf(c, editor)) in c
  {
    if c[0].editor != editor {
      EntryOfCount(c[1..], editor);
    }
  }

  predicate IsCurrentArticle(lease: WorkLease, up: Upstream) {
    && up.page.Answered? && up.page.value.namespace == 0 && !up.page.value.isRedirect
    && up.page.value.revision == lease.revision
  }

  /** The computing half of a job for a current article: the answer to store, or the first fault. */
  ghost function Computed(c: WorkerSettings, up: Upstream): Outcome<Answer>
    requires Honest(up) && up.page.Answered?
  {
    match AttributionOf(c, up)
    case Raised(f) => Raised(f)
    case Answered(a) =>
      if up.editors.Raised? then Raised(up.editors.fault)
      else if up.bots.Raised? then Raised(up.bots.fault)
      else Answered(Answer(up.page.value.title, a.metric, a.contributors,
                           Max(|a.contributors|, up.editors.value.count - up.bots.value), up.editors.value.limited,
                           a.totalTokens))
  }

  /** The answer counts all editors but the bots, and never fewer contributors than it names. */
  lemma ComputedCountsEnough(c: WorkerSettings, up: Upstream, answer: Answer)
    requires Honest(up) && up.page.Answered? && Computed(c, up) == Answered(answer)
    ensures |answer.contributors| <= answer.distinctContributors && |answer.contributors| <= NAMES
    ensures up.editors.Answered? && up.bots.Answered?
    ensures up.editors.value.count >= up.bots.value + |answer.contributors| ==>
      answer.distinctContributors + up.bots.value == up.editors.value.count
    ensures up.editors.value.count <= up.bots.value + |answer.contributors| ==>
      answer.distinctContributors == |answer.contributors|
    ensures answer.title == up.page.value.title && answer.countLimited == up.editors.value.limited
    ensures AttributionOf(c, up) == Answered(Attributed(answer.contributors, answer.countableTokens, answer.metric))
  {
    AttributionHasEvidence(c, up, AttributionOf(c, up).value);
  }

  /** The job's answer gets saved. */
  ghost predicate Stores(c: WorkerSettings, lease: WorkLease, up: Upstream)
    requires Honest(up)
  {
    IsCurrentArticle(lease, up) && Computed(c, up).Answered? && up.saveFault.None?
  }

  /** The fault that ends the job, if any: the first one raised on the way it takes. */
  ghost function JobFault(c: WorkerSettings, lease: WorkLease, up: Upstream): Option<Fault>
    requires Honest(up)
  {
    if up.page.Raised? then Some(up.page.fault)
    else if up.page.value.namespace != 0 || up.page.value.isRedirect then up.supersedeFault
    else if up.page.value.revision != lease.revision then
      if up.supersedeFault.Some? then up.supersedeFault else up.requeueFault
    else
      match Computed(c, up)
      case Raised(f) => Some(f)
      case Answered(_) =>
        if up.saveFault.Some? then up.saveFault
        else if up.completeFault.Some? then up.completeFault
        else up.registerFault
  }

  function FaultOf<T>(o: Outcome<T>): Option<Fault> {
    if o.Raised? then Some(o.fault) else None
  }

  /** The calls of the way a job takes, in the order they are made, each with the fault it raises. */
  ghost function FaultsOnTheWay(c: WorkerSettings, lease: WorkLease, up: Upstream): seq<Option<Fault>>
    requires Honest(up)
  {
    if up.page.Raised? then [Some(up.page.fault)]
    else if up.page.value.namespace != 0 || up.page.value.isRedirect then [up.supersedeFault]
    else if up.page.value.revision != lease.revision then [up.supersedeFault, up.requeueFault]
    else [FaultOf(AttributionOf(c, up)), FaultOf(up.editors), FaultOf(up.bots), up.saveFault, up.completeFault,
          up.registerFault]
  }

  function FirstFault(faults: seq<Option<Fault>>): Option<Fault> {
    if faults == [] then None else if faults[0].Some? then faults[0] else FirstFault(faults[1..])
  }

  lemma FirstOf(head: Option<Fault>, rest: seq<Option<Fault>>)
    ensures FirstFault([head] + rest) == if head.Some? then head else FirstFault(rest)
  {
    assert ([head] + rest)[1..] == rest;
  }

  lemma JobFaultIsFirst(c: WorkerSettings, lease: WorkLease, up: Upstream)
    requires Honest(up)
    ensures JobFault(c, lease, up) == FirstFault(FaultsOnTheWay(c, lease, up))
  {
    if up.page.Answered? && up.page.value.namespace == 0 && !up.page.value.isRedirect {
      var a, b, d := FaultOf(AttributionOf(c, up)), FaultOf(up.editors), FaultOf(up.bots);
      FirstOf(up.registerFault, []);
      FirstOf(up.completeFault, [up.registerFault]);
      FirstOf(up.saveFault, [up.completeFault, up.registerFault]);
      FirstOf(d, [up.saveFault, up.completeFault, up.registerFault]);
      FirstOf(b, [d, up.saveFault, up.completeFault, up.registerFault]);
      FirstOf(a, [b, d, up.saveFault, up.completeFault, up.registerFault]);
      FirstOf(up.requeueFault, []);
      FirstOf(up.supersedeFault, [up.requeueFault]);
    }
  }

  /** What a job comes to, in the fields of what it was told. An answer is stored exactly for an article that is no redirect
      and still at the job's revision, once nothing has raised; a page that cannot be read, above all one that is gone
      for good, ends the job with that very fault. */
  lemma JobOutcome(c: WorkerSettings, lease: WorkLease, up: Upstream, at: int, before: ResultTable, id: nat)
    requires Honest(up) && id !in before && UniqueResults(before)
    ensures JobFault(c, lease, up) == FirstFault(FaultsOnTheWay(c, lease, up))
    ensures var after := ResultsAfter(c, lease, up, at, before, id);
      if up.page.Answered? && up.page.value.namespace == 0 && !up.page.value.isRedirect
         && up.page.value.revision == lease.revision
      then JobFault(c, lease, up).None? ==>
        exists k :: k in after && HoldsAnswer(after[k], lease.page, up.page.value, at)
      else after == before
  {
    JobFaultIsFirst(c, lease, up);
    if Stores(c, lease, up) {
      var row := ResultRow(lease.page, lease.revision, at, Computed(c, up).value);
      SaveKeepsOnePerKey(before, id, row);
      var after := SaveTx(before, id, row);
      var k :| k in after && after[k] == row;
      ComputedCountsEnough(c, up, row.answer);
      assert ResultsAfter(c, lease, up, at, before, id) == after;
      assert row.answer.title == up.page.value.title;
      assert HoldsAnswer(after[k], lease.page, up.page.value, at);
      assert exists k :: k in after && HoldsAnswer(after[k], lease.page, up.page.value, at);
    }
  }

  /** The row answers for the page at its present revision and title, computed at the given time. */
  predicate HoldsAnswer(row: ResultRow, page: PageKey, found: PageMetadata, at: int) {
    row.page == page && row.revision == found.revision && row.answer.title == found.title && row.computedAt == at
  }

  /** The results once the job is over. */
  ghost function ResultsAfter(c: WorkerSettings, lease: WorkLease, up: Upstream, at: int, before: ResultTable, id: nat)
    : ResultTable
    requires Honest(up)
  {
    if Stores(c, lease, up) then SaveTx(before, id, ResultRow(lease.page, lease.revision, at, Computed(c, up).value))
    else before
  }

  /* ---- Following the worker in the state machine ---- */

  lemma {:induction false} RunSnoc(c: Settings, s: System, actions: seq<Action>, mid: System, a: Action)
    requires Run(c, s, actions, mid) && Enabled(c, mid, a)
    ensures Run(c, s, actions + [a], Apply(c, mid, a))
    decreases |actions|
  {
    if actions == [] {
      assert [a][1..] == [];
      assert actions + [a] == [a];
    } else {
      assert (actions + [a])[1..] == actions[1..] + [a];
      RunSnoc(c, Apply(c, s, actions[0]), actions[1..], mid, a);
    }
  }

  /** The state machine's tables are the repository's. */
  ghost predicate Mirrors(s: System, r: Repository)
    reads r
  {
    s.work == r.work && s.nextWork == r.nextWork && s.results == r.results && s.nextResult == r.nextResult
  }

  /** Everybody's state but worker `w`'s is as before, and the clock has not moved. */
  ghost predicate OnlyWorker(s: System, last: System, w: nat) {
    last.now == s.now && last.workers - {w} == s.workers - {w} && last.reclaims == s.reclaims
  }

  /** Worker `w` still holds the lease it held, in whatever phase. */
  ghost predicate StillHolding(s: System, last: System, w: nat) {
    && w in s.workers && w in last.workers && last.workers[w].lease == s.workers[w].lease
    && last.workers[w].until == s.workers[w].until
  }

  lemma RunsNowhere(c: Settings, s: System)
    ensures Run(c, s, [], s)
  {
  }

  lemma {:induction false} RunAppend(c: Settings, s: System, first: seq<Action>, mid: System, second: seq<Action>, last: System)
    requires Run(c, s, first, mid) && Run(c, mid, second, last)
    ensures Run(c, s, first + second, last)
    decreases |first|
  {
    if first == [] {
      assert first + second == second;
    } else {
      assert (first + second)[1..] == first[1..] + second;
      RunAppend(c, Apply(c, s, first[0]), first[1..], mid, second, last);
    }
  }

  /** The clock moves on, the job is claimed, and the clock moves on again inside the lease. */
  lemma ClaimRun(c: Settings, s: System, lease: WorkLease, name: string, locked: set<nat>, claimedAt: int, workedAt: int, w: nat)
    returns (actions: seq<Action>, last: System)
    requires w !in s.workers && s.now <= claimedAt <= workedAt
    requires FirstClaim(s.work, locked, claimedAt, lease.id)
    requires lease == LeaseOf(ClaimTx(s.work, lease.id, name, c.leaseSeconds, claimedAt), lease.id)
    ensures Run(c, s, actions, last) && last.now == workedAt
    ensures last.workers == s.workers[w := Holding(lease, claimedAt + c.leaseSeconds, Working)]
    ensures last.work == ClaimTx(s.work, lease.id, name, c.leaseSeconds, claimedAt) && last.nextWork == s.nextWork
    ensures last.results == s.results && last.nextResult == s.nextResult
  {
    var a, b, d := Tick(claimedAt), Claim(w, name, locked, lease.id, claimedAt), Tick(workedAt);
    var s1 := Apply(c, s, a);
    var s2 := Apply(c, s1, b);
    RunsNowhere(c, s);
    RunSnoc(c, s, [], s, a);
    RunSnoc(c, s, [] + [a], s1, b);
    RunSnoc(c, s, [] + [a] + [b], s2, d);
    actions, last := [] + [a] + [b] + [d], Apply(c, s2, d);
  }

  /** How far a job got before it raised. */
  datatype Reach = OnlyStamped | Stored | Removed | Done

  /** Publishing as far as `reach`: the stamp, the save, the completion, the end. */
  lemma PublishRun(c: Settings, s: System, w: nat, answer: Answer, reach: Reach) returns (actions: seq<Action>, last: System)
    requires Alive(s, w) && s.workers[w].phase.Working?
    ensures Run(c, s, actions, last) && OnlyWorker(s, last, w) && last.nextWork == s.nextWork
    ensures if reach.Done? then w !in last.workers else StillHolding(s, last, w)
    ensures var lease := s.workers[w].lease;
      && last.work == (if reach.Removed? || reach.Done? then CompleteTx(s.work, lease.id) else s.work)
      && last.results == (if reach.OnlyStamped? then s.results
                          else SaveTx(s.results, s.nextResult, ResultRow(lease.page, lease.revision, s.now, answer)))
      && last.nextResult == if reach.OnlyStamped? then s.nextResult else s.nextResult + 1
  {
    RunsNowhere(c, s);
    actions, last := TakeStep(c, s, [], s, Stamp(w));
    if !reach.OnlyStamped? {
      actions, last := TakeStep(c, s, actions, last, Save(w, answer));
      if !reach.Stored? {
        actions, last := EndRun(c, s, actions, last, w, reach);
      }
    }
  }

  lemma EndRun(c: Settings, s: System, actions: seq<Action>, mid: System, w: nat, reach: Reach)
    returns (more: seq<Action>, last: System)
    requires Run(c, s, actions, mid) && Alive(mid, w) && mid.workers[w].phase.Saved? && (reach.Removed? || reach.Done?)
    ensures Run(c, s, more, last) && OnlyWorker(mid, last, w)
    ensures if reach.Done? then w !in last.workers else StillHolding(mid, last, w)
    ensures last.work == CompleteTx(mid.work, mid.workers[w].lease.id) && last.nextWork == mid.nextWork
    ensures last.results == mid.results && last.nextResult == mid.nextResult
  {
    more, last := TakeStep(c, s, actions, mid, Complete(w));
    if reach.Done? {
      more, last := TakeStep(c, s, more, last, Finish(w));
    }
  }

  /** Superseding for a newer revision, and the enqueue that follows unless it raises; a rival's enqueue comes in between
      as a step of its own. */
  lemma RequeueRun(c: Settings, s: System, w: nat, current: int, reason: string, at: int, enqueues: bool, rival: Option<Rival>)
    returns (actions: seq<Action>, last: System)
    requires Alive(s, w) && s.workers[w].phase.Working? && at <= s.now && current != s.workers[w].lease.revision
    requires rival.Some? ==> rival.value.at <= s.now
    ensures Run(c, s, actions, last) && OnlyWorker(s, last, w)
    ensures last.results == s.results && last.nextResult == s.nextResult
    ensures if enqueues then w !in last.workers else StillHolding(s, last, w)
    ensures var lease := s.workers[w].lease;
      var superseded := SupersedeTx(s.work, lease.id, reason, at);
      if enqueues && !HasResult(s.results, lease.page, current) then
        && last.nextWork == s.nextWork + IdsTaken(superseded, lease.page, current, rival)
        && last.work == EnqueueRivalled(superseded, s.nextWork, lease.page, current, lease.priority, at, rival)
      else last.nextWork == s.nextWork && last.work == superseded
  {
    RunsNowhere(c, s);
    actions, last := TakeStep(c, s, [], s, SupersedeStale(w, current, reason, at));
    if enqueues {
      var page := s.workers[w].lease.page;
      if HasResult(s.results, page, current) {
        actions, last := TakeStep(c, s, actions, last, RequeueSkip(w));
      } else if rival.Some? && Inserts(last.work, page, current) {
        actions, last := ConflictRun(c, s, actions, last, w, rival.value, at);
      } else {
        actions, last := TakeStep(c, s, actions, last, Requeue(w, at));
      }
    }
  }

  lemma ConflictRun(c: Settings, s: System, actions: seq<Action>, mid: System, w: nat, rival: Rival, at: int)
    returns (more: seq<Action>, last: System)
    requires Run(c, s, actions, mid) && Alive(mid, w) && mid.workers[w].phase.Requeueing? && at <= mid.now && rival.at <= mid.now
    ensures Run(c, s, more, last) && last.workers == mid.workers - {w} && last.now == mid.now && last.reclaims == mid.reclaims
    ensures last.results == mid.results && last.nextResult == mid.nextResult && last.nextWork == mid.nextWork + 2
    ensures var h := mid.workers[w];
      last.work == EnqueueRace(EnqueueTx(mid.work, mid.nextWork, h.lease.page, h.phase.current, rival.priority, rival.at),
                               h.lease.page, h.phase.current, h.lease.priority, at)
  {
    var h := mid.workers[w];
    more, last := TakeStep(c, s, actions, mid, Action.Enqueue(h.lease.page, h.phase.current, rival.priority, rival.at));
    more, last := TakeStep(c, s, more, last, RequeueConflict(w, at));
  }

  lemma TakeStep(c: Settings, s: System, actions: seq<Action>, mid: System, a: Action)
    returns (more: seq<Action>, last: System)
    requires Run(c, s, actions, mid) && Enabled(c, mid, a)
    ensures Run(c, s, more, last) && last == Apply(c, mid, a)
  {
    RunSnoc(c, s, actions, mid, a);
    more, last := actions + [a], Apply(c, mid, a);
  }

  /** A fault is settled by `fail`, and the worker is free again. */
  lemma FailRun(c: Settings, s: System, actions: seq<Action>, mid: System, w: nat, f: Fault, at: int)
    returns (more: seq<Action>, last: System)
    requires Run(c, s, actions, mid) && Alive(mid, w) && at <= mid.now
    ensures Run(c, s, more, last) && last.workers == mid.workers - {w}
    ensures last.work == FailTx(mid.work, mid.workers[w].lease, f.code, f.message, c.maxAttempts, f.permanent, at)
    ensures last.nextWork == mid.nextWork && last.results == mid.results && last.nextResult == mid.nextResult
  {
    more, last := TakeStep(c, s, actions, mid, FailJob(w, f.code, f.message, f.permanent, at));
  }

  class Worker {
    const repository: Repository
    const settings: WorkerSettings
    const workerId: string
    var stopping: bool

    constructor (repository: Repository, settings: WorkerSettings, workerId: string)
      ensures this.repository == repository && this.settings == settings && this.workerId == workerId && !stopping
    {
      this.repository, this.settings, this.workerId, this.stopping := repository, settings, workerId, false;
    }

    method Stop()
      modifies this
      ensures stopping
    {
      stopping := true;
    }

    /** The token ranking. A permanent refusal is swallowed and leaves no names; any other fault is the job's. */
    method NameByTokens(up: Upstream) returns (fault: Option<Fault>, contributors: seq<Contributor>, total: nat)
      ensures fault == TokenFault(up) && total == |TokenEditors(up)|
      ensures fault.None? ==> contributors == TokenNames(settings, up)
    {
      fault, contributors, total := None, [], 0;
      if up.tokens.Raised? {
        fault := if up.tokens.fault.permanent then None else Some(up.tokens.fault);
        return;
      }
      var counts;
      counts, total := CountTokens(up.tokens.value, up.isAlnum);
      if up.tokenLookups.Some? {
        fault := if up.tokenLookups.value.permanent then None else up.tokenLookups;
        return;
      }
      var users := Resolve(up.directory, CandidateIds(MostCommon(counts), settings.candidatePool));
      contributors := SelectRanked(counts, total, Tokens(settings.minimumTokens, settings.minimumShare), users, Nameable(up),
                                   NAMES);
    }

    /** The edit ranking: only a history read to its end names anybody. */
    method NameByEdits(up: Upstream) returns (result: Outcome<seq<Contributor>>)
      requires Honest(up)
      ensures result == EditNames(settings, up)
    {
      if up.history.Raised? {
        return Raised(up.history.fault);
      }
      var h, _, _ := GetEditorHistory(up.history.value, settings.topEditorMaxRevisions);
      if !h.complete {
        return Answered([]);
      }
      if up.historyLookups.Some? {
        return Raised(up.historyLookups.value);
      }
      var users := Resolve(up.directory, CandidateIds(MostCommon(h.counts), settings.candidatePool));
      var named := SelectRanked(h.counts, h.revisions, Edits, users, Nameable(up), NAMES);
      result := Answered(named);
    }

    /** `attribute`: up to three names, by surviving tokens if that names anybody, by edits otherwise. */
    method Attribute(up: Upstream) returns (result: Outcome<Attributed>)
      requires Honest(up)
      ensures result == AttributionOf(settings, up)
    {
      var fault, contributors, total := NameByTokens(up);
      if fault.Some? {
        return Raised(fault.value);
      }
      if contributors != [] {
        return Answered(Attributed(contributors, total, METRIC_TOKENS));
      }
      var byEdits := NameByEdits(up);
      if byEdits.Raised? {
        return Raised(byEdits.fault);
      }
      result := Answered(Attributed(byEdits.value, total, METRIC_EDITS));
    }

    /** The worker's moves so far, as a run of the state machine from `s`, and the repository agrees with its end. */
    ghost predicate Follows(s: System, actions: seq<Action>, last: System, w: nat)
      reads repository
    {
      Run(settings.queue, s, actions, last) && Mirrors(last, repository) && OnlyWorker(s, last, w)
    }

    /** The page's current revision is answered, has a row, or is behind newer live work. */
    ghost predicate Moved(page: PageKey, current: int)
      reads repository
    {
      || HasResult(repository.results, page, current)
      || HasWork(repository.work, page, current)
      || HasNewerLive(repository.work, page, current)
    }

    /** A superseded job: nobody holds it, and it says why. */
    ghost predicate Retired(row: WorkItem, at: int) {
      && row.state.Superseded? && row.leaseUntil.None? && row.workerId.None?
      && row.errorCode == Some("revision_superseded") && row.updatedAt == at
    }

    /** Before it touches the job. A `live` lease has not expired: the repository is in the state machine's state and the
        row is leased to `w`. A lease that was outlived says nothing about the tables. */
    ghost predicate Begins(lease: WorkLease, up: Upstream, at: int, live: bool, s: System, w: nat)
      reads repository
    {
      && repository.Valid() && Honest(up) && lease.id < repository.nextWork
      && (up.requeueRival.Some? ==> up.requeueRival.value.at <= at)
      && (live ==>
            && Mirrors(s, repository) && Alive(s, w) && s.now == at
            && s.workers[w].phase.Working? && s.workers[w].lease == lease && lease.id in repository.work)
    }

    /** Not an article any more: the job is superseded for good. */
    method Refuse(lease: WorkLease, up: Upstream, reason: string, at: int, ghost live: bool, ghost w: nat, ghost s: System)
      returns (fault: Option<Fault>, ghost actions: seq<Action>, ghost last: System)
      requires Begins(lease, up, at, live, s, w)
      modifies repository`work
      ensures repository.Valid() && fault == up.supersedeFault
      ensures live ==> Follows(s, actions, last, w) && if fault.Some? then StillHolding(s, last, w) else w !in last.workers
      ensures repository.work
        == if fault.Some? then old(repository.work) else SupersedeTx(old(repository.work), lease.id, reason, at)
    {
      actions, last, fault := [], s, up.supersedeFault;
      if fault.None? {
        repository.Supersede(lease.id, reason, at);
        if live {
          actions, last := TakeStep(settings.queue, s, actions, last, Action.Refuse(w, reason, at));
        }
      }
    }

    /** The page has moved on: the job is superseded and its current revision enqueued, in two transactions. Raced or
        not, unless something raises the current revision is then attended to. */
    method Requeue(lease: WorkLease, up: Upstream, current: int, at: int, ghost live: bool, ghost w: nat, ghost s: System)
      returns (fault: Option<Fault>, ghost actions: seq<Action>, ghost last: System)
      requires Begins(lease, up, at, live, s, w) && current != lease.revision
      modifies repository`work, repository`nextWork
      ensures repository.Valid()
      ensures live ==> Follows(s, actions, last, w) && if fault.Some? then StillHolding(s, last, w) else w !in last.workers
      ensures fault == if up.supersedeFault.Some? then up.supersedeFault else up.requeueFault
      ensures lease.id in repository.work <==> lease.id in old(repository.work)
      ensures fault.None? && lease.id in repository.work ==> Retired(repository.work[lease.id], at)
      ensures fault.None? ==> Moved(lease.page, current)
    {
      actions, last, fault := [], s, up.supersedeFault;
      if fault.Some? {
        return;
      }
      var reason := "Révision demandée " + Text(lease.revision) + ", révision courante " + Text(current);
      if live {
        actions, last := RequeueRun(settings.queue, s, w, current, reason, at, up.requeueFault.None?, up.requeueRival);
      }
      repository.Supersede(lease.id, reason, at);
      fault := up.requeueFault;
      if fault.Some? {
        return;
      }
      RivalledClearsOlder(repository.work, repository.nextWork, lease.page, current, lease.priority, at, up.requeueRival);
      if lease.id in repository.work {
        RivalledKeepsSettled(repository.work, repository.nextWork, lease.page, current, lease.priority, at, up.requeueRival,
                             lease.id);
      }
      RivalledKeepsUnique(repository.work, repository.nextWork, lease.page, current, lease.priority, at, up.requeueRival);
      repository.Enqueue(lease.page, current, lease.priority, false, up.requeueRival, at);
    }

    /** The answer is saved, and only then the job completed; registering the wiki comes last. */
    method Publish(lease: WorkLease, up: Upstream, answer: Answer, at: int, ghost live: bool, ghost w: nat, ghost s: System)
      returns (fault: Option<Fault>, ghost actions: seq<Action>, ghost last: System)
      requires Begins(lease, up, at, live, s, w)
      modifies repository`work, repository`results, repository`nextResult
      ensures repository.Valid()
      ensures live ==> Follows(s, actions, last, w) && if fault.Some? then StillHolding(s, last, w) else w !in last.workers
      ensures fault == if up.saveFault.Some? then up.saveFault
                       else if up.completeFault.Some? then up.completeFault else up.registerFault
      ensures repository.results == if up.saveFault.Some? then old(repository.results)
        else SaveTx(old(repository.results), old(repository.nextResult), ResultRow(lease.page, lease.revision, at, answer))
      ensures repository.work == if up.saveFault.None? && up.completeFault.None? then CompleteTx(old(repository.work), lease.id)
                                 else old(repository.work)
    {
      actions, last := [], s;
      if live {
        var reach := if up.saveFault.Some? then OnlyStamped else if up.completeFault.Some? then Stored
                     else if up.registerFault.Some? then Removed else Done;
        actions, last := PublishRun(settings.queue, s, w, answer, reach);
      }
      if up.saveFault.Some? {
        return up.saveFault, actions, last;
      }
      repository.SaveResult(ResultRow(lease.page, lease.revision, at, answer));
      if up.completeFault.Some? {
        return up.completeFault, actions, last;
      }
      repository.Complete(lease.id);
      fault := up.registerFault;
    }

    /** `process`: refuses, requeues or publishes; every fault on the way is the caller's to settle. */
    method Process(lease: WorkLease, up: Upstream, at: int, ghost live: bool, ghost w: nat, ghost s: System)
      returns (fault: Option<Fault>, ghost actions: seq<Action>, ghost last: System)
      requires Begins(lease, up, at, live, s, w)
      modifies repository`work, repository`nextWork, repository`results, repository`nextResult
      ensures repository.Valid() && fault == JobFault(settings, lease, up)
      ensures live ==> Follows(s, actions, last, w) && if fault.Some? then StillHolding(s, last, w) else w !in last.workers
      ensures repository.results
        == ResultsAfter(settings, lease, up, at, old(repository.results), old(repository.nextResult))
      ensures lease.id in repository.work <==>
        lease.id in old(repository.work) && !(Stores(settings, lease, up) && up.completeFault.None?)
      ensures fault.None? && lease.id in repository.work ==> Retired(repository.work[lease.id], at)
      ensures (up.page.Answered? ==> IsCurrentArticle(lease, up)) && !(Stores(settings, lease, up) && up.completeFault.None?)
        ==> repository.work == old(repository.work)
      ensures up.page.Answered? && up.page.value.revision != lease.revision && fault.None? ==>
        up.page.value.namespace != 0 || up.page.value.isRedirect || Moved(lease.page, up.page.value.revision)
    {
      actions, last := [], s;
      RunsNowhere(settings.queue, s);
      if up.page.Raised? {
        return Some(up.page.fault), actions, last;
      }
      var page := up.page.value;
      if page.namespace != 0 {
        fault, actions, last := Refuse(lease, up, "La page n'est plus dans l'espace principal", at, live, w, s);
        return;
      }
      if page.isRedirect {
        fault, actions, last := Refuse(lease, up, "La page est une redirection", at, live, w, s);
        return;
      }
      if page.revision != lease.revision {
        fault, actions, last := Requeue(lease, up, page.revision, at, live, w, s);
        return;
      }
      var attributed := Attribute(up);
      if attributed.Raised? {
        return Some(attributed.fault), actions, last;
      }
      if up.editors.Raised? {
        return Some(up.editors.fault), actions, last;
      }
      if up.bots.Raised? {
        return Some(up.bots.fault), actions, last;
      }
      var a := attributed.value;
      var distinct := Max(|a.contributors|, up.editors.value.count - up.bots.value);
      var answer := Answer(page.title, a.metric, a.contributors, distinct, up.editors.value.limited, a.totalTokens);
      fault, actions, last := Publish(lease, up, answer, at, live, w, s);
    }

    /** The guarded half of `run_once`: the job is processed, and whatever raises, it is settled, on a lease that was
        outlived like on a live one. */
    method Settle(lease: WorkLease, up: Upstream, at: int, ghost live: bool, ghost w: nat, ghost s: System)
      returns (fault: Option<Fault>, ghost actions: seq<Action>, ghost last: System)
      requires Begins(lease, up, at, live, s, w)
      modifies repository`work, repository`nextWork, repository`results, repository`nextResult
      ensures repository.Valid() && fault == JobFault(settings, lease, up)
      ensures live ==>
        Run(settings.queue, s, actions, last) && Mirrors(last, repository) && last.workers == s.workers - {w}
      ensures repository.results
        == ResultsAfter(settings, lease, up, at, old(repository.results), old(repository.nextResult))
      ensures lease.id in repository.work <==>
        lease.id in old(repository.work) && !(Stores(settings, lease, up) && up.completeFault.None?)
      ensures lease.id in repository.work ==> IsSettled(repository.work[lease.id], lease, fault, at)
    {
      fault, actions, last := Process(lease, up, at, live, w, s);
      if fault.Some? {
        var f := fault.value;
        if live {
          actions, last := FailRun(settings.queue, s, actions, last, w, f, at);
        }
        repository.Fail(lease, f.code, f.message, settings.queue.maxAttempts, f.permanent, at);
      } else if live {
        assert last.workers == last.workers - {w};
      }
    }

    /** A row that is left is superseded, or failed with the fault's code and backoff; it is not leased. */
    ghost predicate IsSettled(row: WorkItem, lease: WorkLease, fault: Option<Fault>, at: int) {
      if fault.None? then Retired(row, at)
      else
        && row.leaseUntil.None? && row.workerId.None?
        && row.state == (if IsFatal(lease, settings.queue.maxAttempts, fault.value.permanent) then Dead else Pending)
        && row.errorCode == Some(Take(fault.value.code, 64)) && row.lastError == Some(Take(fault.value.message, 2000))
        && row.isPermanent == fault.value.permanent
        && row.availableAt == at + Backoff(lease.attempts) && row.updatedAt == at
    }

    /** `run_once`: claims a job if one is claimable, and never leaves it leased, whatever raises. `meanwhile` is what
        other processes have made of the tables when the job writes to them. Inside the lease and with nobody else moving,
        the whole call is a run of the state machine. */
    method RunOnce(up: Upstream, locked: set<nat>, claimedAt: int, workedAt: int, meanwhile: Option<Tables>,
                   ghost w: nat, ghost s: System)
      returns (busy: bool, ghost lease: Option<WorkLease>, ghost actions: seq<Action>, ghost last: System)
      requires repository.Valid() && Mirrors(s, repository) && Honest(up) && w !in s.workers
      requires s.now <= claimedAt <= workedAt && (up.requeueRival.Some? ==> up.requeueRival.value.at <= workedAt)
      requires meanwhile.Some? ==> meanwhile.value.Valid() && repository.nextWork <= meanwhile.value.nextWork
      modifies repository`work, repository`nextWork, repository`results, repository`nextResult
      ensures repository.Valid() && (busy <==> lease.Some?)
      ensures !busy || (meanwhile.None? && workedAt <= claimedAt + settings.queue.leaseSeconds) ==>
        Run(settings.queue, s, actions, last) && Mirrors(last, repository) && last.workers == s.workers
      ensures !busy ==> repository.work == old(repository.work) && repository.results == old(repository.results)
      ensures !busy ==> forall id :: id in repository.work && id !in locked ==> !Claimable(repository.work[id], claimedAt)
      ensures busy ==> FirstClaim(old(repository.work), locked, claimedAt, lease.value.id)
      ensures busy && lease.value.id in repository.work ==>
        IsSettled(repository.work[lease.value.id], lease.value, JobFault(settings, lease.value, up), workedAt)
      ensures busy ==>
        var results := if meanwhile.Some? then meanwhile.value.results else old(repository.results);
        var next := if meanwhile.Some? then meanwhile.value.nextResult else old(repository.nextResult);
        repository.results == ResultsAfter(settings, lease.value, up, workedAt, results, next)
      ensures busy && Stores(settings, lease.value, up) && up.completeFault.None? ==> lease.value.id !in repository.work
    {
      var claimed;
      claimed, actions, last := ClaimJob(locked, claimedAt, workedAt, w, s);
      if claimed.None? {
        return false, None, actions, last;
      }
      if meanwhile.Some? {
        repository.Become(meanwhile.value);
      }
      ghost var live := meanwhile.None? && workedAt <= claimedAt + settings.queue.leaseSeconds;
      ghost var moves, mid := [], last;
      var fault;
      fault, moves, last := Settle(claimed.value, up, workedAt, live, w, mid);
      busy, lease := true, claimed;
      if live {
        RunAppend(settings.queue, s, actions, mid, moves, last);
        actions := actions + moves;
        assert last.workers == s.workers;
      }
    }

    /** The claim of `run_once`, with the clock moved on to when the job is worked on. */
    method ClaimJob(locked: set<nat>, claimedAt: int, workedAt: int, ghost w: nat, ghost s: System)
      returns (lease: Option<WorkLease>, ghost actions: seq<Action>, ghost last: System)
      requires repository.Valid() && Mirrors(s, repository) && w !in s.workers && s.now <= claimedAt <= workedAt
      modifies repository`work
      ensures repository.Valid() && Run(settings.queue, s, actions, last) && Mirrors(last, repository)
      ensures lease.None? ==> last == s && repository.work == old(repository.work)
      ensures lease.None? ==> forall id :: id in repository.work && id !in locked ==> !Claimable(repository.work[id], claimedAt)
      ensures lease.Some? ==>
        && FirstClaim(old(repository.work), locked, claimedAt, lease.value.id) && lease.value.id in repository.work
        && last.now == workedAt && last.workers - {w} == s.workers
        && w in last.workers && last.workers[w] == Holding(lease.value, claimedAt + settings.queue.leaseSeconds, Working)
    {
      lease := repository.Claim(workerId, settings.queue.leaseSeconds, locked, claimedAt);
      if lease.None? {
        RunsNowhere(settings.queue, s);
        return None, [], s;
      }
      actions, last := ClaimRun(settings.queue, s, lease.value, workerId, locked, claimedAt, workedAt, w);
      assert last.workers - {w} == s.workers;
    }
  }
}
