/** Counting tokens per editor and naming the few accounts that matter, through a bounded pool of candidates. */
module Attribution {
  import opened Base
  import opened Sorting
  import opened Policy

  /** An editor as WikiWho spells it: a decimal account identifier, or anything else (an address, nobody). */
  datatype Editor = Account(id: nat) | Unregistered(text: string)

  predicate IsRegistered(editor: Editor) {
    editor.Account? && editor.id > 0
  }

  /** A token's fields are absent when the stream carries something that is not text. */
  datatype Token = Token(text: Option<string>, editor: Option<Editor>)

  datatype Entry = Entry(editor: Editor, count: nat)

  /** A `Counter`: its entries in the order their keys were first counted. */
  type Counter = seq<Entry>

  ghost function EditorsOf(c: Counter): set<Editor> {
    if c == [] then {} else {c[0].editor} + EditorsOf(c[1..])
  }

  ghost predicate Distinct(c: Counter) {
    c == [] || (c[0].editor !in EditorsOf(c[1..]) && Distinct(c[1..]))
  }

  lemma {:induction false} EditorIn(c: Counter, e: Entry)
    requires e in c
    ensures e.editor in EditorsOf(c)
  {
    if e != c[0] {
      EditorIn(c[1..], e);
    }
  }

  function SumCounts(c: Counter): nat {
    if c == [] then 0 else c[0].count + SumCounts(c[1..])
  }

  function CountOf(c: Counter, editor: Editor): nat {
    if c == [] then 0 else if c[0].editor == editor then c[0].count else CountOf(c[1..], editor)
  }

  /** `counts[editor] += 1`. */
  function Increment(c: Counter, editor: Editor): Counter {
    if c == [] then [Entry(editor, 1)]
    else if c[0].editor == editor then [Entry(editor, c[0].count + 1)] + c[1..]
    else [c[0]] + Increment(c[1..], editor)
  }

  predicate Countable(token: Token, isAlnum: char -> bool) {
    token.text.Some? && token.editor.Some? && exists ch :: ch in token.text.value && isAlnum(ch)
  }

  /** The editors of the countable tokens, in stream order. */
  function CountedEditors(tokens: seq<Token>, isAlnum: char -> bool): seq<Editor> {
    if tokens == [] then []
    else
      var last := tokens[|tokens| - 1];
      CountedEditors(tokens[..|tokens| - 1], isAlnum) + if Countable(last, isAlnum) then [last.editor.value] else []
  }

  lemma {:induction false} IncrementCounts(c: Counter, editor: Editor)
    requires Distinct(c)
    ensures var d := Increment(c, editor);
      && Distinct(d)
      && SumCounts(d) == SumCounts(c) + 1
      && (forall e :: CountOf(d, e) == CountOf(c, e) + if e == editor then 1 else 0)
      && EditorsOf(d) == EditorsOf(c) + {editor}
  {
    if c == [] {
    } else if c[0].editor == editor {
      assert Increment(c, editor)[1..] == c[1..];
    } else {
      IncrementCounts(c[1..], editor);
      assert Increment(c, editor)[1..] == Increment(c[1..], editor);
    }
  }

  /** The counter after counting `editors` one by one. */
  function CounterOf(editors: seq<Editor>): Counter {
    if editors == [] then [] else Increment(CounterOf(editors[..|editors| - 1]), editors[|editors| - 1])
  }

  lemma CounterOfOne(editors: seq<Editor>, editor: Editor)
    ensures CounterOf(editors + [editor]) == Increment(CounterOf(editors), editor)
  {
    assert (editors + [editor])[..|editors|] == editors;
  }

  /** `c` counts exactly `editors`. */
  ghost predicate Counts(c: Counter, editors: seq<Editor>) {
    && Distinct(c) && SumCounts(c) == |editors|
    && forall e :: CountOf(c, e) == multiset(editors)[e]
  }

  lemma CountsOne(c: Counter, editors: seq<Editor>, editor: Editor)
    requires Counts(c, editors)
    ensures Counts(Increment(c, editor), editors + [editor])
  {
    IncrementCounts(c, editor);
  }

  /** A counter's entries are distinct, each is its editor's true number, and their sum is the total. */
  lemma {:induction false} CounterCounts(editors: seq<Editor>)
    ensures Counts(CounterOf(editors), editors)
  {
    if editors != [] {
      var n := |editors| - 1;
      CounterCounts(editors[..n]);
      CountsOne(CounterOf(editors[..n]), editors[..n], editors[n]);
      assert editors == editors[..n] + [editors[n]];
    }
  }

  lemma CountedOne(tokens: seq<Token>, token: Token, isAlnum: char -> bool)
    ensures CountedEditors(tokens + [token], isAlnum)
      == if Countable(token, isAlnum) then CountedEditors(tokens, isAlnum) + [token.editor.value] else CountedEditors(tokens, isAlnum)
  {
    assert (tokens + [token])[..|tokens|] == tokens;
  }

  /** `count_tokens`: the tally counts each editor's countable tokens, and its total is the sum of its counts. */
  method CountTokens(tokens: seq<Token>, isAlnum: char -> bool) returns (counts: Counter, total: nat)
    ensures counts == CounterOf(CountedEditors(tokens, isAlnum))
    ensures total == SumCounts(counts) == |CountedEditors(tokens, isAlnum)|
    ensures forall e :: CountOf(counts, e) == multiset(CountedEditors(tokens, isAlnum))[e]
  {
    counts, total := [], 0;
    for k := 0 to |tokens|
      invariant counts == CounterOf(CountedEditors(tokens[..k], isAlnum)) && total == |CountedEditors(tokens[..k], isAlnum)|
    {
      assert tokens[..k + 1] == tokens[..k] + [tokens[k]];
      CountedOne(tokens[..k], tokens[k], isAlnum);
      if Countable(tokens[k], isAlnum) {
        CounterOfOne(CountedEditors(tokens[..k], isAlnum), tokens[k].editor.value);
        counts := Increment(counts, tokens[k].editor.value);
        total := total + 1;
      }
    }
    assert tokens[..|tokens|] == tokens;
    CounterCounts(CountedEditors(tokens, isAlnum));
  }

  /** The token counts for the editor, in its own fields: it is the editor's, and its text has a letter or a digit. */
  ghost predicate CountsFor(token: Token, isAlnum: char -> bool, editor: Editor) {
    && token.editor == Some(editor) && token.text.Some?
    && exists k :: 0 <= k < |token.text.value| && isAlnum(token.text.value[k])
  }

  ghost function TokensOf(tokens: seq<Token>, isAlnum: char -> bool, editor: Editor): set<nat> {
    set i: nat | i < |tokens| && CountsFor(tokens[i], isAlnum, editor)
  }

  /** An editor's count is the number of the editor's own tokens that have a letter or a digit. */
  lemma {:induction false} CountIsTokens(tokens: seq<Token>, isAlnum: char -> bool, editor: Editor)
    ensures multiset(CountedEditors(tokens, isAlnum))[editor] == |TokensOf(tokens, isAlnum, editor)|
  {
    if tokens != [] {
      var n := |tokens| - 1;
      CountIsTokens(tokens[..n], isAlnum, editor);
      CountedOne(tokens[..n], tokens[n], isAlnum);
      TokensOne(tokens[..n], tokens[n], isAlnum, editor);
      CountsForIs(tokens[n], isAlnum, editor);
      assert tokens == tokens[..n] + [tokens[n]];
    }
  }

  lemma TokensOne(tokens: seq<Token>, token: Token, isAlnum: char -> bool, editor: Editor)
    ensures |TokensOf(tokens + [token], isAlnum, editor)|
      == |TokensOf(tokens, isAlnum, editor)| + if CountsFor(token, isAlnum, editor) then 1 else 0
  {
    ghost var mine := (t: Token) => CountsFor(t, isAlnum, editor);
    assert TokensOf(tokens, isAlnum, editor) == Hits(tokens, mine);
    assert TokensOf(tokens + [token], isAlnum, editor) == Hits(tokens + [token], mine);
    HitsOne(tokens, token, mine);
  }

  ghost function Hits<T>(s: seq<T>, wanted: T -> bool): set<nat> {
    set i: nat | i < |s| && wanted(s[i])
  }

  lemma HitsOne<T>(s: seq<T>, x: T, wanted: T -> bool)
    ensures |Hits(s + [x], wanted)| == |Hits(s, wanted)| + if wanted(x) then 1 else 0
  {
    if wanted(x) {
      assert Hits(s + [x], wanted) == Hits(s, wanted) + {|s|};
    } else {
      assert Hits(s + [x], wanted) == Hits(s, wanted);
    }
  }

  lemma CountsForIs(token: Token, isAlnum: char -> bool, editor: Editor)
    ensures CountsFor(token, isAlnum, editor) <==> Countable(token, isAlnum) && token.editor.value == editor
  {
    if CountsFor(token, isAlnum, editor) {
      var k :| 0 <= k < |token.text.value| && isAlnum(token.text.value[k]);
      assert token.text.value[k] in token.text.value;
    }
  }

  /* ---- Ranking ---- */

  predicate Larger(a: Entry, b: Entry) {
    a.count > b.count
  }

  /** `counts.most_common()`. */
  function MostCommon(c: Counter): Counter {
    Sort(c, Larger)
  }

  /** `candidate_user_ids` over ranked entries: the first `limit` registered accounts. */
  function CandidateIds(ranked: Counter, limit: nat): seq<int> {
    if ranked == [] || limit == 0 then []
    else if IsRegistered(ranked[0].editor) then [ranked[0].editor.id as int] + CandidateIds(ranked[1..], limit - 1)
    else CandidateIds(ranked[1..], limit)
  }

  type Users = map<int, ResolvedUser>

  /** What `resolve_users` brings back of the directory when it is asked about `ids`. */
  function Resolve(directory: Users, ids: seq<int>): Users {
    map id | id in directory && id in ids :: directory[id]
  }

  /** An exact threshold such as 1/100. */
  datatype Ratio = Ratio(num: int, den: int)

  /** The significance gate of the token ranking: enough tokens, and a share of at least `least`, without rounding. */
  predicate Significant(e: Entry, total: nat, minimumTokens: int, least: Ratio) {
    e.count >= minimumTokens && e.count * least.den >= least.num * total
  }

  function CreditFor(e: Entry, user: ResolvedUser, total: nat): Contributor {
    Contributor(user.userId, user.username, e.count, total)
  }

  datatype Gate = Tokens(minimumTokens: int, least: Ratio) | Edits

  predicate Passes(gate: Gate, e: Entry, total: nat)
    requires total > 0
  {
    IsRegistered(e.editor) && (gate.Edits? || Significant(e, total, gate.minimumTokens, gate.least))
  }

  predicate Creditable(gate: Gate, e: Entry, total: nat, users: Users, nameable: ResolvedUser -> bool)
    requires total > 0
  {
    Passes(gate, e, total) && e.editor.id in users && nameable(users[e.editor.id])
  }

  /** The loop of both rankings from the point where `named` are already listed. */
  function Select(ranked: Counter, total: nat, gate: Gate, users: Users, nameable: ResolvedUser -> bool, limit: nat,
                  named: seq<Contributor>): seq<Contributor>
    requires total > 0
  {
    if ranked == [] then named
    else if !Creditable(gate, ranked[0], total, users, nameable) then
      Select(ranked[1..], total, gate, users, nameable, limit, named)
    else
      var named' := named + [CreditFor(ranked[0], users[ranked[0].editor.id], total)];
      if |named'| == limit then named'
      else Select(ranked[1..], total, gate, users, nameable, limit, named')
  }

  /** `select_contributors` and `select_top_editors`. */
  function Named(counts: Counter, total: nat, gate: Gate, users: Users, nameable: ResolvedUser -> bool, limit: nat)
    : seq<Contributor>
  {
    if total == 0 then [] else Select(MostCommon(counts), total, gate, users, nameable, limit, [])
  }

  method SelectRanked(counts: Counter, total: nat, gate: Gate, users: Users, nameable: ResolvedUser -> bool, limit: nat)
    returns (named: seq<Contributor>)
    ensures named == Named(counts, total, gate, users, nameable, limit)
  {
    named := [];
    if total == 0 {
      return;
    }
    var ranked := MostCommon(counts);
    var k := 0;
    while k < |ranked|
      invariant 0 <= k <= |ranked|
      invariant Select(ranked[k..], total, gate, users, nameable, limit, named)
        == Named(counts, total, gate, users, nameable, limit)
    {
      assert ranked[k..][1..] == ranked[k + 1..];
      if Creditable(gate, ranked[k], total, users, nameable) {
        named := named + [CreditFor(ranked[k], users[ranked[k].editor.id], total)];
        if |named| == limit {
          return;
        }
      }
      k := k + 1;
    }
  }

  /* ---- What the loop names ---- */

  function Creditables(ranked: Counter, total: nat, gate: Gate, users: Users, nameable: ResolvedUser -> bool): Counter
    requires total > 0
  {
    if ranked == [] then []
    else
      var rest := Creditables(ranked[1..], total, gate, users, nameable);
      if Creditable(gate, ranked[0], total, users, nameable) then [ranked[0]] + rest else rest
  }

  /** The credits of the entries whose account is known. */
  function Listed(entries: Counter, total: nat, users: Users): seq<Contributor>
    requires total > 0
  {
    if entries == [] then []
    else
      var rest := Listed(entries[1..], total, users);
      var e := entries[0];
      if e.editor.Account? && e.editor.id in users then [CreditFor(e, users[e.editor.id], total)] + rest else rest
  }

  /** The loop names exactly the first `limit` creditable entries of the ranking, in ranking order. */
  lemma {:induction false} SelectNamesFirst(ranked: Counter, total: nat, gate: Gate, users: Users,
                                            nameable: ResolvedUser -> bool, limit: nat, named: seq<Contributor>)
    requires total > 0 && |named| < limit
    ensures Select(ranked, total, gate, users, nameable, limit, named)
      == named + Listed(Take(Creditables(ranked, total, gate, users, nameable), limit - |named|), total, users)
  {
    if ranked == [] {
    } else if !Creditable(gate, ranked[0], total, users, nameable) {
      SelectNamesFirst(ranked[1..], total, gate, users, nameable, limit, named);
    } else {
      var head := CreditFor(ranked[0], users[ranked[0].editor.id], total);
      var rest := Creditables(ranked[1..], total, gate, users, nameable);
      assert Creditables(ranked, total, gate, users, nameable) == [ranked[0]] + rest;
      ListedHead(ranked[0], rest, limit - |named|, total, users);
      if |named| + 1 == limit {
        assert Take(rest, 0) == [];
      } else {
        SelectNamesFirst(ranked[1..], total, gate, users, nameable, limit, named + [head]);
        var tail := Listed(Take(rest, limit - |named| - 1), total, users);
        assert (named + [head]) + tail == named + ([head] + tail);
      }
    }
  }

  lemma ListedHead(e: Entry, rest: Counter, n: nat, total: nat, users: Users)
    requires total > 0 && n > 0 && e.editor.Account? && e.editor.id in users
    ensures Listed(Take([e] + rest, n), total, users)
      == [CreditFor(e, users[e.editor.id], total)] + Listed(Take(rest, n - 1), total, users)
  {
    assert Take([e] + rest, n) == [e] + Take(rest, n - 1);
    assert ([e] + Take(rest, n - 1))[1..] == Take(rest, n - 1);
  }

  lemma {:induction false} ListedAlike(entries: Counter, total: nat, users: Users, directory: Users)
    requires total > 0
    requires forall id :: id in users ==> id in directory && users[id] == directory[id]
    requires forall e :: e in entries ==> e.editor.Account? && e.editor.id in users
    ensures Listed(entries, total, users) == Listed(entries, total, directory)
    ensures |Listed(entries, total, users)| == |entries|
  {
    if entries != [] {
      assert entries[0] in entries;
      ListedAlike(entries[1..], total, users, directory);
    }
  }

  lemma {:induction false} CreditablesAreKnown(ranked: Counter, total: nat, gate: Gate, users: Users,
                                               nameable: ResolvedUser -> bool)
    requires total > 0
    ensures forall e :: e in Creditables(ranked, total, gate, users, nameable) ==>
      e in ranked && Creditable(gate, e, total, users, nameable)
  {
    if ranked != [] {
      CreditablesAreKnown(ranked[1..], total, gate, users, nameable);
    }
  }

  /** Names found through `users` are the ones `directory` would give for the same entries. */
  lemma NamedAlike(ranked: Counter, total: nat, gate: Gate, users: Users, directory: Users,
                   nameable: ResolvedUser -> bool, limit: nat)
    requires total > 0
    requires forall id :: id in users ==> id in directory && users[id] == directory[id]
    ensures var entries := Take(Creditables(ranked, total, gate, users, nameable), limit);
      Listed(entries, total, users) == Listed(entries, total, directory) && |Listed(entries, total, users)| == |entries|
  {
    var all := Creditables(ranked, total, gate, users, nameable);
    CreditablesAreKnown(ranked, total, gate, users, nameable);
    assert forall e :: e in Take(all, limit) ==> e in all;
    ListedAlike(Take(all, limit), total, users, directory);
  }

  /* ---- Nobody better is left out ---- */

  lemma {:induction false} CreditableIsFound(ranked: Counter, total: nat, gate: Gate, users: Users,
                                             nameable: ResolvedUser -> bool, e: Entry)
    requires total > 0 && e in ranked && Creditable(gate, e, total, users, nameable)
    ensures e in Creditables(ranked, total, gate, users, nameable)
  {
    if e != ranked[0] {
      CreditableIsFound(ranked[1..], total, gate, users, nameable, e);
    }
  }

  ghost predicate CountsFall(c: Counter) {
    forall i, j :: 0 <= i < j < |c| ==> c[i].count >= c[j].count
  }

  lemma {:induction false} CreditablesFall(ranked: Counter, total: nat, gate: Gate, users: Users,
                                           nameable: ResolvedUser -> bool)
    requires total > 0 && CountsFall(ranked)
    ensures CountsFall(Creditables(ranked, total, gate, users, nameable))
  {
    if ranked != [] {
      var rest := Creditables(ranked[1..], total, gate, users, nameable);
      CreditablesFall(ranked[1..], total, gate, users, nameable);
      CreditablesAreKnown(ranked[1..], total, gate, users, nameable);
      assert CountsFall(rest);
      forall e | e in rest ensures ranked[0].count >= e.count {
        var m :| 1 <= m < |ranked| && ranked[m] == e;
      }
      HeadFalls(ranked[0], rest);
    }
  }

  lemma HeadFalls(head: Entry, rest: Counter)
    requires CountsFall(rest) && forall e :: e in rest ==> head.count >= e.count
    ensures CountsFall([head] + rest)
  {
  }

  lemma {:induction false} ListedAt(entries: Counter, total: nat, users: Users, i: nat)
    requires total > 0 && i < |entries| && forall e :: e in entries ==> e.editor.Account? && e.editor.id in users
    ensures |Listed(entries, total, users)| == |entries|
    ensures Listed(entries, total, users)[i] == CreditFor(entries[i], users[entries[i].editor.id], total)
  {
    assert entries[0] in entries;
    if |entries| > 1 {
      ListedAt(entries[1..], total, users, if i > 0 then i - 1 else 0);
    } else {
      assert entries[1..] == [];
    }
  }

  /** The names are the top of the ranking, in the accounts' own counts: an account that is known, may be named and passes
      the gate is named with its count, or all `limit` places are taken by counts at least as large. */
  lemma TopAreNamed(counts: Counter, total: nat, gate: Gate, users: Users, nameable: ResolvedUser -> bool, limit: nat,
                    id: nat, count: nat)
    requires total > 0 && limit > 0 && Entry(Account(id), count) in counts && id > 0 && id in users && nameable(users[id])
    requires gate.Tokens? ==> count >= gate.minimumTokens && count * gate.least.den >= gate.least.num * total
    ensures var named := Named(counts, total, gate, users, nameable, limit);
      || Contributor(users[id].userId, users[id].username, count, total) in named
      || (|named| == limit && forall c :: c in named ==> c.count >= count)
  {
    var e, ranked := Entry(Account(id), count), MostCommon(counts);
    var all := Creditables(ranked, total, gate, users, nameable);
    RankedFall(counts);
    CreditableIsFound(ranked, total, gate, users, nameable, e);
    CreditablesFall(ranked, total, gate, users, nameable);
    CreditablesAreKnown(ranked, total, gate, users, nameable);
    assert forall x :: x in all ==> x.editor.Account? && x.editor.id in users;
    SelectNamesFirst(ranked, total, gate, users, nameable, limit, []);
    var j :| 0 <= j < |all| && all[j] == e;
    NamedAt(all, total, users, limit, j);
  }

  lemma RankedFall(counts: Counter)
    ensures CountsFall(MostCommon(counts))
    ensures forall e :: e in MostCommon(counts) <==> e in counts
  {
    var ranked := MostCommon(counts);
    SortKeeps(counts, Larger);
    SortRanks(counts, Larger);
    assert forall i, j :: 0 <= i < j < |ranked| ==> !Larger(ranked[j], ranked[i]);
  }

  lemma NamedAt(all: Counter, total: nat, users: Users, limit: nat, j: nat)
    requires total > 0 && j < |all| && forall e :: e in all ==> e.editor.Account? && e.editor.id in users
    requires CountsFall(all)
    ensures var named := Listed(Take(all, limit), total, users);
      || CreditFor(all[j], users[all[j].editor.id], total) in named
      || (|named| == limit && forall c :: c in named ==> c.count >= all[j].count)
  {
    var entries := Take(all, limit);
    var named := Listed(entries, total, users);
    assert forall e :: e in entries ==> e in all;
    if j < |entries| {
      ListedAt(entries, total, users, j);
    } else {
      assert |entries| == limit;
      if limit > 0 {
        ListedAt(entries, total, users, 0);
      } else {
        assert named == [];
      }
      forall c | c in named ensures c.count >= all[j].count {
        var i :| 0 <= i < |named| && named[i] == c;
        ListedAt(entries, total, users, i);
      }
    }
  }

  /* ---- Rankings keep the counts ---- */

  lemma {:induction false} InsertKeepsCounter(x: Entry, s: Counter)
    requires Distinct(s) && x.editor !in EditorsOf(s)
    ensures var t := Insert(x, s, Larger);
      Distinct(t) && SumCounts(t) == x.count + SumCounts(s) && EditorsOf(t) == {x.editor} + EditorsOf(s)
  {
    if s == [] || !Larger(s[0], x) {
      assert ([x] + s)[1..] == s;
    } else {
      InsertKeepsCounter(x, s[1..]);
      assert Insert(x, s, Larger)[1..] == Insert(x, s[1..], Larger);
    }
  }

  lemma {:induction false} SortKeepsCounter(c: Counter)
    requires Distinct(c)
    ensures Distinct(MostCommon(c)) && SumCounts(MostCommon(c)) == SumCounts(c) && EditorsOf(MostCommon(c)) == EditorsOf(c)
  {
    if c != [] {
      SortKeepsCounter(c[1..]);
      InsertKeepsCounter(c[0], MostCommon(c[1..]));
    }
  }

  lemma {:induction false} SumCountsAt(c: Counter, i: nat)
    requires i < |c|
    ensures c[i].count <= SumCounts(c)
  {
    if i > 0 {
      SumCountsAt(c[1..], i - 1);
    }
  }

  /* ---- The candidate pool ---- */

  /** A registered account ranked behind a full pool is matched by `pool` others at least as large. */
  lemma {:induction false} BeyondPool(ranked: Counter, pool: nat, i: nat)
    requires Ranked(ranked, Larger) && i < |ranked| && IsRegistered(ranked[i].editor)
    requires ranked[i].editor.id !in CandidateIds(ranked, pool)
    ensures (pool + 1) * ranked[i].count <= SumCounts(ranked)
  {
    var head, rest := ranked[0], ranked[1..];
    if pool == 0 {
      SumCountsAt(ranked, i);
    } else {
      assert IsRegistered(head.editor) ==> head.editor.id as int in CandidateIds(ranked, pool);
      assert rest[i - 1] == ranked[i] && Ranked(rest, Larger);
      assert !Larger(ranked[i], head);
      if IsRegistered(head.editor) {
        BeyondPool(rest, pool - 1, i - 1);
        assert (pool + 1) * ranked[i].count == pool * ranked[i].count + ranked[i].count;
      } else {
        BeyondPool(rest, pool, i - 1);
      }
    }
  }

  /** When nobody outside `ids` passes the gate, looking up only `ids` finds the same creditable entries. */
  lemma {:induction false} SameCreditables(ranked: Counter, total: nat, gate: Gate, directory: Users, ids: seq<int>,
                                           nameable: ResolvedUser -> bool)
    requires total > 0
    requires forall e :: e in ranked && IsRegistered(e.editor) && e.editor.id !in ids ==> !Passes(gate, e, total)
    ensures Creditables(ranked, total, gate, Resolve(directory, ids), nameable)
      == Creditables(ranked, total, gate, directory, nameable)
  {
    if ranked != [] {
      SameCreditables(ranked[1..], total, gate, directory, ids, nameable);
      assert ranked[0] in ranked;
    }
  }

  /** Looking up only the pool finds the first creditable entries of the ranking, and possibly misses later ones. */
  lemma {:induction false} PoolFindsPrefix(ranked: Counter, pool: nat, total: nat, gate: Gate, directory: Users,
                                           ids: seq<int>, nameable: ResolvedUser -> bool)
    requires total > 0 && Distinct(ranked)
    requires forall e :: e in ranked && IsRegistered(e.editor) ==> (e.editor.id in ids <==> e.editor.id in CandidateIds(ranked, pool))
    ensures Creditables(ranked, total, gate, Resolve(directory, ids), nameable)
      <= Creditables(ranked, total, gate, directory, nameable)
  {
    if ranked != [] {
      var head, rest := ranked[0], ranked[1..];
      assert head in ranked;
      forall e | e in rest ensures e in ranked && e.editor != head.editor {
        EditorIn(rest, e);
      }
      var users := Resolve(directory, ids);
      if pool == 0 {
        NobodyCreditable(ranked, total, gate, users, nameable);
      } else {
        PoolFindsPrefix(rest, if IsRegistered(head.editor) then pool - 1 else pool, total, gate, directory, ids, nameable);
        assert Creditable(gate, head, total, users, nameable) <==> Creditable(gate, head, total, directory, nameable);
      }
    }
  }

  lemma {:induction false} NobodyCreditable(ranked: Counter, total: nat, gate: Gate, users: Users,
                                            nameable: ResolvedUser -> bool)
    requires total > 0 && forall e :: e in ranked && IsRegistered(e.editor) ==> e.editor.id !in users
    ensures Creditables(ranked, total, gate, users, nameable) == []
  {
    if ranked != [] {
      assert ranked[0] in ranked;
      NobodyCreditable(ranked[1..], total, gate, users, nameable);
    }
  }

  /** The names found through a pool of `pool` resolved candidates. */
  function PoolNamed(counts: Counter, total: nat, gate: Gate, pool: nat, directory: Users,
                     nameable: ResolvedUser -> bool, limit: nat): seq<Contributor> {
    Named(counts, total, gate, Resolve(directory, CandidateIds(MostCommon(counts), pool)), nameable, limit)
  }

  /** The candidate pool loses nobody when `pool + 1` accounts cannot all reach the minimum share. */
  lemma PoolIsLossless(counts: Counter, pool: nat, minimumTokens: int, least: Ratio, directory: Users,
                       nameable: ResolvedUser -> bool, limit: nat)
    requires Distinct(counts) && limit > 0 && least.den > 0 && (pool + 1) * least.num > least.den
    ensures var gate := Tokens(minimumTokens, least);
      PoolNamed(counts, SumCounts(counts), gate, pool, directory, nameable, limit)
        == Named(counts, SumCounts(counts), gate, directory, nameable, limit)
  {
    var gate := Tokens(minimumTokens, least);
    var total := SumCounts(counts);
    var ranked := MostCommon(counts);
    if total > 0 {
      var ids := CandidateIds(ranked, pool);
      SortKeepsCounter(counts);
      SortRanks(counts, Larger);
      OutsidePoolFails(ranked, pool, minimumTokens, least);
      SameCreditables(ranked, total, gate, directory, ids, nameable);
      SameNames(ranked, total, gate, Resolve(directory, ids), directory, nameable, limit);
    }
  }

  lemma OutsidePoolFails(ranked: Counter, pool: nat, minimumTokens: int, least: Ratio)
    requires Ranked(ranked, Larger) && SumCounts(ranked) > 0 && least.den > 0 && (pool + 1) * least.num > least.den
    ensures forall e :: e in ranked && IsRegistered(e.editor) && e.editor.id !in CandidateIds(ranked, pool) ==>
      !Passes(Tokens(minimumTokens, least), e, SumCounts(ranked))
  {
    forall e | e in ranked && IsRegistered(e.editor) && e.editor.id !in CandidateIds(ranked, pool)
      ensures !Passes(Tokens(minimumTokens, least), e, SumCounts(ranked))
    {
      var i :| 0 <= i < |ranked| && ranked[i] == e;
      BeyondPool(ranked, pool, i);
      ShareTooSmall(e.count, SumCounts(ranked), pool + 1, least.num, least.den);
    }
  }

  lemma ShareTooSmall(count: nat, total: nat, n: nat, num: int, den: int)
    requires total > 0 && den > 0 && n * count <= total && n * num > den
    ensures count * den < num * total
  {
    assert n * (num * total) == total * (n * num);
    assert n * (count * den) == den * (n * count);
    assert total * (den + 1) == total * den + total;
    Times(den, n * count, total);
    Times(total, den + 1, n * num);
    if count * den >= num * total {
      Times(n, num * total, count * den);
    }
  }

  lemma Times(k: nat, a: int, b: int)
    requires a <= b
    ensures k * a <= k * b
  {
  }

  lemma SameNames(ranked: Counter, total: nat, gate: Gate, users: Users, directory: Users, nameable: ResolvedUser -> bool,
                  limit: nat)
    requires total > 0 && limit > 0
    requires forall id :: id in users ==> id in directory && users[id] == directory[id]
    requires Take(Creditables(ranked, total, gate, users, nameable), limit)
      == Take(Creditables(ranked, total, gate, directory, nameable), limit)
    ensures Select(ranked, total, gate, users, nameable, limit, []) == Select(ranked, total, gate, directory, nameable, limit, [])
  {
    SelectNamesFirst(ranked, total, gate, users, nameable, limit, []);
    SelectNamesFirst(ranked, total, gate, directory, nameable, limit, []);
    NamedAlike(ranked, total, gate, users, directory, nameable, limit);
  }

  /** Nor does it lose anybody when the pool alone already fills the list, whatever the gate. */
  lemma FullPoolIsLossless(counts: Counter, pool: nat, gate: Gate, directory: Users, nameable: ResolvedUser -> bool, limit: nat)
    requires Distinct(counts) && limit > 0
    requires |PoolNamed(counts, SumCounts(counts), gate, pool, directory, nameable, limit)| == limit
    ensures PoolNamed(counts, SumCounts(counts), gate, pool, directory, nameable, limit)
      == Named(counts, SumCounts(counts), gate, directory, nameable, limit)
  {
    var total := SumCounts(counts);
    var ranked := MostCommon(counts);
    var ids := CandidateIds(ranked, pool);
    var users := Resolve(directory, ids);
    SortKeepsCounter(counts);
    PoolFindsPrefix(ranked, pool, total, gate, directory, ids, nameable);
    SelectNamesFirst(ranked, total, gate, users, nameable, limit, []);
    NamedAlike(ranked, total, gate, users, directory, nameable, limit);
    SameNames(ranked, total, gate, users, directory, nameable, limit);
  }

  /* ---- The bound is exact ---- */

  /** `n` accounts with `count` tokens each, numbered from `first`. */
  function Equals(first: nat, n: nat, count: nat): Counter
    decreases n
  {
    if n == 0 then [] else [Entry(Account(first), count)] + Equals(first + 1, n - 1, count)
  }

  lemma {:induction false} EqualsShape(first: nat, n: nat, count: nat)
    ensures var c := Equals(first, n, count);
      && |c| == n && (forall i :: 0 <= i < n ==> c[i] == Entry(Account(first + i), count))
      && SumCounts(c) == n * count && Sort(c, Larger) == c
      && Distinct(c) && forall e :: e in EditorsOf(c) ==> e.Account? && e.id >= first
    decreases n
  {
    if n > 0 {
      EqualsShape(first + 1, n - 1, count);
      assert n * count == (n - 1) * count + count;
      assert Equals(first, n, count)[1..] == Equals(first + 1, n - 1, count);
    }
  }

  lemma {:induction false} EqualsPool(first: nat, n: nat, count: nat, pool: nat)
    requires first > 0 && pool <= n
    ensures forall id :: id in CandidateIds(Equals(first, n, count), pool) ==> id < first + pool
    decreases n
  {
    if pool > 0 {
      EqualsPool(first + 1, n - 1, count, pool - 1);
      assert Equals(first, n, count)[1..] == Equals(first + 1, n - 1, count);
    }
  }

  /** The bound cannot be weakened: when `pool + 1` accounts can reach the minimum share, there are a page and a
      directory for which the pool hides the one account that should be named. */
  lemma PoolCanLose(pool: nat, minimumTokens: int, least: Ratio, limit: nat)
    returns (counts: Counter, directory: Users)
    requires limit > 0 && least.den > 0 && (pool + 1) * least.num <= least.den
    ensures Distinct(counts)
    ensures var gate := Tokens(minimumTokens, least);
      var everybody := (user: ResolvedUser) => true;
      PoolNamed(counts, SumCounts(counts), gate, pool, directory, everybody, limit)
        != Named(counts, SumCounts(counts), gate, directory, everybody, limit)
  {
    var count: nat := Max(1, minimumTokens);
    counts := Equals(1, pool + 1, count);
    directory := map[(pool + 1) as int := ResolvedUser(pool + 1, "", [], false)];
    EqualsShape(1, pool + 1, count);
    EqualsPool(1, pool + 1, count, pool);
    var gate := Tokens(minimumTokens, least);
    var everybody := (user: ResolvedUser) => true;
    EqualShares(pool + 1, count, least, SumCounts(counts));
    assert counts[pool] == Entry(Account(pool + 1), count);
    NamedFromDirectory(counts, gate, directory, everybody, limit, pool);
    NamedFromNobody(counts, gate, Resolve(directory, CandidateIds(counts, pool)), everybody, limit);
  }

  lemma EqualShares(n: nat, count: nat, least: Ratio, total: int)
    requires n > 0 && total == n * count && n * least.num <= least.den
    ensures total >= count && least.num * total <= count * least.den
  {
    assert n * count == (n - 1) * count + count;
    Times(count, n * least.num, least.den);
    assert least.num * (n * count) == count * (n * least.num);
  }

  lemma NamedFromDirectory(counts: Counter, gate: Gate, directory: Users, nameable: ResolvedUser -> bool, limit: nat, i: nat)
    requires Sort(counts, Larger) == counts && SumCounts(counts) > 0 && limit > 0 && i < |counts|
    requires Creditable(gate, counts[i], SumCounts(counts), directory, nameable)
    ensures Named(counts, SumCounts(counts), gate, directory, nameable, limit) != []
  {
    var total := SumCounts(counts);
    SomebodyCreditable(counts, total, gate, directory, nameable, i);
    NamedAlike(counts, total, gate, directory, directory, nameable, limit);
    SelectFromSorted(counts, total, gate, directory, nameable, limit);
  }

  lemma SelectFromSorted(counts: Counter, total: nat, gate: Gate, users: Users, nameable: ResolvedUser -> bool, limit: nat)
    requires Sort(counts, Larger) == counts && total > 0 && limit > 0
    ensures Named(counts, total, gate, users, nameable, limit)
      == Listed(Take(Creditables(counts, total, gate, users, nameable), limit), total, users)
  {
    var ranked := MostCommon(counts);
    SelectNamesFirst(ranked, total, gate, users, nameable, limit, []);
    assert ranked == counts;
  }

  lemma NamedFromNobody(counts: Counter, gate: Gate, users: Users, nameable: ResolvedUser -> bool, limit: nat)
    requires Sort(counts, Larger) == counts && SumCounts(counts) > 0 && limit > 0 && users == map[]
    ensures Named(counts, SumCounts(counts), gate, users, nameable, limit) == []
  {
    NobodyCreditable(counts, SumCounts(counts), gate, users, nameable);
    SelectFromSorted(counts, SumCounts(counts), gate, users, nameable, limit);
  }

  lemma {:induction false} SomebodyCreditable(ranked: Counter, total: nat, gate: Gate, users: Users,
                                              nameable: ResolvedUser -> bool, i: nat)
    requires total > 0 && i < |ranked| && Creditable(gate, ranked[i], total, users, nameable)
    ensures Creditables(ranked, total, gate, users, nameable) != []
  {
    if i > 0 {
      SomebodyCreditable(ranked[1..], total, gate, users, nameable, i - 1);
    }
  }
}
