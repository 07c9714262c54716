/** The two paginated reads whose honesty depends on their loop: a page's edit history and a category's members.

    The server answers in chunks of its own choosing, and an answer that announces a continuation carries something
    itself. The page may vanish between two answers. */
module History {
  import opened Base
  import opened Attribution

  /** One answer: whether the page is there, what it lists, and whether more follows. */
  datatype Reply<T> = Reply(found: bool, items: seq<T>, more: bool)

  function Items<T>(replies: seq<Reply<T>>): seq<T> {
    if replies == [] then [] else replies[0].items + Items(replies[1..])
  }

  /** Everything the server would answer: each answer but the last is there and announces the next, and the last one
      announces no more or finds the page gone. */
  ghost predicate Answers<T>(replies: seq<Reply<T>>) {
    && replies != []
    && forall i :: 0 <= i < |replies| ==>
         && (i < |replies| - 1 ==> replies[i].found && replies[i].more && replies[i].items != [])
         && (i == |replies| - 1 ==> !replies[i].found || !replies[i].more)
         && (!replies[i].found ==> replies[i].items == [])
  }

  /** The server lists all of `whole` in order, however it cuts it. */
  ghost predicate Serves<T>(replies: seq<Reply<T>>, whole: seq<T>) {
    && replies != [] && Items(replies) == whole
    && forall i :: 0 <= i < |replies| ==>
         && replies[i].found
         && (replies[i].more <==> i < |replies| - 1)
         && (|replies| > 1 ==> replies[i].items != [])
  }

  lemma {:induction false} ItemsAppend<T>(replies: seq<Reply<T>>, n: nat)
    requires n < |replies|
    ensures Items(replies[..n + 1]) == Items(replies[..n]) + replies[n].items
    ensures Items(replies[..n + 1]) <= Items(replies)
    ensures replies[n].items != [] && n + 1 < |replies| ==> |Items(replies[..n])| < |Items(replies[..n + 1])|
  {
    if n == 0 {
      assert replies[..1][1..] == [];
      assert Items(replies[..1]) == replies[0].items;
    } else {
      ItemsAppend(replies[1..], n - 1);
      assert replies[1..][..n] == replies[..n + 1][1..];
      assert replies[1..][..n - 1] == replies[..n][1..];
    }
  }

  /* ---- Edit history ---- */

  datatype EditorHistory = EditorHistory(counts: Counter, revisions: nat, complete: bool)

  /** The accounts behind a list of revisions; zero stands for an address or a suppressed name. */
  function Accounts(userIds: seq<nat>): seq<Editor> {
    if userIds == [] then []
    else
      var last := userIds[|userIds| - 1];
      Accounts(userIds[..|userIds| - 1]) + if last > 0 then [Account(last)] else []
  }

  lemma {:induction false} AccountsAtMost(userIds: seq<nat>)
    ensures |Accounts(userIds)| <= |userIds|
  {
    if userIds != [] {
      AccountsAtMost(userIds[..|userIds| - 1]);
    }
  }

  /** `counts` is the tally of the accounts behind `userIds`. */
  ghost predicate Tallies(counts: Counter, userIds: seq<nat>) {
    counts == CounterOf(Accounts(userIds))
  }

  lemma AccountsOne(userIds: seq<nat>, userId: nat)
    ensures Accounts(userIds + [userId]) == if userId > 0 then Accounts(userIds) + [Account(userId)] else Accounts(userIds)
  {
    assert (userIds + [userId])[..|userIds|] == userIds;
  }

  lemma TallyOne(counts: Counter, userIds: seq<nat>, userId: nat)
    requires Tallies(counts, userIds)
    ensures Tallies(if userId > 0 then Increment(counts, Account(userId)) else counts, userIds + [userId])
  {
    AccountsOne(userIds, userId);
    if userId > 0 {
      CounterOfOne(Accounts(userIds), Account(userId));
    }
  }

  /** An address or a suppressed name is read but not counted. */
  method TallyRevision(counts: Counter, ghost read: seq<nat>, userId: nat) returns (tally: Counter)
    requires Tallies(counts, read)
    ensures Tallies(tally, read + [userId])
  {
    TallyOne(counts, read, userId);
    tally := if userId > 0 then Increment(counts, Account(userId)) else counts;
  }

  method TallyRevisions(counts: Counter, ghost read: seq<nat>, userIds: seq<nat>) returns (tally: Counter)
    requires Tallies(counts, read)
    ensures Tallies(tally, read + userIds)
  {
    tally := counts;
    ghost var seen := read;
    for k := 0 to |userIds|
      invariant seen == read + userIds[..k] && Tallies(tally, seen)
    {
      tally := TallyRevision(tally, seen, userIds[k]);
      seen := seen + [userIds[k]];
    }
    assert seen == read + userIds;
  }

  /** `get_editor_history`, over a server that lists the history in chunks of its own choosing: the counts are the tally
      of the revisions read, and `complete` says exactly that the budget outlasted everything before the last answer and
      that the page was still there then; everything listed has been read in that case. */
  method GetEditorHistory(replies: seq<Reply<nat>>, maxRevisions: int)
    returns (h: EditorHistory, ghost read: seq<nat>, ghost asked: nat)
    requires Answers(replies)
    ensures asked <= |replies| && read == Items(replies[..asked])
    ensures h.revisions == |read| && Tallies(h.counts, read) && SumCounts(h.counts) <= h.revisions
    ensures h.complete <==> ReadToTheEnd(replies, maxRevisions)
    ensures h.complete <==> var last := |replies| - 1; replies[last].found && |Items(replies[..last])| < maxRevisions
    ensures h.complete ==> read == Items(replies)
    ensures !h.complete ==> h.revisions >= maxRevisions || !replies[|replies| - 1].found
  {
    var counts: Counter, revisions, next := [], 0, 0;
    read, asked := [], 0;
    while revisions < maxRevisions && replies[next].found
      invariant next == asked < |replies| && read == Items(replies[..asked]) && revisions == |read|
      invariant Tallies(counts, read)
      decreases |replies| - next
    {
      var reply := replies[next];
      ReadOn(replies, next, read);
      counts := TallyRevisions(counts, read, reply.items);
      read := read + reply.items;
      revisions := revisions + |reply.items|;
      if !reply.more {
        asked := next + 1;
        assert next == |replies| - 1;
        Tallied(counts, read);
        return EditorHistory(counts, revisions, true), read, asked;
      }
      next, asked := next + 1, asked + 1;
    }
    Tallied(counts, read);
    FrontGrows(replies, next, |replies| - 1);
    return EditorHistory(counts, revisions, false), read, asked;
  }

  lemma ReadOn(replies: seq<Reply<nat>>, next: nat, read: seq<nat>)
    requires next < |replies| && read == Items(replies[..next])
    ensures read + replies[next].items == Items(replies[..next + 1])
    ensures next == |replies| - 1 ==> replies[..next + 1] == replies
  {
    ItemsAppend(replies, next);
  }

  /** The budget outlasts everything before the last answer, and the page is still there. */
  predicate ReadToTheEnd<T>(replies: seq<Reply<T>>, budget: int)
    requires replies != []
  {
    replies[|replies| - 1].found && |Items(replies[..|replies| - 1])| < budget
  }

  /** A history no longer than a positive budget is read to its end, if the page stays and no empty answer comes last. */
  lemma BudgetSuffices(replies: seq<Reply<nat>>, budget: int)
    requires Answers(replies) && 0 < budget && |Items(replies)| <= budget
    requires var last := replies[|replies| - 1]; last.found && (|replies| > 1 ==> last.items != [])
    ensures ReadToTheEnd(replies, budget)
  {
    LastIsLongest(replies);
  }

  lemma Tallied(counts: Counter, read: seq<nat>)
    requires Tallies(counts, read)
    ensures SumCounts(counts) <= |read|
  {
    CounterCounts(Accounts(read));
    AccountsAtMost(read);
  }

  lemma {:induction false} FrontGrows<T>(replies: seq<Reply<T>>, k: nat, m: nat)
    requires k <= m <= |replies|
    ensures |Items(replies[..k])| <= |Items(replies[..m])|
  {
    if k < m {
      FrontGrows(replies, k, m - 1);
      ItemsAppend(replies, m - 1);
    }
  }

  /** The last answer adds what it lists. */
  lemma LastIsLongest<T>(replies: seq<Reply<T>>)
    requires replies != []
    ensures |Items(replies)| == |Items(replies[..|replies| - 1])| + |replies[|replies| - 1].items|
    ensures Items(replies[..0]) == []
  {
    ItemsAppend(replies, |replies| - 1);
    assert replies[..|replies|] == replies;
  }

  /** What has been read before the last reply, and what a page of history misses without it. */
  lemma {:induction false} BeforeLast<T>(replies: seq<Reply<T>>, n: nat)
    requires n < |replies|
    ensures var last := |replies| - 1;
      if n == last then |Items(replies[..n])| + |replies[last].items| == |Items(replies)|
      else |Items(replies[..n + 1])| + |replies[last].items| <= |Items(replies)|
  {
    if n == 0 {
      assert replies[..1][1..] == [] && Items(replies[..0]) == [];
      if |replies| > 1 {
        BeforeLast(replies[1..], 0);
      } else {
        assert replies[1..] == [];
      }
    } else {
      BeforeLast(replies[1..], n - 1);
      assert replies[1..][..n] == replies[..n + 1][1..];
      assert replies[1..][..n - 1] == replies[..n][1..];
    }
  }

  /* ---- Category members ---- */

  /** `category_members`: however the server cuts the list, a positive limit yields its first members, and the second
      answer says exactly whether some were left out. With a limit of zero or less the loop never asks and claims
      that some were. */
  method CategoryMembers<T>(replies: seq<Reply<T>>, ghost whole: seq<T>, limit: int)
    returns (members: seq<T>, truncated: bool)
    requires Serves(replies, whole)
    ensures members == if |whole| <= limit then whole else whole[..Max(0, limit)]
    ensures limit > 0 ==> (truncated <==> |whole| > limit)
    ensures limit <= 0 ==> truncated
  {
    members := [];
    var next := 0;
    while |members| < limit
      invariant next < |replies| && members == Items(replies[..next]) && members <= whole
      invariant limit > 0 && |members| >= limit ==> |whole| > |members|
      invariant limit <= 0 ==> members == []
      decreases |replies| - next
    {
      var reply := replies[next];
      ItemsAppend(replies, next);
      members := members + reply.items;
      next := next + 1;
      if !reply.more {
        assert replies[..next] == replies;
        return if |members| <= limit then members else members[..limit], |members| > limit;
      }
      BeforeLast(replies, next - 1);
    }
    return if limit < 0 then members else members[..limit], true;
  }
}
