/** Stable sorting: what `sorted(..., reverse=True)` and `ORDER BY` compute, for any way of ranking. */
module Sorting {
  import opened Base

  /** `before` ranks like a comparison of keys: elements of equal rank are interchangeable. */
  ghost predicate Ranking<T(!new)>(before: (T, T) -> bool) {
    && (forall a, b :: before(a, b) ==> !before(b, a))
    && (forall a, b, c :: !before(a, b) && !before(b, c) ==> !before(a, c))
  }

  ghost predicate Ranked<T>(s: seq<T>, before: (T, T) -> bool) {
    forall i, j :: 0 <= i < j < |s| ==> !before(s[j], s[i])
  }

  function Insert<T>(x: T, s: seq<T>, before: (T, T) -> bool): seq<T> {
    if s == [] || !before(s[0], x) then [x] + s else [s[0]] + Insert(x, s[1..], before)
  }

  /** The elements of `s` in rank order, equal ranks in the order they came. */
  function Sort<T>(s: seq<T>, before: (T, T) -> bool): seq<T> {
    if s == [] then [] else Insert(s[0], Sort(s[1..], before), before)
  }

  lemma {:induction false} InsertKeeps<T>(x: T, s: seq<T>, before: (T, T) -> bool)
    ensures multiset(Insert(x, s, before)) == multiset{x} + multiset(s)
  {
    if s == [] || !before(s[0], x) {
    } else {
      InsertKeeps(x, s[1..], before);
      assert s == [s[0]] + s[1..];
    }
  }

  lemma {:induction false} SortKeeps<T>(s: seq<T>, before: (T, T) -> bool)
    ensures multiset(Sort(s, before)) == multiset(s)
    ensures |Sort(s, before)| == |s|
    ensures forall x :: x in Sort(s, before) <==> x in s
  {
    if s == [] {
    } else {
      SortKeeps(s[1..], before);
      InsertKeeps(s[0], Sort(s[1..], before), before);
      assert s == [s[0]] + s[1..];
    }
    assert |Sort(s, before)| == |multiset(Sort(s, before))| == |multiset(s)| == |s|;
    forall x ensures x in Sort(s, before) <==> x in s {
      assert x in Sort(s, before) <==> x in multiset(Sort(s, before));
      assert x in s <==> x in multiset(s);
    }
  }

  lemma {:induction false} InsertRanks<T(!new)>(x: T, s: seq<T>, before: (T, T) -> bool)
    requires Ranking(before) && Ranked(s, before)
    ensures Ranked(Insert(x, s, before), before)
  {
    if s == [] || !before(s[0], x) {
      forall j | 0 <= j < |s| ensures !before(s[j], x) {
        if j > 0 {
          assert !before(s[j], s[0]);
        }
      }
    } else {
      InsertRanks(x, s[1..], before);
      InsertKeeps(x, s[1..], before);
      var rest := Insert(x, s[1..], before);
      forall j | 0 <= j < |rest| ensures !before(rest[j], s[0]) {
        assert rest[j] in multiset(rest);
        if rest[j] != x {
          assert rest[j] in multiset(s[1..]);
          var k :| 0 <= k < |s[1..]| && s[1..][k] == rest[j];
          assert !before(s[k + 1], s[0]);
        }
      }
    }
  }

  lemma {:induction false} SortRanks<T(!new)>(s: seq<T>, before: (T, T) -> bool)
    requires Ranking(before)
    ensures Ranked(Sort(s, before), before)
  {
    if s != [] {
      SortRanks(s[1..], before);
      InsertRanks(s[0], Sort(s[1..], before), before);
    }
  }

  /** Every element strictly precedes the later ones. */
  ghost predicate StrictlyRanked<T>(s: seq<T>, before: (T, T) -> bool) {
    forall i, j :: 0 <= i < j < |s| ==> before(s[i], s[j])
  }

  lemma SortRanksStrictly<T(!new)>(s: seq<T>, before: (T, T) -> bool)
    requires Ranking(before)
    requires NoRepeats(s)
    requires forall x, y :: x in s && y in s && x != y ==> before(x, y) || before(y, x)
    ensures StrictlyRanked(Sort(s, before), before)
  {
    var t := Sort(s, before);
    SortKeeps(s, before);
    SortRanks(s, before);
    forall i, j | 0 <= i < j < |t| ensures before(t[i], t[j]) {
      NoDuplicates(s, t[i]);
      assert t[i] == t[j] ==> multiset(t)[t[i]] >= 2 by {
        if t[i] == t[j] {
          Duplicates(t, i, j);
        }
      }
      assert t[i] in s && t[j] in s;
    }
  }

  lemma Duplicates<T>(s: seq<T>, i: nat, j: nat)
    requires i < j < |s| && s[i] == s[j]
    ensures multiset(s)[s[i]] >= 2
  {
    assert s == s[..j] + s[j..];
    assert s[i] in s[..j];
    assert s[j..][0] == s[j];
    assert multiset(s) == multiset(s[..j]) + multiset(s[j..]);
  }

  lemma {:induction false} NoDuplicates<T>(s: seq<T>, x: T)
    requires NoRepeats(s)
    ensures multiset(s)[x] <= 1
  {
    if s != [] {
      NoDuplicates(s[1..], x);
      assert s == [s[0]] + s[1..];
      if x == s[0] {
        assert x !in s[1..];
      }
    }
  }

  lemma {:induction false} StrictRankingUnique<T(!new)>(s: seq<T>, t: seq<T>, before: (T, T) -> bool)
    requires Ranking(before) && StrictlyRanked(s, before) && StrictlyRanked(t, before)
    requires forall x :: x in s <==> x in t
    ensures s == t
  {
    assert t != [] ==> t[0] in t;
    if s != [] {
      assert s[0] in t;
      assert t[0] in s;
      var i :| 0 <= i < |t| && t[i] == s[0];
      var j :| 0 <= j < |s| && s[j] == t[0];
      assert i == 0 || j == 0;
      forall x ensures x in s[1..] <==> x in t[1..] {
        assert x in s[1..] ==> before(s[0], x);
        assert x in t[1..] ==> before(t[0], x);
        assert x in s <==> x == s[0] || x in s[1..];
        assert x in t <==> x == t[0] || x in t[1..];
      }
      StrictRankingUnique(s[1..], t[1..], before);
    }
  }
}
