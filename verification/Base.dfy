/** Vocabulary shared by every module of the model. */
module Base {

  datatype Option<+T> = None | Some(value: T)

  /** One credited account: how many tokens or edits it has, out of how large a total. Its share is the exact
      quotient of the two. */
  datatype Contributor = Contributor(userId: int, username: string, count: nat, outOf: nat)

  function Max(a: int, b: int): int {
    if a >= b then a else b
  }

  function Min(a: int, b: int): int {
    if a <= b then a else b
  }

  /** The first `n` elements, or all of them: `s[:n]`. */
  function Take<T>(s: seq<T>, n: nat): seq<T> {
    if |s| <= n then s else s[..n]
  }

  ghost predicate NoRepeats<T>(s: seq<T>) {
    forall i, j :: 0 <= i < j < |s| ==> s[i] != s[j]
  }

  /** The sum of `f` over the identifiers below `n`. */
  ghost function SumBelow(n: nat, f: nat -> int): int {
    if n == 0 then 0 else SumBelow(n - 1, f) + f(n - 1)
  }

  lemma {:induction false} SumBelowMonotone(n: nat, f: nat -> int, g: nat -> int)
    requires forall i: nat :: i < n ==> f(i) <= g(i)
    ensures SumBelow(n, f) <= SumBelow(n, g)
  {
    if n > 0 {
      SumBelowMonotone(n - 1, f, g);
    }
  }

  /** When `g` is at most `f` everywhere and smaller by `d` at `k`, its sum is smaller by `d`. */
  lemma {:induction false} SumBelowDrop(n: nat, f: nat -> int, g: nat -> int, k: nat, d: int)
    requires k < n
    requires forall i: nat :: i < n && i != k ==> g(i) <= f(i)
    requires g(k) + d <= f(k)
    ensures SumBelow(n, g) + d <= SumBelow(n, f)
  {
    if k == n - 1 {
      SumBelowMonotone(n - 1, g, f);
    } else {
      SumBelowDrop(n - 1, f, g, k, d);
    }
  }

  lemma {:induction false} SumBelowNonNegative(n: nat, f: nat -> int)
    requires forall i: nat :: i < n ==> 0 <= f(i)
    ensures 0 <= SumBelow(n, f)
  {
    if n > 0 {
      SumBelowNonNegative(n - 1, f);
    }
  }
}
