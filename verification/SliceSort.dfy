/** Sorting a slice with a `before` test. Which of two equal elements comes first is left open. */
module SliceSort {
  /** A test to sort by: a strict order once elements that come neither before nor after count as equal. */
  ghost predicate StrictWeak<T(!new)>(before: (T, T) -> bool) {
    && (forall a, b :: before(a, b) ==> !before(b, a))
    && (forall a, b, c :: !before(a, b) && !before(b, c) ==> !before(a, c))
  }

  /** Each of the numbers below `n` exactly once. */
  ghost predicate Permutation(perm: seq<nat>, n: nat) {
    && |perm| == n
    && (forall i :: 0 <= i < n ==> perm[i] < n)
    && (forall i, j :: 0 <= i < j < n ==> perm[i] != perm[j])
    && (forall k: nat :: k < n ==> k in perm)
  }

  ghost predicate Rearranged<T>(ys: seq<T>, xs: seq<T>, perm: seq<nat>) {
    |ys| == |xs| && Permutation(perm, |xs|) && forall i :: 0 <= i < |ys| ==> ys[i] == xs[perm[i]]
  }

  ghost predicate Ordered<T>(ys: seq<T>, before: (T, T) -> bool) {
    forall i, j :: 0 <= i < j < |ys| ==> !before(ys[j], ys[i])
  }

  method SortSlice<T(!new)>(xs: seq<T>, before: (T, T) -> bool) returns (ys: seq<T>, ghost perm: seq<nat>)
    requires StrictWeak(before)
    ensures Rearranged(ys, xs, perm) && Ordered(ys, before)
  {
    ys, perm := [], [];
    for n := 0 to |xs|
      invariant Rearranged(ys, xs[..n], perm) && Ordered(ys, before)
    {
      var p := n;
      while p > 0 && before(xs[n], ys[p - 1])
        invariant 0 <= p <= n
        invariant forall j :: p <= j < n ==> before(xs[n], ys[j])
      {
        p := p - 1;
      }
      InsertKeeps(ys, xs, perm, n, p);
      InsertOrdered(ys, xs[n], p, before);
      ys, perm := ys[..p] + [xs[n]] + ys[p..], perm[..p] + [n] + perm[p..];
    }
    assert xs[..|xs|] == xs;
  }

  lemma InsertKeeps<T>(ys: seq<T>, xs: seq<T>, perm: seq<nat>, n: nat, p: nat)
    requires n < |xs| && p <= n && Rearranged(ys, xs[..n], perm)
    ensures Rearranged(ys[..p] + [xs[n]] + ys[p..], xs[..n + 1], perm[..p] + [n] + perm[p..])
  {
    var perm' := perm[..p] + [n] + perm[p..];
    assert forall i :: 0 <= i <= n ==> perm'[i] == if i < p then perm[i] else if i == p then n else perm[i - 1];
    forall k: nat | k < n + 1 ensures k in perm' {
      if k == n {
        assert perm'[p] == n;
      } else {
        assert k in perm;
        var i :| 0 <= i < n && perm[i] == k;
        assert perm'[if i < p then i else i + 1] == k;
      }
    }
  }

  lemma InsertOrdered<T(!new)>(ys: seq<T>, x: T, p: nat, before: (T, T) -> bool)
    requires StrictWeak(before) && Ordered(ys, before) && p <= |ys|
    requires p > 0 ==> !before(x, ys[p - 1])
    requires forall j :: p <= j < |ys| ==> before(x, ys[j])
    ensures Ordered(ys[..p] + [x] + ys[p..], before)
  {
    var zs := ys[..p] + [x] + ys[p..];
    forall i, j | 0 <= i < j < |zs| ensures !before(zs[j], zs[i]) {
      if j == p {
        assert zs[i] == ys[i];
        assert i < p - 1 ==> !before(ys[p - 1], ys[i]);
      } else if i == p {
        assert before(x, ys[j - 1]);
      } else {
        assert zs[i] == ys[if i < p then i else i - 1] && zs[j] == ys[if j < p then j else j - 1];
      }
    }
  }

  /** A rearrangement has the same elements. */
  lemma SameElements<T>(ys: seq<T>, xs: seq<T>, perm: seq<nat>)
    requires Rearranged(ys, xs, perm)
    ensures forall x :: x in ys <==> x in xs
  {
    forall x | x in xs ensures x in ys {
      var k: nat :| k < |xs| && xs[k] == x;
      assert k in perm;
      var i :| 0 <= i < |perm| && perm[i] == k;
      assert ys[i] == x;
    }
  }
}
