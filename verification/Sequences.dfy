/** Notions on sequences and sets that several parts share. */
module Sequences {
  predicate OccursAt<T(==)>(s: seq<T>, sub: seq<T>, k: nat) {
    k + |sub| <= |s| && s[k..k + |sub|] == sub
  }

  predicate Contains<T(==)>(s: seq<T>, sub: seq<T>) {
    exists k :: 0 <= k <= |s| && OccursAt(s, sub, k)
  }

  predicate EndsWith<T(==)>(s: seq<T>, sub: seq<T>) {
    |sub| <= |s| && s[|s| - |sub|..] == sub
  }

  /** Contained means: something before it and something after it make up the whole. */
  lemma ContainsIs<T>(s: seq<T>, sub: seq<T>)
    ensures Contains(s, sub) <==> exists a, b :: s == a + sub + b
  {
    if Contains(s, sub) {
      var k :| 0 <= k <= |s| && OccursAt(s, sub, k);
      assert s == s[..k] + sub + s[k + |sub|..];
    }
    if a, b :| s == a + sub + b {
      assert OccursAt(s, sub, |a|);
    }
  }

  lemma PrefixContains<T>(s: seq<T>, t: seq<T>, sub: seq<T>)
    requires s <= t && Contains(s, sub)
    ensures Contains(t, sub)
  {
    var k :| 0 <= k <= |s| && OccursAt(s, sub, k);
    assert t[..|s|] == s;
    assert t[k..k + |sub|] == s[k..k + |sub|];
    assert OccursAt(t, sub, k);
  }

  lemma NothingContains<T>(sub: seq<T>)
    requires sub != []
    ensures !Contains([], sub)
  {
  }

  lemma EndIsContained<T>(s: seq<T>, sub: seq<T>)
    requires EndsWith(s, sub)
    ensures Contains(s, sub)
  {
    assert OccursAt(s, sub, |s| - |sub|);
  }

  predicate Distinct<T(==)>(xs: seq<T>) {
    forall i, j :: 0 <= i < j < |xs| ==> xs[i] != xs[j]
  }

  function Flatten<T>(parts: seq<seq<T>>): seq<T> {
    if parts == [] then [] else Flatten(parts[..|parts| - 1]) + parts[|parts| - 1]
  }

  lemma FlattenLast<T>(parts: seq<seq<T>>, part: seq<T>)
    ensures Flatten(parts + [part]) == Flatten(parts) + part
  {
    assert (parts + [part])[..|parts|] == parts;
  }

  lemma {:induction false} FlattenConcat<T>(a: seq<seq<T>>, b: seq<seq<T>>)
    ensures Flatten(a + b) == Flatten(a) + Flatten(b)
  {
    if b == [] {
      assert a + b == a;
    } else {
      var n := |b| - 1;
      assert Flatten(b) == Flatten(b[..n]) + b[n];
      hide Flatten;
      FlattenConcat(a, b[..n]);
      assert a + b == (a + b[..n]) + [b[n]];
      FlattenLast(a + b[..n], b[n]);
    }
  }

  lemma FlattenFirst<T>(parts: seq<seq<T>>)
    requires parts != []
    ensures Flatten(parts) == parts[0] + Flatten(parts[1..])
  {
    assert parts == [parts[0]] + parts[1..];
    FlattenConcat([parts[0]], parts[1..]);
    assert Flatten([parts[0]]) == parts[0];
  }

  lemma {:induction false} SubsetSize<T>(a: set<T>, b: set<T>)
    requires a <= b
    ensures |a| <= |b|
  {
    assert b == a + (b - a);
  }
}
