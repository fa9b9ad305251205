/** The order in which repeated `Next` calls empty the queue. */
module QueueOrder {
  import opened Basics
  import opened AtomicFs
  import opened QueueModel

  /** The places taken by successive `Next` calls at the given times, every flush succeeding. */
  ghost function Drain(ts: seq<Task>, disk: Disk<seq<Task>>, nows: seq<int>): seq<nat>
    requires disk.Valid()
    decreases |nows|
  {
    if nows == [] then []
    else match NextIndex(ts, false)
      case None => []
      case Some(k) =>
        var e := Perform(Next(nows[0]), ts, disk, NoFault);
        [k] + Drain(e.mem.value, e.disk, nows[1..])
  }

  ghost function QueuedPlaces(ts: seq<Task>): set<nat> {
    set j: nat | j < |ts| && ts[j].status == Queued
  }

  /**
    `d` lists queued places, strictly increasing in (priority, creation time, place);
    whatever queued place it leaves out comes after all of them.
   */
  ghost predicate StablySorted(ts: seq<Task>, d: seq<nat>) {
    && (forall a :: 0 <= a < |d| ==> d[a] in QueuedPlaces(ts))
    && (forall a, b :: 0 <= a < b < |d| ==> d[b] < |ts| && d[a] < |ts| && Precedes(ts, d[a], d[b]))
    && (forall a, j :: 0 <= a < |d| && j in QueuedPlaces(ts) && j !in d ==> d[a] < |ts| && Precedes(ts, d[a], j))
  }

  ghost predicate SameKeys(ts: seq<Task>, us: seq<Task>) {
    |ts| == |us| && forall i :: 0 <= i < |ts| ==> ts[i].priority == us[i].priority && ts[i].createdAt == us[i].createdAt
  }

  lemma TakeFirst(ts: seq<Task>, us: seq<Task>, k: nat, d: seq<nat>)
    requires IsNext(ts, false, k) && SameKeys(ts, us)
    requires QueuedPlaces(us) == QueuedPlaces(ts) - {k}
    requires StablySorted(us, d)
    ensures StablySorted(ts, [k] + d)
  {
    var e := [k] + d;
    forall a | 0 <= a < |e| ensures e[a] in QueuedPlaces(ts) {}
    forall a, b | 0 <= a < b < |e| ensures Precedes(ts, e[a], e[b]) {
      assert e[b] == d[b - 1] && d[b - 1] in QueuedPlaces(us);
      if a > 0 { assert Precedes(us, d[a - 1], d[b - 1]); }
    }
    forall a, j | 0 <= a < |e| && j in QueuedPlaces(ts) && j !in e ensures Precedes(ts, e[a], j) {
      assert e[0] == k && j != k;
      assert forall b :: 0 <= b < |d| ==> e[b + 1] == d[b];
      if a > 0 { assert Precedes(us, d[a - 1], j); }
    }
  }

  /**
    Successive `Next` calls take the queued tasks in exactly the order of a stable
    sort by (priority, creation time), and take all of them given enough calls.
   */
  lemma {:induction false} DrainIsStableSort(ts: seq<Task>, disk: Disk<seq<Task>>, nows: seq<int>)
    requires disk.Valid()
    ensures StablySorted(ts, Drain(ts, disk, nows))
    ensures |Drain(ts, disk, nows)| == if |nows| < |QueuedPlaces(ts)| then |nows| else |QueuedPlaces(ts)|
    decreases |nows|
  {
    match NextIndex(ts, false)
    case None =>
      assert QueuedPlaces(ts) == {};
    case Some(k) =>
      assert k in QueuedPlaces(ts);
      if nows != [] {
        var e := Perform(Next(nows[0]), ts, disk, NoFault);
        DrainIsStableSort(e.mem.value, e.disk, nows[1..]);
        assert QueuedPlaces(e.mem.value) == QueuedPlaces(ts) - {k};
        TakeFirst(ts, e.mem.value, k, Drain(e.mem.value, e.disk, nows[1..]));
      }
  }

  /** The order is a function of the list: two complete listings that are both stably sorted are the same. */
  lemma {:induction false} StableOrderIsUnique(ts: seq<Task>, d: seq<nat>, e: seq<nat>)
    requires StablySorted(ts, d) && StablySorted(ts, e) && |d| == |e|
    ensures d == e
    decreases |d|
  {
    hide StablySorted;
    if d != [] {
      var n := |d| - 1;
      PrefixSorted(ts, d);
      PrefixSorted(ts, e);
      StableOrderIsUnique(ts, d[..n], e[..n]);
      LastComesFirst(ts, d, e);
      LastComesFirst(ts, e, d);
      assert d == d[..n] + [d[n]] && e == e[..n] + [e[n]];
    }
  }

  /** After a common prefix, the last of one listing comes before whatever that listing leaves out. */
  lemma LastComesFirst(ts: seq<Task>, d: seq<nat>, e: seq<nat>)
    requires StablySorted(ts, d) && StablySorted(ts, e) && |d| == |e| != 0
    requires d[..|d| - 1] == e[..|d| - 1]
    ensures e[|d| - 1] < |ts| && d[|d| - 1] < |ts|
    ensures d[|d| - 1] == e[|d| - 1] || Precedes(ts, e[|d| - 1], d[|d| - 1])
  {
    var n := |d| - 1;
    assert forall j :: 0 <= j < n ==> d[j] == d[..n][j] && e[j] == e[..n][j];
    assert forall j :: 0 <= j < n ==> Precedes(ts, d[j], d[n]);
    assert d[n] == e[n] || d[n] !in e;
  }

  lemma PrefixSorted(ts: seq<Task>, d: seq<nat>)
    requires StablySorted(ts, d) && d != []
    ensures StablySorted(ts, d[..|d| - 1])
  {
    var c := d[..|d| - 1];
    forall a, j | 0 <= a < |c| && j in QueuedPlaces(ts) && j !in c ensures Precedes(ts, c[a], j) {
      if j in d {
        assert j == d[|d| - 1];
      }
    }
  }

  lemma {:induction false} DistinctCount(d: seq<nat>, all: set<nat>)
    requires forall j :: j in d ==> j in all
    requires forall a, b :: 0 <= a < b < |d| ==> d[a] != d[b]
    ensures |d| <= |all|
    ensures |d| == |all| ==> forall j :: j in all ==> j in d
  {
    if d == [] {
      assert all != {} ==> |all| > 0;
    } else {
      var n := |d| - 1;
      assert d == d[..n] + [d[n]];
      DistinctCount(d[..n], all - {d[n]});
    }
  }

  /** `NextWarm` takes the first task of the same order that a warm worker may run, and none if there is none. */
  lemma {:induction false} WarmTakesFirstEligible(ts: seq<Task>, d: seq<nat>)
    requires StablySorted(ts, d) && |d| == |QueuedPlaces(ts)|
    ensures match NextIndex(ts, true)
      case None => forall a :: 0 <= a < |d| ==> !Eligible(ts[d[a]], true)
      case Some(k) => exists a :: 0 <= a < |d| && d[a] == k && forall b :: 0 <= b < a ==> !Eligible(ts[d[b]], true)
  {
    DistinctCount(d, QueuedPlaces(ts));
    match NextIndex(ts, true)
    case None =>
    case Some(k) =>
      assert k in QueuedPlaces(ts);
      var a :| 0 <= a < |d| && d[a] == k;
      forall b | 0 <= b < a ensures !Eligible(ts[d[b]], true) {
        assert Precedes(ts, d[b], d[a]);
      }
  }
}
