/** Events kept a minimum gap apart, and how many of them fit into a window. */
module RateLimit {
  ghost predicate Spaced(times: seq<int>, gap: int) {
    forall i :: 0 <= i < |times| - 1 ==> times[i + 1] - times[i] >= gap
  }

  function CountIn(times: seq<int>, from: int, to: int): nat {
    if times == [] then 0
    else
      var t := times[|times| - 1];
      CountIn(times[..|times| - 1], from, to) + (if from <= t <= to then 1 else 0)
  }

  /** The count is that of the places whose events lie in the window. */
  lemma {:induction false} CountIs(times: seq<int>, from: int, to: int)
    ensures CountIn(times, from, to) == |set i | 0 <= i < |times| && from <= times[i] <= to|
  {
    var all := set i | 0 <= i < |times| && from <= times[i] <= to;
    if times == [] {
      assert all == {};
    } else {
      var n := |times| - 1;
      CountIs(times[..n], from, to);
      var init := set i | 0 <= i < n && from <= times[..n][i] <= to;
      assert all == if from <= times[n] <= to then init + {n} else init;
      assert |times[..n]| == n;
    }
  }

  lemma {:induction false} NoneBefore(times: seq<int>, gap: int, from: int, to: int)
    requires Spaced(times, gap) && gap > 0 && (times != [] ==> times[|times| - 1] < from)
    ensures CountIn(times, from, to) == 0
  {
    if times != [] {
      NoneBefore(times[..|times| - 1], gap, from, to);
    }
  }

  /** With the last event at or before `to`, all counted ones but the last lie a whole gap apart before it. */
  lemma {:induction false} CountUpToLast(times: seq<int>, gap: int, from: int, to: int)
    requires Spaced(times, gap) && gap > 0 && times != [] && from <= times[|times| - 1] <= to
    ensures CountIn(times, from, to) >= 1
    ensures (CountIn(times, from, to) - 1) * gap <= times[|times| - 1] - from
  {
    var n := |times| - 1;
    var init := times[..n];
    if init == [] || init[n - 1] < from {
      NoneBefore(init, gap, from, to);
    } else {
      CountUpToLast(init, gap, from, to);
      var c := CountIn(init, from, to);
      assert (c + 1 - 1) * gap == (c - 1) * gap + gap;
    }
  }

  /** At most length / gap + 1 events fall into any window. */
  lemma {:induction false} WindowBound(times: seq<int>, gap: int, from: int, to: int)
    requires Spaced(times, gap) && gap > 0 && from <= to
    ensures CountIn(times, from, to) <= (to - from) / gap + 1
  {
    if times != [] {
      var last := times[|times| - 1];
      if last > to {
        WindowBound(times[..|times| - 1], gap, from, to);
      } else if last < from {
        NoneBefore(times, gap, from, to);
      } else {
        CountUpToLast(times, gap, from, to);
        DivideBound(CountIn(times, from, to) - 1, gap, to - from);
      }
    }
  }

  lemma DivideBound(c: nat, gap: int, length: int)
    requires gap > 0 && c * gap <= length
    ensures c <= length / gap
  {
    var q := length / gap;
    assert length < (q + 1) * gap;
    assert c >= q + 1 ==> c * gap >= (q + 1) * gap;
  }
}
