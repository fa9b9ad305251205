/** What a restart makes of the tasks in the file, and that none of those left to do is forgotten. */
module QueueRestart {
  import opened AtomicFs
  import opened Basics
  import opened QueueModel
  import opened QueueOrder
  import opened QueueRuns

  /**
    A restart that reads the file ends no task: the ended ones are those that were
    ended, and what was queued or running is queued, otherwise as it was.
   */
  lemma {:induction false} RestartEndsNothing(s: State, es: seq<Event>, load: LoadFault)
    requires Initial(s) && Enabled(Run(s, es), Start(load))
    requires Run(s, es).disk.file.Whole? && Load(Run(s, es).disk, load).reply == Acknowledged
    ensures var stored := Run(s, es).disk.file.data;
      var up := Step(Run(s, es), Start(load));
      && up.mem.Some? && |up.mem.value| == |stored| && up.disk.file == Whole(up.mem.value)
      && forall i :: 0 <= i < |stored| ==>
           && (up.mem.value[i].status in {Completed, Failed, Cancelled} <==>
               stored[i].status in {Completed, Failed, Cancelled})
           && (stored[i].status in {Queued, Running} ==>
                 up.mem.value[i] == stored[i].(status := Queued, startedAt := None))
  {
    InitialInv(s);
    RunKeepsInv(s, es);
    var r := Run(s, es);
    assert FileOk(r, r.disk.entries[|r.disk.entries| - 1]);
  }

  ghost function Nexts(nows: seq<int>): seq<Event> {
    seq(|nows|, i requires 0 <= i < |nows| => Do(Next(nows[i]), NoFault))
  }

  lemma {:induction false} RunFirst(s: State, e: Event, es: seq<Event>)
    requires s.disk.Valid()
    ensures Run(s, [e] + es) == Run(Step(s, e), es)
  {
    hide Step;
    if es == [] {
      assert ([e] + es)[..0] == [];
      assert Run(s, []) == s;
    } else {
      var n := |es| - 1;
      assert ([e] + es)[..n + 1] == [e] + es[..n];
      RunFirst(s, e, es[..n]);
    }
  }

  /** Calls of `Next` whose flushes succeed hand out the tasks at the drained places. */
  lemma {:induction false} DrainIsHanded(s: State, nows: seq<int>, k: nat)
    requires s.disk.Valid() && s.mem.Some? && k in Drain(s.mem.value, s.disk, nows)
    ensures k < |s.mem.value| && (s.starts, s.mem.value[k].id) in Run(s, Nexts(nows)).handed
    decreases |nows|
  {
    var ts := s.mem.value;
    var j := NextIndex(ts, false).value;
    var s' := Step(s, Do(Next(nows[0]), NoFault));
    var e := Perform(Next(nows[0]), ts, s.disk, NoFault);
    StartSays(false, nows[0], ts, s.disk, NoFault);
    assert Nexts(nows) == [Do(Next(nows[0]), NoFault)] + Nexts(nows[1..]);
    RunFirst(s, Do(Next(nows[0]), NoFault), Nexts(nows[1..]));
    assert s'.mem == e.mem && s'.disk == e.disk && s'.starts == s.starts;
    if k == j {
      assert s'.handed[|s.handed|] == (s.starts, ts[j].id);
      HandedGrows(s', Nexts(nows[1..]));
    } else {
      DrainIsHanded(s', nows[1..], k);
    }
  }

  lemma {:induction false} HandedGrows(s: State, es: seq<Event>)
    requires s.disk.Valid()
    ensures s.handed <= Run(s, es).handed
  {
    if es != [] { HandedGrows(s, es[..|es| - 1]); }
  }

  lemma {:induction false} PlacesBounded(places: set<nat>, n: nat)
    requires forall p :: p in places ==> p < n
    ensures |places| <= n
  {
    if n == 0 {
      assert places == {};
    } else {
      PlacesBounded(places - {n - 1}, n - 1);
      assert |places| <= |places - {n - 1}| + 1;
    }
  }

  /** In any state as many calls as there are tasks hand out every queued one. */
  lemma {:induction false} AllQueuedAreHanded(s: State, nows: seq<int>, k: nat)
    requires s.disk.Valid() && s.mem.Some? && |nows| >= |s.mem.value|
    requires k < |s.mem.value| && s.mem.value[k].status == Queued
    ensures (s.starts, s.mem.value[k].id) in Run(s, Nexts(nows)).handed
  {
    var ts := s.mem.value;
    var d := Drain(ts, s.disk, nows);
    PlacesBounded(QueuedPlaces(ts), |ts|);
    DrainIsStableSort(ts, s.disk, nows);
    DistinctCount(d, QueuedPlaces(ts));
    assert k in QueuedPlaces(ts);
    DrainIsHanded(s, nows, k);
  }

  /** So after such a restart every task that was queued or running is handed out again by enough calls of `Next`. */
  lemma {:induction false} RestartHandsOut(s: State, es: seq<Event>, load: LoadFault, nows: seq<int>, i: nat)
    requires Initial(s) && Enabled(Run(s, es), Start(load))
    requires Run(s, es).disk.file.Whole? && Load(Run(s, es).disk, load).reply == Acknowledged
    requires i < |Run(s, es).disk.file.data| <= |nows|
    requires Run(s, es).disk.file.data[i].status in {Queued, Running}
    ensures var up := Step(Run(s, es), Start(load));
      (up.starts, Run(s, es).disk.file.data[i].id) in Run(up, Nexts(nows)).handed
  {
    RestartEndsNothing(s, es, load);
    AllQueuedAreHanded(Step(Run(s, es), Start(load)), nows, i);
  }

  /**
    A completion that was acknowledged in any reachable state outlives every crash in
    which its data had been written back: after a clean restart the task is there,
    completed, with its result.
   */
  lemma {:induction false} ResultSurvives(s: State, es: seq<Event>, id: Id, text: string, now: int, crashes: seq<Event>)
      returns (k: nat)
    requires Initial(s) && Run(s, es).mem.Some?
    requires exists i :: 0 <= i < |Run(s, es).mem.value| && Run(s, es).mem.value[i].id == id
    requires Crashes(crashes) && AllWritten(crashes) && crashes != [] && crashes[|crashes| - 1].Kill?
    ensures var before := Run(s, es).mem.value;
      var up := Step(Run(Step(Run(s, es), Do(Complete(id, text, now), NoFault)), crashes), Start(Read(NoFault)));
      && up.mem.Some? && k < |up.mem.value| == |before| && before[k].id == id
      && up.mem.value[k] == before[k].(status := Completed, result := Some(text), completedAt := Some(now))
  {
    hide Step, Run, Crashes, AllWritten, Perform, Planned;
    k := CompleteSays(Run(s, es).mem.value, Run(s, es).disk, id, text, now);
    AcknowledgedSurvives(s, es, Complete(id, text, now), NoFault, crashes);
  }
}
