/**
  Runs of the daemon's queue: operations, faults inside the atomic write, process
  death, power loss and restarts, in any order and number.
 */
module QueueRuns {
  import opened Basics
  import opened AtomicFs
  import opened QueueModel

  datatype Event =
    | Do(op: Op, fault: Fault)
    | Start(load: LoadFault)
    | Kill
    | PowerLoss(survivor: nat, written: bool) // the directory state that comes back; was its data written back?

  /**
    `mem` is None while no process is up. The rest is history. `flushed` is the file
    found at first and then every list a flush took past its rename, `synced` the
    place in it of the latest one whose directory sync ran. Then the ids ever
    submitted, the ids whose end was acknowledged, the acknowledged submissions that
    were neither pruned nor dropped by a failed load or a power loss, and who was
    handed out during which start.
   */
  datatype State = State(
    disk: Disk<seq<Task>>, mem: Option<seq<Task>>,
    flushed: seq<File<seq<Task>>>, synced: nat, used: set<Id>, ended: set<Id>, kept: set<Id>,
    handed: seq<(nat, Id)>, starts: nat)

  ghost predicate Enabled(s: State, e: Event) {
    match e
    case Do(op, _) => s.mem.Some? && (op.Submit? ==> op.id !in s.used)
    case Start(_) => s.mem == None
    case Kill => true
    case PowerLoss(k, _) => k < |s.disk.entries|
  }

  ghost function Step(s: State, e: Event): (r: State)
    requires s.disk.Valid()
    ensures r.disk.Valid()
  {
    if !Enabled(s, e) then s
    else match e
      case Do(op, fault) => DoStep(s, op, fault)
      case Start(load) => StartStep(s, load)
      case Kill => s.(mem := None)
      case PowerLoss(k, written) =>
        var f := AfterPowerLoss(s.disk.entries[k], written);
        s.(mem := None, disk := Disk(f, [f]), kept := if f == Torn then {} else s.kept)
  }

  function FlushedAfter(flushed: seq<File<seq<Task>>>, list: seq<Task>, fault: Fault): seq<File<seq<Task>>> {
    if PastRename(fault) then flushed + [Whole(list)] else flushed
  }

  function SyncedAfter(flushed: seq<File<seq<Task>>>, synced: nat, fault: Fault): nat {
    if Synced(fault) then |flushed| else synced
  }

  ghost function DoStep(s: State, op: Op, fault: Fault): State
    requires s.disk.Valid() && s.mem.Some?
  {
    var ts := s.mem.value;
    var effect := Perform(op, ts, s.disk, fault);
    var ack := effect.reply == Acknowledged;
    var planned := Planned(op, ts);
    s.(disk := effect.disk,
       mem := effect.mem,
       flushed := if planned.Some? then FlushedAfter(s.flushed, planned.value, fault) else s.flushed,
       synced := if planned.Some? then SyncedAfter(s.flushed, s.synced, fault) else s.synced,
       used := if op.Submit? then s.used + {op.id} else s.used,
       ended := if op.Ends() && ack then s.ended + {op.id} else s.ended,
       kept := if op.Submit? && ack then s.kept + {op.id}
               else if op.Prune? && planned.Some? then (set id | id in s.kept && Has(planned.value, id))
               else s.kept,
       handed := if op.Hands() && ack && planned.Some?
                 then s.handed + [(s.starts, ts[NextIndex(ts, op.NextWarm?).value].id)]
                 else s.handed)
  }

  /** A start that finds running tasks flushes the recovered list. */
  ghost predicate Recovering(disk: Disk<seq<Task>>, load: LoadFault) {
    load.Read? && disk.file.Whole? && AnyRunning(disk.file.data)
  }

  ghost function StartStep(s: State, load: LoadFault): State
    requires s.disk.Valid()
  {
    var effect := StartUp(s.disk, load);
    s.(disk := effect.disk,
       mem := effect.mem,
       flushed := if Recovering(s.disk, load) then FlushedAfter(s.flushed, Recover(s.disk.file.data), load.flush)
                  else s.flushed,
       synced := if Recovering(s.disk, load) then SyncedAfter(s.flushed, s.synced, load.flush) else s.synced,
       kept := if effect.reply == FlushFailed then {} else s.kept,
       starts := s.starts + 1)
  }

  ghost function Run(s: State, es: seq<Event>): (r: State)
    requires s.disk.Valid()
    ensures r.disk.Valid()
  {
    if es == [] then s else Step(Run(s, es[..|es| - 1]), es[|es| - 1])
  }

  // ---------- the invariant ----------

  ghost predicate ListOk(s: State, ts: seq<Task>) {
    && Good(ts)
    && (forall id :: Has(ts, id) ==> id in s.used)
    && (forall id :: id in s.ended ==> Over(ts, id))
    && (forall id :: id in s.kept ==> Has(ts, id))
  }

  ghost predicate FileOk(s: State, f: File<seq<Task>>) {
    match f
    case Absent | Torn => s.kept == {}
    case Whole(ts) => ListOk(s, ts)
  }

  ghost predicate HandedOk(s: State) {
    && (forall i, j :: 0 <= i < j < |s.handed| ==> s.handed[i] != s.handed[j])
    && (forall i :: 0 <= i < |s.handed| ==> 1 <= s.handed[i].0 <= s.starts && s.handed[i].1 in s.used)
    && (forall i :: 0 <= i < |s.handed| && s.handed[i].0 == s.starts && s.mem.Some? ==>
          NotQueued(s.mem.value, s.handed[i].1))
  }

  ghost predicate Inv(s: State) {
    && s.disk.Valid()
    && s.ended <= s.used && s.kept <= s.used
    && (forall i :: 0 <= i < |s.disk.entries| ==> FileOk(s, s.disk.entries[i]))
    && (s.mem.Some? ==> ListOk(s, s.mem.value) && s.starts > 0)
    && HandedOk(s)
  }

  /** Before the first start: no file yet, or a file some earlier daemon left. */
  ghost predicate Initial(s: State) {
    && s.disk.file != Torn && s.disk.entries == [s.disk.file]
    && s.flushed == [s.disk.file] && s.synced == 0
    && s.mem == None && s.starts == 0 && s.handed == [] && s.ended == {} && s.kept == {}
    && (match s.disk.file
        case Whole(ts) => Good(ts) && s.used == (set t | t in ts :: t.id)
        case _ => s.used == {})
  }

  lemma InitialInv(s: State)
    requires Initial(s)
    ensures Inv(s)
  {
    if s.disk.file.Whole? {
      var ts := s.disk.file.data;
      forall id | Has(ts, id) ensures id in s.used {
        var i :| 0 <= i < |ts| && ts[i].id == id;
        assert ts[i] in ts;
      }
      assert ListOk(s, ts);
    }
  }

  // ---------- one operation keeps it ----------

  /** Every list an operation can leave, in memory or on disk, is fit for the state after it. */
  lemma ListsAfter(s: State, op: Op, fault: Fault, ts: seq<Task>)
    requires Inv(s) && Enabled(s, Do(op, fault))
    requires ts == s.mem.value && Planned(op, ts).Some?
    ensures ListOk(DoStep(s, op, fault), Planned(op, ts).value)
    ensures op.Undone() ==> RolledBack(op, ts) == ts
    ensures !op.Undone() ==> RolledBack(op, ts) == Planned(op, ts).value
  {
    var s' := DoStep(s, op, fault);
    var list := Planned(op, ts).value;
    PerformPlanned(op, ts, s.disk, fault);
    if op.Undone() { RollbackExact(ts, op); }
    PlannedGood(ts, op);
    forall id | Has(list, id) ensures id in s'.used { PlannedIds(ts, op, id); }
    forall id | id in s'.ended ensures Over(list, id) {
      if id in s.ended {
        PlannedKeepsOver(ts, op, id);
      } else {
        EndedIsOver(ts, op);
      }
    }
    forall id | id in s'.kept ensures Has(list, id) {
      if op.Submit? && id == op.id {
        assert list[|ts|].id == id;
      } else if !op.Prune? {
        PlannedKeepsTask(ts, op, id);
      }
    }
  }

  /** A list that was fit before an operation still is, unless the operation was acknowledged. */
  lemma OldListStays(s: State, op: Op, fault: Fault, ts: seq<Task>)
    requires Inv(s) && Enabled(s, Do(op, fault)) && ListOk(s, ts)
    requires Perform(op, s.mem.value, s.disk, fault).reply != Acknowledged || Planned(op, s.mem.value) == None
    ensures ListOk(DoStep(s, op, fault), ts)
  {
    PerformPlanned(op, s.mem.value, s.disk, fault);
  }

  lemma HandedAfter(s: State, op: Op, fault: Fault)
    requires Inv(s) && Enabled(s, Do(op, fault))
    ensures HandedOk(DoStep(s, op, fault))
  {
    var s' := DoStep(s, op, fault);
    var ts := s.mem.value;
    PerformPlanned(op, ts, s.disk, fault);
    if Planned(op, ts).Some? {
      ListsAfter(s, op, fault, ts);
      forall i | 0 <= i < |s.handed| && s.handed[i].0 == s.starts && s'.mem.Some?
        ensures NotQueued(s'.mem.value, s.handed[i].1)
      {
        PlannedKeepsOver(ts, op, s.handed[i].1);
      }
      if |s'.handed| > |s.handed| {
        var k := NextIndex(ts, op.NextWarm?).value;
        var id := ts[k].id;
        assert Has(ts, id);
        forall i | 0 <= i < |s.handed| ensures s.handed[i] != (s.starts, id) {
          assert s.handed[i] == (s.starts, id) ==> NotQueued(ts, id);
        }
      }
    }
  }

  lemma IdleKeepsInv(s: State, op: Op, fault: Fault)
    requires Inv(s) && Enabled(s, Do(op, fault)) && Planned(op, s.mem.value) == None
    ensures Inv(DoStep(s, op, fault))
  {
    var s' := DoStep(s, op, fault);
    var ts := s.mem.value;
    PerformPlanned(op, ts, s.disk, fault);
    HandedAfter(s, op, fault);
    OldListStays(s, op, fault, ts);
    hide Perform, HandedOk, ListOk;
    forall i | 0 <= i < |s'.disk.entries| ensures FileOk(s', s'.disk.entries[i]) {
      if s.disk.entries[i].Whole? { OldListStays(s, op, fault, s.disk.entries[i].data); }
    }
  }

  lemma FlushKeepsInv(s: State, op: Op, fault: Fault, list: seq<Task>)
    requires Inv(s) && Enabled(s, Do(op, fault)) && Planned(op, s.mem.value) == Some(list)
    ensures Inv(DoStep(s, op, fault))
  {
    var s' := DoStep(s, op, fault);
    var ts := s.mem.value;
    PerformPlanned(op, ts, s.disk, fault);
    HandedAfter(s, op, fault);
    ListsAfter(s, op, fault, ts);
    if op.Ends() { assert Has(ts, op.id); }
    if s'.mem.Some? && s'.mem.value != list { OldListStays(s, op, fault, ts); }
    hide Perform, HandedOk, RolledBack;
    forall i | 0 <= i < |s'.disk.entries| ensures FileOk(s', s'.disk.entries[i]) {
      var f := s'.disk.entries[i];
      if f != Whole(list) {
        assert f == s.disk.entries[i];
        if f.Whole? { OldListStays(s, op, fault, f.data); }
      }
    }
  }

  lemma DoKeepsInv(s: State, op: Op, fault: Fault)
    requires Inv(s) && Enabled(s, Do(op, fault))
    ensures Inv(DoStep(s, op, fault))
  {
    match Planned(op, s.mem.value)
    case None => IdleKeepsInv(s, op, fault);
    case Some(list) => FlushKeepsInv(s, op, fault, list);
  }

  lemma StartKeepsInv(s: State, load: LoadFault)
    requires Inv(s) && Enabled(s, Start(load))
    ensures Inv(StartStep(s, load))
  {
    var s' := StartStep(s, load);
    assert s.disk.file == s.disk.entries[|s.disk.entries| - 1];
    if s.disk.file.Whole? {
      var ts := s.disk.file.data;
      var list := Recover(ts);
      assert FileOk(s, s.disk.file);
      forall id { RecoverKeeps(ts, id); }
      assert ListOk(s', list);
    }
    assert Good([]);
    forall i | 0 <= i < |s'.disk.entries| ensures FileOk(s', s'.disk.entries[i]) {
      var f := s'.disk.entries[i];
      if f in s.disk.entries {
        var j :| 0 <= j < |s.disk.entries| && s.disk.entries[j] == f;
        assert FileOk(s, s.disk.entries[j]);
      }
    }
  }

  lemma StepKeepsInv(s: State, e: Event)
    requires Inv(s)
    ensures Inv(Step(s, e))
  {
    if Enabled(s, e) {
      match e
      case Do(op, fault) => DoKeepsInv(s, op, fault);
      case Start(load) => StartKeepsInv(s, load);
      case Kill =>
      case PowerLoss(k, _) =>
        assert FileOk(s, s.disk.entries[k]);
    }
  }

  lemma {:induction false} RunKeepsInv(s: State, es: seq<Event>)
    requires Inv(s)
    ensures Inv(Run(s, es))
  {
    if es != [] {
      RunKeepsInv(s, es[..|es| - 1]);
      StepKeepsInv(Run(s, es[..|es| - 1]), es[|es| - 1]);
    }
  }

  // ---------- what holds over every run ----------

  /** No data is lost and no directory state comes back: processes may die, the machine stays up. */
  ghost predicate PowerStays(es: seq<Event>) {
    forall i :: 0 <= i < |es| ==> !es[i].PowerLoss?
  }

  lemma {:induction false} FileFollowsFlushes(s: State, e: Event)
    requires s.disk.Valid() && s.flushed != [] && s.disk.file == s.flushed[|s.flushed| - 1] && !e.PowerLoss?
    ensures var r := Step(s, e); r.flushed != [] && r.disk.file == r.flushed[|r.flushed| - 1]
  {
    if e.Do? && Enabled(s, e) {
      PerformPlanned(e.op, s.mem.value, s.disk, e.fault);
    }
  }

  /**
    As long as the machine stays up, the file is at every point exactly what the
    latest flush past its rename wrote, or what was found if there was none.
   */
  lemma {:induction false} FileIsLatest(s: State, es: seq<Event>)
    requires Initial(s) && PowerStays(es)
    ensures var r := Run(s, es); r.flushed != [] && r.disk.file == r.flushed[|r.flushed| - 1]
  {
    if es != [] {
      FileIsLatest(s, es[..|es| - 1]);
      FileFollowsFlushes(Run(s, es[..|es| - 1]), es[|es| - 1]);
    }
  }

  /** The place of a directory state in the history, not before `from`. */
  ghost predicate FlushedSince(s: State, from: nat, f: File<seq<Task>>) {
    exists k: nat :: from <= k < |s.flushed| && s.flushed[k] == f
  }

  /** What could come back is torn, or is what a flush wrote that is no older than `from`. */
  ghost predicate NotBehind(s: State, from: nat) {
    && from <= s.synced < |s.flushed|
    && forall f :: f in s.disk.entries ==> f == Torn || FlushedSince(s, s.synced, f)
  }

  lemma {:induction false} FlushKeepsPlaces(s: State, list: seq<Task>, fault: Fault, s': State, from: nat)
    requires s.disk.Valid() && NotBehind(s, from)
    requires s'.disk == AfterWrite(s.disk, list, fault)
    requires s'.flushed == FlushedAfter(s.flushed, list, fault) && s'.synced == SyncedAfter(s.flushed, s.synced, fault)
    ensures NotBehind(s', from)
  {
    forall f | f in s'.disk.entries && f != Torn ensures FlushedSince(s', s'.synced, f) {
      if f == Whole(list) && PastRename(fault) {
        assert s'.flushed[|s.flushed|] == f;
      } else {
        assert f in s.disk.entries;
        var k: nat :| s.synced <= k < |s.flushed| && s.flushed[k] == f;
        assert s'.flushed[k] == f;
      }
    }
  }

  lemma {:induction false} StepKeepsPlaces(s: State, e: Event, from: nat)
    requires s.disk.Valid() && NotBehind(s, from)
    ensures NotBehind(Step(s, e), from)
  {
    if Enabled(s, e) {
      var s' := Step(s, e);
      match e
      case Do(op, fault) =>
        PerformPlanned(op, s.mem.value, s.disk, fault);
        if Planned(op, s.mem.value).Some? {
          FlushKeepsPlaces(s, Planned(op, s.mem.value).value, fault, s', from);
        } else {
          assert forall f :: FlushedSince(s, s.synced, f) ==> FlushedSince(s', s.synced, f);
        }
      case Start(load) =>
        if Recovering(s.disk, load) {
          FlushKeepsPlaces(s, Recover(s.disk.file.data), load.flush, s', from);
        } else {
          assert forall f :: FlushedSince(s, s.synced, f) ==> FlushedSince(s', s.synced, f);
        }
      case Kill =>
        assert forall f :: FlushedSince(s, s.synced, f) ==> FlushedSince(s', s.synced, f);
      case PowerLoss(k, _) =>
        assert s.disk.entries[k] in s.disk.entries;
        assert forall f :: FlushedSince(s, s.synced, f) ==> FlushedSince(s', s.synced, f);
    }
  }

  lemma {:induction false} RunKeepsPlaces(s: State, es: seq<Event>, from: nat)
    requires s.disk.Valid() && NotBehind(s, from)
    ensures NotBehind(Run(s, es), from)
  {
    if es != [] {
      RunKeepsPlaces(s, es[..|es| - 1], from);
      StepKeepsPlaces(Run(s, es[..|es| - 1]), es[|es| - 1], from);
    }
  }

  lemma InitialPlaces(s: State)
    requires Initial(s)
    ensures NotBehind(s, 0)
  {
    assert s.flushed[0] == s.disk.file;
  }

  /**
    Over every run, power losses included, whatever is or could come back on disk is
    torn, or is entire and unchanged what some flush wrote, none older than the
    latest one whose directory sync ran.
   */
  lemma {:induction false} NeverBehindSync(s: State, es: seq<Event>, f: File<seq<Task>>)
    requires Initial(s) && f in Run(s, es).disk.entries
    ensures var r := Run(s, es); f == Torn || FlushedSince(r, r.synced, f)
  {
    InitialPlaces(s);
    RunKeepsPlaces(s, es, 0);
  }

  /** In particular no power loss goes behind a change that was acknowledged: `n` is that change's own place. */
  lemma {:induction false} NeverBehindAcknowledged(s: State, es: seq<Event>, op: Op, fault: Fault, more: seq<Event>)
      returns (n: nat)
    requires Initial(s) && Enabled(Run(s, es), Do(op, fault)) && Planned(op, Run(s, es).mem.value).Some?
    requires WriteOutcome(fault) == Done
    ensures var acked := Step(Run(s, es), Do(op, fault));
      n < |acked.flushed| && acked.flushed[n] == Whole(Planned(op, Run(s, es).mem.value).value)
    ensures var r := Run(Step(Run(s, es), Do(op, fault)), more);
      forall f :: f in r.disk.entries ==> f == Torn || FlushedSince(r, n, f)
  {
    var before := Run(s, es);
    InitialPlaces(s);
    RunKeepsPlaces(s, es, 0);
    StepKeepsPlaces(before, Do(op, fault), 0);
    var acked := Step(before, Do(op, fault));
    n := |before.flushed|;
    assert acked.synced == n;
    RunKeepsPlaces(acked, more, n);
    var r := Run(acked, more);
    forall f | f in r.disk.entries && f != Torn ensures FlushedSince(r, n, f) {
      var k: nat :| r.synced <= k < |r.flushed| && r.flushed[k] == f;
    }
  }

  // ---------- what a power loss can still take ----------

  /** No power loss of the run catches a file whose data had not been written back. */
  ghost predicate DataSurvives(s: State, es: seq<Event>)
    requires s.disk.Valid()
  {
    forall n :: 0 <= n < |es| && es[n].PowerLoss? && Enabled(Run(s, es[..n]), es[n]) ==>
      es[n].written || !Run(s, es[..n]).disk.entries[es[n].survivor].Whole?
  }

  ghost predicate NoneTorn(s: State) {
    forall f :: f in s.disk.entries ==> f != Torn
  }

  lemma {:induction false} StepKeepsWhole(s: State, e: Event)
    requires s.disk.Valid() && NoneTorn(s)
    requires e.PowerLoss? && Enabled(s, e) ==> e.written || !s.disk.entries[e.survivor].Whole?
    ensures NoneTorn(Step(s, e))
  {
    if Enabled(s, e) {
      match e
      case Do(op, fault) => PerformPlanned(op, s.mem.value, s.disk, fault);
      case PowerLoss(k, _) => assert s.disk.entries[k] in s.disk.entries;
      case _ =>
    }
  }

  lemma {:induction false} SurvivesPrefix(s: State, es: seq<Event>)
    requires s.disk.Valid() && es != [] && DataSurvives(s, es)
    ensures DataSurvives(s, es[..|es| - 1])
  {
    var init := es[..|es| - 1];
    assert forall n :: 0 <= n < |init| ==> init[..n] == es[..n] && init[n] == es[n];
  }

  lemma {:induction false} WholeThroughout(s: State, es: seq<Event>)
    requires Initial(s) && DataSurvives(s, es)
    ensures NoneTorn(Run(s, es))
  {
    if es != [] {
      var n := |es| - 1;
      SurvivesPrefix(s, es);
      WholeThroughout(s, es[..n]);
      StepKeepsWhole(Run(s, es[..n]), es[n]);
    }
  }

  /** The file is never seen torn in a run if and only if no power loss of it catches unwritten data. */
  lemma {:induction false} TornIff(s: State, es: seq<Event>)
    requires Initial(s)
    ensures (forall n :: 0 <= n <= |es| ==> Run(s, es[..n]).disk.file != Torn) <==> DataSurvives(s, es)
  {
    if DataSurvives(s, es) {
      forall n | 0 <= n <= |es| ensures Run(s, es[..n]).disk.file != Torn {
        var part := es[..n];
        assert forall m :: 0 <= m < n ==> part[..m] == es[..m] && part[m] == es[m];
        assert DataSurvives(s, part);
        WholeThroughout(s, part);
        assert Run(s, part).disk.file in Run(s, part).disk.entries;
      }
    } else {
      var n :| 0 <= n < |es| && es[n].PowerLoss? && Enabled(Run(s, es[..n]), es[n])
        && !es[n].written && Run(s, es[..n]).disk.entries[es[n].survivor].Whole?;
      assert es[..n + 1][..n] == es[..n];
      assert Run(s, es[..n + 1]).disk.file == Torn;
    }
  }

  /** An acknowledged change other than a prune is in memory, in the file, and the only list that could come back. */
  lemma {:induction false} AcknowledgedIsDurable(s: State, es: seq<Event>, op: Op, fault: Fault)
    requires Initial(s) && Enabled(Run(s, es), Do(op, fault)) && !op.Prune?
    ensures var r := Run(s, es);
      var r' := Step(r, Do(op, fault));
      Planned(op, r.mem.value).Some? && Perform(op, r.mem.value, r.disk, fault).reply == Acknowledged ==>
        && r'.mem == Planned(op, r.mem.value)
        && r'.disk == Disk(Whole(r'.mem.value), [Whole(r'.mem.value)])
  {
    var r := Run(s, es);
    PerformPlanned(op, r.mem.value, r.disk, fault);
  }

  /** The process or the machine goes down, any number of times. */
  ghost predicate Crashes(es: seq<Event>) {
    forall i :: 0 <= i < |es| ==> es[i].Kill? || es[i].PowerLoss?
  }

  /** None of them catches the only directory state with its data unwritten. */
  ghost predicate AllWritten(crashes: seq<Event>) {
    forall i :: 0 <= i < |crashes| && crashes[i].PowerLoss? && crashes[i].survivor == 0 ==> crashes[i].written
  }

  lemma {:induction false} SyncedFileStays(s: State, es: seq<Event>)
    requires s.disk.Valid() && |s.disk.entries| == 1 && s.disk.file.Whole? && Crashes(es)
    ensures Run(s, es).disk == if AllWritten(es) then s.disk else Disk(Torn, [Torn])
    ensures es != [] && es[|es| - 1].Kill? ==> Run(s, es).mem == None
  {
    if es != [] {
      var init, e := es[..|es| - 1], es[|es| - 1];
      SyncedFileStays(s, init);
      assert AllWritten(es) <==> AllWritten(init) && (e.PowerLoss? && e.survivor == 0 ==> e.written) by {
        assert forall i :: 0 <= i < |init| ==> init[i] == es[i];
        assert es[|init|] == e;
      }
    }
  }

  lemma CleanStart(s: State, list: seq<Task>)
    requires s.disk.Valid() && s.mem == None
    ensures s.disk.file == Torn ==> Step(s, Start(Read(NoFault))).mem == Some([])
    ensures s.disk.file == Whole(list) ==> Step(s, Start(Read(NoFault))).mem == Some(Recover(list))
  {
    RecoverKeeps(list, "");
  }

  /**
    After an acknowledged change other than a prune, whatever crashes follow, a clean
    restart has exactly the acknowledged list, its running tasks queued again, if the
    data had been written back at every power loss, and no task at all otherwise.
   */
  lemma {:induction false} AcknowledgedSurvives(s: State, es: seq<Event>, op: Op, fault: Fault, crashes: seq<Event>)
    requires Initial(s) && Enabled(Run(s, es), Do(op, fault)) && !op.Prune?
    requires Planned(op, Run(s, es).mem.value).Some?
    requires Perform(op, Run(s, es).mem.value, Run(s, es).disk, fault).reply == Acknowledged
    requires Crashes(crashes) && crashes != [] && crashes[|crashes| - 1].Kill?
    ensures var list := Planned(op, Run(s, es).mem.value).value;
      var down := Run(Step(Run(s, es), Do(op, fault)), crashes);
      var up := Step(down, Start(Read(NoFault)));
      && (!AllWritten(crashes) ==> up.mem == Some([]))
      && (AllWritten(crashes) ==>
            && up.mem.Some? && |up.mem.value| == |list|
            && forall i :: 0 <= i < |list| ==>
                 up.mem.value[i] == if list[i].status == Running then list[i].(status := Queued, startedAt := None)
                                    else list[i])
  {
    AcknowledgedIsDurable(s, es, op, fault);
    var r' := Step(Run(s, es), Do(op, fault));
    SyncedFileStays(r', crashes);
    CleanStart(Run(r', crashes), r'.mem.value);
    hide Step, Run, Perform, Planned, AllWritten;
  }

  /** A failed submit, start, completion, failure or cancellation leaves memory exactly as it was. */
  lemma {:induction false} FailedOpRestoresMemory(s: State, es: seq<Event>, op: Op, fault: Fault)
    requires Initial(s) && Enabled(Run(s, es), Do(op, fault)) && op.Undone()
    ensures var r := Run(s, es);
      Perform(op, r.mem.value, r.disk, fault).reply in {FlushFailed, NotFound} ==>
        Step(r, Do(op, fault)).mem == r.mem
  {
    InitialInv(s);
    RunKeepsInv(s, es);
    var r := Run(s, es);
    PerformPlanned(op, r.mem.value, r.disk, fault);
    RollbackExact(r.mem.value, op);
  }

  /**
    When the file is readable and, if some task was running, its flush succeeds, a
    restart yields the stored list, each running task queued again and nothing else
    changed. Otherwise no process comes up, or one with an empty list.
   */
  lemma {:induction false} RestartRecovers(s: State, es: seq<Event>, load: LoadFault)
    requires Initial(s) && Enabled(Run(s, es), Start(load))
    requires Run(s, es).disk.file.Whole?
    ensures var r := Run(s, es);
      var stored := r.disk.file.data;
      var r' := Step(r, Start(load));
      var readable := load.Read? && (AnyRunning(stored) ==> WriteOutcome(load.flush) == Done);
      && (readable ==>
            && r'.mem.Some? && |r'.mem.value| == |stored|
            && forall i :: 0 <= i < |stored| ==>
                 r'.mem.value[i] == if stored[i].status == Running then stored[i].(status := Queued, startedAt := None)
                                    else stored[i])
      && (!readable ==>
            r'.mem == if load.Read? && WriteOutcome(load.flush) == Crashed then None else Some([]))
  {
    var stored := Run(s, es).disk.file.data;
    RecoverKeeps(stored, "");
  }

  /**
    After an acknowledged completion, failure or cancellation, no later state, lived
    in or brought back by a power loss, has the task queued or running.
   */
  lemma {:induction false} EndedStaysEnded(s: State, es: seq<Event>, op: Op, fault: Fault, more: seq<Event>)
    requires Initial(s) && Enabled(Run(s, es), Do(op, fault)) && op.Ends()
    requires Perform(op, Run(s, es).mem.value, Run(s, es).disk, fault).reply == Acknowledged
    ensures var r := Run(Step(Run(s, es), Do(op, fault)), more);
      && (r.mem.Some? ==> forall k :: 0 <= k < |r.mem.value| && r.mem.value[k].id == op.id ==>
            r.mem.value[k].status in {Completed, Failed, Cancelled})
      && forall f, k :: f in r.disk.entries && f.Whole? && 0 <= k < |f.data| && f.data[k].id == op.id ==>
           f.data[k].status in {Completed, Failed, Cancelled}
  {
    InitialInv(s);
    RunKeepsInv(s, es);
    var s' := Step(Run(s, es), Do(op, fault));
    StepKeepsInv(Run(s, es), Do(op, fault));
    RunKeepsInv(s', more);
    EndedGrows(s', more);
    var r := Run(s', more);
    forall f | f in r.disk.entries && f.Whole? ensures Over(f.data, op.id) {
      assert FileOk(r, f);
    }
  }

  lemma {:induction false} EndedGrows(s: State, es: seq<Event>)
    requires s.disk.Valid()
    ensures s.ended <= Run(s, es).ended
  {
    if es != [] { EndedGrows(s, es[..|es| - 1]); }
  }

  /** No prune, no start whose load fails, no power loss that leaves a torn file. */
  ghost predicate Lossless(s: State, es: seq<Event>)
    requires s.disk.Valid()
  {
    es == [] ||
    (var e := es[|es| - 1];
     var r := Run(s, es[..|es| - 1]);
     && Lossless(s, es[..|es| - 1])
     && !(e.Do? && e.op.Prune?)
     && !(e.Start? && Enabled(r, e) && StartUp(r.disk, e.load).reply == FlushFailed)
     && !(e.PowerLoss? && Enabled(r, e) && AfterPowerLoss(r.disk.entries[e.survivor], e.written) == Torn))
  }

  /** In such a run an acknowledged submission survives crashes, power losses and failed flushes of any later operation. */
  lemma {:induction false} NothingLost(s: State, es: seq<Event>, op: Op, fault: Fault, more: seq<Event>)
    requires Initial(s) && Enabled(Run(s, es), Do(op, fault)) && op.Submit?
    requires Perform(op, Run(s, es).mem.value, Run(s, es).disk, fault).reply == Acknowledged
    requires Lossless(Step(Run(s, es), Do(op, fault)), more)
    ensures var r := Run(Step(Run(s, es), Do(op, fault)), more);
      && (r.mem.Some? ==> exists k :: 0 <= k < |r.mem.value| && r.mem.value[k].id == op.id)
      && forall f :: f in r.disk.entries ==> f.Whole? && exists k :: 0 <= k < |f.data| && f.data[k].id == op.id
  {
    InitialInv(s);
    RunKeepsInv(s, es);
    var s' := Step(Run(s, es), Do(op, fault));
    StepKeepsInv(Run(s, es), Do(op, fault));
    RunKeepsInv(s', more);
    KeptStays(s', more);
    var r := Run(s', more);
    forall f | f in r.disk.entries ensures f.Whole? && Has(f.data, op.id) {
      assert FileOk(r, f);
    }
  }

  lemma {:induction false} KeptStays(s: State, es: seq<Event>)
    requires s.disk.Valid() && Lossless(s, es)
    ensures s.kept <= Run(s, es).kept
  {
    if es != [] { KeptStays(s, es[..|es| - 1]); }
  }

  /**
    A failed load does lose tasks: the daemon starts empty and its first
    acknowledged submission replaces every task in the file.
   */
  lemma {:induction false} FailedLoadForgets(s: State, load: LoadFault, op: Op)
    requires s.disk.Valid() && s.mem == None && op.Submit? && op.id !in s.used
    requires StartUp(s.disk, load).reply == FlushFailed
    ensures var r := Step(Step(s, Start(load)), Do(op, NoFault));
      && r.mem.Some? && |r.mem.value| == 1 && r.mem.value[0].id == op.id
      && r.disk.entries == [Whole(r.mem.value)]
  {
    var mid := Step(s, Start(load));
    assert mid.mem == Some([]);
    PerformPlanned(op, [], mid.disk, NoFault);
  }

  // ---------- how often a task is handed out ----------

  ghost function CountHanded(log: seq<(nat, Id)>, id: Id): nat {
    if log == [] then 0
    else CountHanded(log[..|log| - 1], id) + if log[|log| - 1].1 == id then 1 else 0
  }

  ghost function StartsOf(log: seq<(nat, Id)>, id: Id): set<nat> {
    set i | 0 <= i < |log| && log[i].1 == id :: log[i].0
  }

  lemma StartsSnoc(log: seq<(nat, Id)>, e: (nat, Id), id: Id)
    ensures StartsOf(log + [e], id) == if e.1 == id then StartsOf(log, id) + {e.0} else StartsOf(log, id)
    ensures CountHanded(log + [e], id) == CountHanded(log, id) + if e.1 == id then 1 else 0
  {
    var all := log + [e];
    assert all[..|log|] == log;
    assert forall i :: 0 <= i < |log| ==> all[i] == log[i];
    assert all[|log|] == e;
  }

  lemma {:induction false} CountIsStarts(log: seq<(nat, Id)>, id: Id)
    requires forall i, j :: 0 <= i < j < |log| ==> log[i] != log[j]
    ensures CountHanded(log, id) == |StartsOf(log, id)|
  {
    if log == [] {
      assert StartsOf(log, id) == {};
    } else {
      var n := |log| - 1;
      CountIsStarts(log[..n], id);
      assert log == log[..n] + [log[n]];
      StartsSnoc(log[..n], log[n], id);
      hide CountHanded;
      forall i | 0 <= i < n ensures log[..n][i] != log[n] {
        assert log[..n][i] == log[i];
      }
    }
  }

  lemma {:induction false} BoundedSet(xs: set<nat>, n: nat)
    requires forall x :: x in xs ==> 1 <= x <= n
    ensures |xs| <= n
  {
    if n > 0 {
      BoundedSet(xs - {n}, n - 1);
      assert |xs| <= |xs - {n}| + 1;
    } else {
      assert xs == {};
    }
  }

  /** Next and NextWarm together hand a task out at most once per start, so at most `starts` times in all. */
  lemma {:induction false} HandedOncePerStart(s: State, es: seq<Event>, id: Id)
    requires Initial(s)
    ensures var r := Run(s, es);
      && (forall i, j :: 0 <= i < j < |r.handed| ==> r.handed[i] != r.handed[j])
      && CountHanded(r.handed, id) <= r.starts
  {
    InitialInv(s);
    RunKeepsInv(s, es);
    var r := Run(s, es);
    CountIsStarts(r.handed, id);
    forall x | x in StartsOf(r.handed, id) ensures 1 <= x <= r.starts {
      var i :| 0 <= i < |r.handed| && r.handed[i].1 == id && r.handed[i].0 == x;
    }
    BoundedSet(StartsOf(r.handed, id), r.starts);
  }
}
