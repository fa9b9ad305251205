/**
  The worker pool's methods: its counters and slots, and the two passes of its
  loop, each proved to do what the steps of `PoolProtocol` do when nothing comes
  between them.
 */
module WorkerPool {
  import opened AtomicFs
  import opened Basics
  import opened PoolProtocol
  import M = QueueModel
  import Q = DurableQueue
  import W = WarmWorker

  /** What one turn over the queue comes to: the counters, the queue and its file, and the task handed out. */
  datatype Turn = Turn(counters: Counters, effect: M.Effect, task: Option<M.Task>)

  ghost function NoTurn(counters: Counters, queue: seq<M.Task>, disk: Disk<seq<M.Task>>): Turn {
    Turn(counters, M.Effect(Some(queue), disk, M.Acknowledged), None)
  }

  /** The cold pass: nothing without room and time for a spawn; a task taken counts as one. */
  ghost function ColdTurn(counters: Counters, queue: seq<M.Task>, disk: Disk<seq<M.Task>>,
                          now: int, later: int, fault: Fault): Turn
    requires disk.Valid()
  {
    if !counters.MaySpawn(now) then NoTurn(counters, queue, disk)
    else
      var effect := M.StartEffect(false, now, queue, disk, fault);
      var task := Handed(effect, queue, false);
      Turn(if task.Some? then counters.Spawned(later) else counters, effect, task)
  }

  ghost function WarmTurn(counters: Counters, queue: seq<M.Task>, disk: Disk<seq<M.Task>>, now: int, fault: Fault): Turn
    requires disk.Valid()
  {
    var effect := M.StartEffect(true, now, queue, disk, fault);
    Turn(counters, effect, Handed(effect, queue, true))
  }

  function Ending(id: M.Id, text: string, failed: bool, now: int): (op: M.Op)
    ensures op.Ends() && !op.Hands() && op.id == id
  {
    if failed then M.Fail(id, text, now) else M.Complete(id, text, now)
  }

  predicate Free(slot: W.Slot)
    reads slot
  {
    slot.ready && !slot.busy && !slot.disabled
  }

  function CountReady(slots: seq<W.Slot>): nat
    reads slots
  {
    if slots == [] then 0
    else CountReady(slots[..|slots| - 1])
         + (if !slots[|slots| - 1].disabled && slots[|slots| - 1].ready then 1 else 0)
  }

  function CountBusy(slots: seq<W.Slot>): nat
    reads slots
  {
    if slots == [] then 0 else CountBusy(slots[..|slots| - 1]) + (if slots[|slots| - 1].busy then 1 else 0)
  }

  function CountDisabled(slots: seq<W.Slot>): nat
    reads slots
  {
    if slots == [] then 0 else CountDisabled(slots[..|slots| - 1]) + (if slots[|slots| - 1].disabled then 1 else 0)
  }

  lemma CountNext(slots: seq<W.Slot>, i: nat)
    requires i < |slots|
    ensures CountReady(slots[..i + 1])
      == CountReady(slots[..i]) + if !slots[i].disabled && slots[i].ready then 1 else 0
    ensures CountBusy(slots[..i + 1]) == CountBusy(slots[..i]) + if slots[i].busy then 1 else 0
    ensures CountDisabled(slots[..i + 1]) == CountDisabled(slots[..i]) + if slots[i].disabled then 1 else 0
  {
    assert slots[..i + 1][..i] == slots[..i];
  }

  lemma CountNone()
    ensures CountReady([]) == CountBusy([]) == CountDisabled([]) == 0
  {
  }

  class Pool {
    var active: int
    const maxWorkers: int
    const spawnInterval: int
    var lastSpawn: Option<int>
    var warmWorkers: seq<W.Slot>
    const queue: Q.Queue

    constructor (maxWorkers: int, spawnInterval: int, queue: Q.Queue)
      ensures View() == Counters(0, maxWorkers, spawnInterval, None) && warmWorkers == [] && this.queue == queue
    {
      this.maxWorkers, this.spawnInterval, this.queue := maxWorkers, spawnInterval, queue;
      active, lastSpawn, warmWorkers := 0, None, [];
    }

    function View(): Counters
      reads this
    {
      Counters(active, maxWorkers, spawnInterval, lastSpawn)
    }

    /** One turn of the cold pass; the clock may have moved on when the spawn is recorded. */
    method TakeCold(now: int, later: int, fault: Fault) returns (reply: M.Reply, task: Q.TaskCell?)
      requires queue.Valid() && queue.disk.View().Valid()
      modifies this`active, this`lastSpawn, queue, queue.tasks, queue.disk
      ensures queue.Valid() && queue.tasks == old(queue.tasks) && (task != null ==> task in queue.tasks)
      ensures Turn(View(), queue.Seen(reply), if task == null then None else Some(task.task))
           == ColdTurn(old(View()), old(queue.Contents), old(queue.disk.View()), now, later, fault)
      ensures task != null <==>
        && old(active) < maxWorkers
        && (spawnInterval == 0 || old(lastSpawn) == None || now - old(lastSpawn).value >= spawnInterval)
        && fault == NoFault && exists t :: t in old(queue.Contents) && t.status == M.Queued
      ensures task != null ==> active == old(active) + 1 && lastSpawn == Some(later)
      ensures task != null ==> task.task.status == M.Running && task.task.startedAt == Some(now)
      ensures task == null ==> active == old(active) && lastSpawn == old(lastSpawn)
      ensures !(old(active) < maxWorkers) || (spawnInterval != 0 && old(lastSpawn).Some?
                                              && now - old(lastSpawn).value < spawnInterval) ==>
        reply == M.Acknowledged && queue.Contents == old(queue.Contents) && queue.disk.View() == old(queue.disk.View())
    {
      hide M.StartEffect, M.NextIndex;
      reply, task := M.Acknowledged, null;
      var room := active < maxWorkers;
      var paced := spawnInterval == 0 || lastSpawn == None || now - lastSpawn.value >= spawnInterval;
      if !room || !paced { return; }
      reply, task := queue.Next(now, fault);
      if task != null {
        active, lastSpawn := active + 1, Some(later);
      }
    }

    /** The first slot that is not disabled and can be reserved; no other slot changes. */
    method ReserveWarmWorker() returns (w: W.Slot?)
      modifies warmWorkers
      ensures forall s :: s in warmWorkers ==>
        && s.ready == old(s.ready) && s.disabled == old(s.disabled)
        && s.lastRespawn == old(s.lastRespawn) && s.child == old(s.child)
      ensures w == null ==> forall s :: s in warmWorkers ==> s.disabled || !s.ready || s.busy
      ensures w != null ==> w in warmWorkers && !w.disabled && w.ready && w.busy && !old(w.busy)
      ensures w != null ==>
        forall i :: 0 <= i < |warmWorkers| && warmWorkers[i] == w && w !in warmWorkers[..i] ==>
          forall j :: 0 <= j < i ==> old(warmWorkers[j].disabled || !warmWorkers[j].ready || warmWorkers[j].busy)
      ensures forall s :: s in warmWorkers && s != w ==> s.busy == old(s.busy)
    {
      for i := 0 to |warmWorkers|
        invariant forall s :: s in warmWorkers ==> unchanged(s)
        invariant forall j :: 0 <= j < i ==>
          old(warmWorkers[j].disabled || !warmWorkers[j].ready || warmWorkers[j].busy)
      {
        assert warmWorkers[i] in warmWorkers && unchanged(warmWorkers[i]);
        if warmWorkers[i].disabled { continue; }
        var ok := warmWorkers[i].Reserve();
        if ok {
          assert forall k :: i < k <= |warmWorkers| ==> warmWorkers[..k][i] == warmWorkers[i];
          return warmWorkers[i];
        }
      }
      return null;
    }

    /** One turn of the warm pass: a free slot and a task for it, or neither. */
    method TakeWarm(now: int, fault: Fault) returns (w: W.Slot?, reply: M.Reply, task: Q.TaskCell?)
      requires queue.Valid() && queue.disk.View().Valid()
      modifies warmWorkers, queue, queue.tasks, queue.disk
      ensures queue.Valid() && queue.tasks == old(queue.tasks) && (task != null ==> task in queue.tasks)
      ensures Turn(View(), queue.Seen(reply), if task == null then None else Some(task.task))
           == if old(exists s :: s in warmWorkers && Free(s))
              then WarmTurn(old(View()), old(queue.Contents), old(queue.disk.View()), now, fault)
              else NoTurn(old(View()), old(queue.Contents), old(queue.disk.View()))
      ensures w != null <==> task != null
      ensures task != null <==>
        && old(exists s :: s in warmWorkers && s.ready && !s.busy && !s.disabled)
        && fault == NoFault && exists t :: t in old(queue.Contents) && t.status == M.Queued && t.warm && !t.allowWrites
      ensures task != null ==> task.task.status == M.Running && task.task.startedAt == Some(now)
      ensures w != null ==> w in warmWorkers && old(Free(w)) && w.View() == old(w.View()).Reserved()
      ensures w != null ==> old(w.ready && !w.busy && !w.disabled) && w.ready && w.busy && !w.disabled
      ensures forall s :: s in warmWorkers && s != w ==>
        s.ready == old(s.ready) && s.busy == old(s.busy) && s.disabled == old(s.disabled)
      ensures forall s :: s in warmWorkers && s != w ==> s.View() == old(s.View()) && s.child == old(s.child)
    {
      hide M.StartEffect, M.NextIndex;
      reply, task := M.Acknowledged, null;
      w := ReserveWarmWorker();
      if w == null { return; }
      reply, task := queue.NextWarm(now, fault);
      if task == null {
        w.Release();
        w := null;
      }
    }

    /** The end of a cold dispatch: its outcome goes to the queue, whatever becomes of that, and the count goes down. */
    method EndCold(id: M.Id, text: string, failed: bool, now: int, fault: Fault) returns (reply: M.Reply)
      requires queue.Valid() && queue.disk.View().Valid()
      modifies this`active, queue, queue.tasks, queue.disk
      ensures queue.Valid() && queue.tasks == old(queue.tasks)
      ensures View() == old(View()).Finished()
      ensures queue.Seen(reply)
           == M.EditEffect(Ending(id, text, failed, now), old(queue.Contents), old(queue.disk.View()), fault)
      ensures active == old(active) - 1
      ensures reply == M.Acknowledged ==> queue.disk.file == Whole(queue.Contents) && exists k ::
        && 0 <= k < |old(queue.Contents)| && old(queue.Contents)[k].id == id
        && (forall i :: 0 <= i < k ==> old(queue.Contents)[i].id != id)
        && queue.Contents == old(queue.Contents)[k :=
             if failed
             then old(queue.Contents)[k].(status := M.Failed, error := Some(text), completedAt := Some(now))
             else old(queue.Contents)[k].(status := M.Completed, result := Some(text), completedAt := Some(now))]
      ensures reply == M.NotFound <==> forall i :: 0 <= i < |old(queue.Contents)| ==> old(queue.Contents)[i].id != id
      ensures reply == M.FlushFailed ==> queue.Contents == old(queue.Contents)
    {
      hide M.EditEffect;
      if failed {
        reply := queue.Fail(id, text, now, fault);
      } else {
        reply := queue.Complete(id, text, now, fault);
      }
      active := active - 1;
    }

    /** A disabled slot is never reported ready. */
    method WarmStatus() returns (total: nat, ready: nat, busy: nat, disabled: nat)
      ensures total == |warmWorkers| && ready + disabled <= total && busy <= total
      ensures ready == CountReady(warmWorkers) && busy == CountBusy(warmWorkers)
      ensures disabled == CountDisabled(warmWorkers)
    {
      hide CountReady, CountBusy, CountDisabled;
      CountNone();
      assert warmWorkers[..0] == [];
      total, ready, busy, disabled := 0, 0, 0, 0;
      for i := 0 to |warmWorkers|
        invariant total == i && ready + disabled <= i && busy <= i
        invariant ready == CountReady(warmWorkers[..i]) && busy == CountBusy(warmWorkers[..i])
        invariant disabled == CountDisabled(warmWorkers[..i])
      {
        CountNext(warmWorkers, i);
        var r, b, d := warmWorkers[i].Status();
        total := total + 1;
        if d {
          disabled := disabled + 1;
        } else if r {
          ready := ready + 1;
        }
        if b { busy := busy + 1; }
      }
      assert warmWorkers[..|warmWorkers|] == warmWorkers;
    }
  }

  // ---------- the methods are the protocol's steps ----------

  lemma TakeColdIs(s: State, fault: Fault)
    requires s.disk.Valid() && s.loop.Checked? && WriteOutcome(fault) != Crashed
    ensures var e := M.StartEffect(false, s.clock, s.queue, s.disk, fault);
      && e.mem.Some?
      && var task := Handed(e, s.queue, false);
         Step(s, TakeCold(fault))
         == s.(queue := e.mem.value, disk := e.disk, loop := if task.Some? then Took(task.value) else Idle)
  {
    hide M.NextIndex, AfterWrite;
  }

  lemma SpawnIs(s: State, seconds: nat, d: nat)
    requires s.disk.Valid() && d !in s.dispatches
    ensures var r := Step(Step(s, Pass(seconds)), Spawn(d));
      && r.queue == s.queue && r.disk == s.disk
      && r.counters == (if s.loop.Took? then s.counters.Spawned(s.clock + seconds) else s.counters)
      && r.loop == (if s.loop.Took? then Idle else s.loop)
      && r.dispatches == (if s.loop.Took? then s.dispatches[d := Cold(s.loop.task)] else s.dispatches)
  {
  }

  lemma ColdTurnIsItsSteps(s: State, seconds: nat, fault: Fault, d: nat)
    requires s.disk.Valid() && s.loop.Idle? && WriteOutcome(fault) != Crashed && d !in s.dispatches
    ensures var r := Step(Step(Step(Step(s, Check), TakeCold(fault)), Pass(seconds)), Spawn(d));
      var turn := ColdTurn(s.counters, s.queue, s.disk, s.clock, s.clock + seconds, fault);
      && Some(r.queue) == turn.effect.mem && r.disk == turn.effect.disk && r.counters == turn.counters
      && r.loop == Idle
      && r.dispatches == if turn.task.Some? then s.dispatches[d := Cold(turn.task.value)] else s.dispatches
  {
    hide M.StartEffect, Handed;
    if s.counters.MaySpawn(s.clock) {
      var checked := s.(loop := Checked);
      assert Step(s, Check) == checked;
      TakeColdIs(checked, fault);
      hide Step;
      SpawnIs(Step(checked, TakeCold(fault)), seconds, d);
    } else {
      assert Step(Step(s, Check), TakeCold(fault)) == s;
      hide Step;
      SpawnIs(s, seconds, d);
    }
  }

  lemma WarmTurnIsItsSteps(s: State, worker: nat, fault: Fault, d: nat)
    requires s.disk.Valid() && s.loop.Idle? && WriteOutcome(fault) != Crashed && d !in s.dispatches
    ensures var r := Step(Step(s, Reserve(worker)), TakeWarm(d, fault));
      var turn := WarmTurn(s.counters, s.queue, s.disk, s.clock, fault);
      && Some(r.queue) == turn.effect.mem && r.disk == turn.effect.disk && r.counters == turn.counters
      && r.loop == Idle
      && r.dispatches == if turn.task.Some? then s.dispatches[d := Warm(turn.task.value, worker)] else s.dispatches
  {
    hide M.NextIndex;
  }

  lemma EndColdIsItsSteps(s: State, d: nat, text: string, failed: bool, fault: Fault)
    requires s.disk.Valid() && WriteOutcome(fault) != Crashed && d in s.dispatches && s.dispatches[d].Cold?
    ensures var op := Ending(s.dispatches[d].task.id, text, failed, s.clock);
      var r := Step(Step(s, Touch(op, fault)), Finish(d));
      var effect := M.EditEffect(op, s.queue, s.disk, fault);
      && Some(r.queue) == effect.mem && r.disk == effect.disk && r.counters == s.counters.Finished()
      && r.dispatches == s.dispatches - {d} && r.loop == s.loop
  {
    hide M.Find;
  }
}
