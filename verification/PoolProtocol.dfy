/**
  The worker pool: one loop goroutine, any number of running dispatches, and
  everyone else who touches the queue, interleaved at the mutexes.
 */
module PoolProtocol {
  import opened AtomicFs
  import opened Basics
  import opened QueueModel
  import opened RateLimit

  /** What the pool's mutex guards besides the list of slots. */
  datatype Counters = Counters(active: int, maxWorkers: int, spawnInterval: int, lastSpawn: Option<int>)
  {
    predicate MaySpawn(now: int) {
      && active < maxWorkers
      && (spawnInterval == 0 || lastSpawn == None || now - lastSpawn.value >= spawnInterval)
    }

    function Spawned(now: int): Counters { this.(active := active + 1, lastSpawn := Some(now)) }

    function Finished(): Counters { this.(active := active - 1) }
  }

  datatype Dispatch = Cold(task: Task) | Warm(task: Task, worker: nat)

  /**
    Where the loop is: between blocks, holding a reserved warm worker, past the
    capacity check, or holding a task it has not yet counted as a spawn.
   */
  datatype Loop = Idle | Reserved(worker: nat) | Checked | Took(task: Task)

  datatype State = State(
    queue: seq<Task>, disk: Disk<seq<Task>>, clock: int,
    counters: Counters, loop: Loop,
    dispatches: map<nat, Dispatch>,
    // history
    used: set<Id>, spawns: seq<int>)

  datatype Action =
    | Pass(seconds: nat)                 // the clock moves on
    | Touch(op: Op, fault: Fault)        // a handler, the maintenance loop or a dispatch works on the queue
    | Reserve(worker: nat)
    | TakeWarm(dispatch: nat, fault: Fault)
    | Check
    | TakeCold(fault: Fault)
    | Spawn(dispatch: nat)
    | Finish(dispatch: nat)

  ghost predicate Enabled(s: State, a: Action) {
    match a
    case Pass(_) => true
    case Touch(op, fault) =>
      !op.Hands() && (op.Submit? ==> op.id !in s.used) && WriteOutcome(fault) != Crashed
    case Reserve(_) => s.loop.Idle?
    case TakeWarm(d, fault) => s.loop.Reserved? && d !in s.dispatches && WriteOutcome(fault) != Crashed
    case Check => s.loop.Idle?
    case TakeCold(fault) => s.loop.Checked? && WriteOutcome(fault) != Crashed
    case Spawn(d) => s.loop.Took? && d !in s.dispatches
    case Finish(d) => d in s.dispatches
  }

  /** The task a call of `Next` or `NextWarm` with this effect hands back, if any. */
  ghost function Handed(effect: Effect, queue: seq<Task>, warmOnly: bool): Option<Task> {
    match NextIndex(queue, warmOnly)
    case None => None
    case Some(k) =>
      if effect.reply == Acknowledged && effect.mem.Some? && k < |effect.mem.value| then Some(effect.mem.value[k]) else None
  }

  ghost function Taken(s: State, op: Op, fault: Fault): Option<Task>
    requires s.disk.Valid() && op.Hands()
  {
    Handed(Perform(op, s.queue, s.disk, fault), s.queue, op.NextWarm?)
  }

  ghost function WithQueue(s: State, op: Op, fault: Fault): State
    requires s.disk.Valid() && WriteOutcome(fault) != Crashed
  {
    var e := Perform(op, s.queue, s.disk, fault);
    s.(queue := e.mem.value, disk := e.disk, used := if op.Submit? then s.used + {op.id} else s.used)
  }

  ghost function Step(s: State, a: Action): (r: State)
    requires s.disk.Valid()
    ensures r.disk.Valid()
  {
    if !Enabled(s, a) then s
    else match a
      case Pass(seconds) => s.(clock := s.clock + seconds)
      case Touch(op, fault) => WithQueue(s, op, fault)
      case Reserve(w) => s.(loop := Reserved(w))
      case TakeWarm(d, fault) =>
        var s' := WithQueue(s, NextWarm(s.clock), fault).(loop := Idle);
        (match Taken(s, NextWarm(s.clock), fault)
         case None => s' // the worker is released
         case Some(task) => s'.(dispatches := s.dispatches[d := Warm(task, s.loop.worker)]))
      case Check => if s.counters.MaySpawn(s.clock) then s.(loop := Checked) else s
      case TakeCold(fault) =>
        var s' := WithQueue(s, Next(s.clock), fault);
        (match Taken(s, Next(s.clock), fault)
         case None => s'.(loop := Idle)
         case Some(task) => s'.(loop := Took(task)))
      case Spawn(d) =>
        s.(loop := Idle, counters := s.counters.Spawned(s.clock), spawns := s.spawns + [s.clock],
           dispatches := s.dispatches[d := Cold(s.loop.task)])
      case Finish(d) =>
        s.(dispatches := s.dispatches - {d},
           counters := if s.dispatches[d].Cold? then s.counters.Finished() else s.counters)
  }

  ghost function Run(s: State, actions: seq<Action>): (r: State)
    requires s.disk.Valid()
    ensures r.disk.Valid()
  {
    if actions == [] then s else Step(Run(s, actions[..|actions| - 1]), actions[|actions| - 1])
  }

  ghost predicate Initial(s: State) {
    && s.counters.spawnInterval >= 0 && s.disk.Valid() && Good(s.queue)
    && s.used == (set t | t in s.queue :: t.id)
    && s.counters.active == 0 && s.counters.lastSpawn == None && s.loop == Idle && s.dispatches == map[] && s.spawns == []
  }

  // ---------- invariant ----------

  ghost function ColdOnes(dispatches: map<nat, Dispatch>): set<nat> {
    set d | d in dispatches && dispatches[d].Cold?
  }

  /** A task someone holds: known to the queue and not queued there any more. */
  ghost predicate HeldOk(queue: seq<Task>, used: set<Id>, t: Task) {
    t.id in used && NotQueued(queue, t.id)
  }

  ghost predicate QueueInv(s: State) {
    && s.disk.Valid() && Good(s.queue)
    && (forall id :: Has(s.queue, id) ==> id in s.used)
  }

  ghost predicate HeldInv(s: State) {
    && (forall d :: d in s.dispatches ==> HeldOk(s.queue, s.used, s.dispatches[d].task))
    && (s.loop.Took? ==> HeldOk(s.queue, s.used, s.loop.task))
    && (forall d, d' :: d in s.dispatches && d' in s.dispatches && d != d' ==>
          s.dispatches[d].task.id != s.dispatches[d'].task.id)
    && (s.loop.Took? ==> forall d :: d in s.dispatches ==> s.dispatches[d].task.id != s.loop.task.id)
    && (forall d :: d in s.dispatches && s.dispatches[d].Warm? ==>
          s.dispatches[d].task.warm && !s.dispatches[d].task.allowWrites)
  }

  ghost predicate PaceInv(s: State) {
    && s.counters.spawnInterval >= 0
    && s.counters.active == |ColdOnes(s.dispatches)|
    && s.counters.active <= (if s.counters.maxWorkers < 0 then 0 else s.counters.maxWorkers)
    && (s.loop.Checked? || s.loop.Took? ==> s.counters.MaySpawn(s.clock))
    && Spaced(s.spawns, s.counters.spawnInterval)
    && (if s.spawns == [] then s.counters.lastSpawn == None
        else s.counters.lastSpawn == Some(s.spawns[|s.spawns| - 1]) && s.counters.lastSpawn.value <= s.clock)
  }

  ghost predicate Inv(s: State) {
    QueueInv(s) && HeldInv(s) && PaceInv(s)
  }

  lemma InitialInv(s: State)
    requires Initial(s)
    ensures Inv(s)
  {
    forall id | Has(s.queue, id) ensures id in s.used {
      var i :| 0 <= i < |s.queue| && s.queue[i].id == id;
      assert s.queue[i] in s.queue;
    }
    assert ColdOnes(s.dispatches) == {};
  }

  /** Work on the queue keeps the lists sound and never puts a held task back in line. */
  lemma QueueWork(s: State, op: Op, fault: Fault)
    requires QueueInv(s) && WriteOutcome(fault) != Crashed && (op.Submit? ==> op.id !in s.used)
    ensures QueueInv(WithQueue(s, op, fault))
    ensures forall t :: HeldOk(s.queue, s.used, t) ==>
              HeldOk(WithQueue(s, op, fault).queue, WithQueue(s, op, fault).used, t)
  {
    var s' := WithQueue(s, op, fault);
    PerformPlanned(op, s.queue, s.disk, fault);
    if op.Undone() { RollbackExact(s.queue, op); }
    if Planned(op, s.queue).Some? {
      PlannedGood(s.queue, op);
      forall id | Has(s'.queue, id) ensures id in s'.used {
        if s'.queue == Planned(op, s.queue).value { PlannedIds(s.queue, op, id); }
      }
      forall t | HeldOk(s.queue, s.used, t) ensures HeldOk(s'.queue, s'.used, t) {
        PlannedKeepsOver(s.queue, op, t.id);
      }
    }
  }

  /** A task handed out was queued, so nobody held it, and now it is not queued. */
  lemma TakenIsNew(s: State, op: Op, fault: Fault)
    requires QueueInv(s) && op.Hands() && WriteOutcome(fault) != Crashed
    requires Taken(s, op, fault).Some?
    ensures var t := Taken(s, op, fault).value;
      && !HeldOk(s.queue, s.used, t)
      && HeldOk(WithQueue(s, op, fault).queue, WithQueue(s, op, fault).used, t)
      && (op.NextWarm? ==> t.warm && !t.allowWrites)
  {
    PerformPlanned(op, s.queue, s.disk, fault);
    var k := NextIndex(s.queue, op.NextWarm?).value;
    assert s.queue[k].status == Queued;
    assert Has(s.queue, s.queue[k].id);
  }

  /** A task that nobody held joins those held, the queue having moved on meanwhile. */
  lemma HolderJoins(s: State, s': State, t: Task)
    requires HeldInv(s) && !s.loop.Took? && !HeldOk(s.queue, s.used, t) && HeldOk(s'.queue, s'.used, t)
    requires forall t' :: HeldOk(s.queue, s.used, t') ==> HeldOk(s'.queue, s'.used, t')
    requires || (s'.dispatches == s.dispatches && s'.loop == Took(t))
             || (!s'.loop.Took? && t.warm && !t.allowWrites
                 && exists d: nat, w: nat :: d !in s.dispatches && s'.dispatches == s.dispatches[d := Warm(t, w)])
    ensures HeldInv(s')
  {
    forall d | d in s.dispatches ensures s.dispatches[d].task.id != t.id {
      assert HeldOk(s.queue, s.used, s.dispatches[d].task);
    }
    hide HeldOk;
  }

  /** Taking a task from the queue keeps the lists sound and hands out one nobody holds. */
  lemma TakeKeepsHeld(s: State, a: Action)
    requires QueueInv(s) && HeldInv(s) && Enabled(s, a) && (a.TakeWarm? || a.TakeCold?)
    ensures QueueInv(Step(s, a)) && HeldInv(Step(s, a))
  {
    var op := if a.TakeWarm? then NextWarm(s.clock) else Next(s.clock);
    QueueWork(s, op, a.fault);
    hide HeldOk, Good, Has, Perform, Taken;
    if Taken(s, op, a.fault).Some? {
      TakenIsNew(s, op, a.fault);
      hide HeldInv;
      HolderJoins(s, Step(s, a), Taken(s, op, a.fault).value);
    }
  }

  lemma TakeKeepsPace(s: State, a: Action)
    requires QueueInv(s) && PaceInv(s) && Enabled(s, a) && (a.TakeWarm? || a.TakeCold?)
    ensures PaceInv(Step(s, a))
  {
    hide Spaced, Taken, Good, Has, NextIndex;
    assert ColdOnes(Step(s, a).dispatches) == ColdOnes(s.dispatches);
  }

  lemma SpawnKeepsHeld(s: State, d: nat)
    requires QueueInv(s) && HeldInv(s) && Enabled(s, Spawn(d))
    ensures QueueInv(Step(s, Spawn(d))) && HeldInv(Step(s, Spawn(d)))
  {
    hide HeldOk, Good, Has;
  }

  lemma SpawnKeepsPace(s: State, d: nat)
    requires QueueInv(s) && PaceInv(s) && Enabled(s, Spawn(d))
    ensures PaceInv(Step(s, Spawn(d)))
  {
    assert s.disk.Valid();
    hide QueueInv;
    assert ColdOnes(Step(s, Spawn(d)).dispatches) == ColdOnes(s.dispatches) + {d};
  }

  lemma FinishKeepsInv(s: State, d: nat)
    requires Inv(s) && Enabled(s, Finish(d))
    ensures Inv(Step(s, Finish(d)))
  {
    assert ColdOnes(Step(s, Finish(d)).dispatches) == ColdOnes(s.dispatches) - {d};
  }

  lemma StepKeepsInv(s: State, a: Action)
    requires Inv(s)
    ensures Inv(Step(s, a))
    ensures Step(s, a).counters.spawnInterval == s.counters.spawnInterval
    ensures Step(s, a).counters.maxWorkers == s.counters.maxWorkers
  {
    hide HeldOk, Good, Has, Spaced, Perform, Taken;
    if Enabled(s, a) {
      match a
      case Touch(op, fault) => QueueWork(s, op, fault);
      case TakeWarm(_, _) => TakeKeepsHeld(s, a); TakeKeepsPace(s, a);
      case TakeCold(_) => TakeKeepsHeld(s, a); TakeKeepsPace(s, a);
      case Spawn(d) => SpawnKeepsHeld(s, d); SpawnKeepsPace(s, d);
      case Finish(d) => FinishKeepsInv(s, d);
      case _ =>
    }
  }

  // ---------- what holds over every run ----------

  lemma {:induction false} RunKeepsInv(s: State, actions: seq<Action>)
    requires Initial(s)
    ensures Inv(Run(s, actions))
    ensures Run(s, actions).counters.spawnInterval == s.counters.spawnInterval
    ensures Run(s, actions).counters.maxWorkers == s.counters.maxWorkers
  {
    hide QueueInv, HeldInv, PaceInv;
    if actions == [] {
      InitialInv(s);
    } else {
      hide Step;
      RunKeepsInv(s, actions[..|actions| - 1]);
      StepKeepsInv(Run(s, actions[..|actions| - 1]), actions[|actions| - 1]);
    }
  }

  /** The counter is the number of running cold dispatches and stays within the cap. */
  lemma {:induction false} CapHolds(s: State, actions: seq<Action>)
    requires Initial(s)
    ensures var r := Run(s, actions);
      && r.counters.active == |ColdOnes(r.dispatches)|
      && 0 <= r.counters.active <= (if s.counters.maxWorkers < 0 then 0 else s.counters.maxWorkers)
  {
    RunKeepsInv(s, actions);
  }

  /** No task is held twice, by dispatches or by the loop, and no warm dispatch holds one that allows writes. */
  lemma {:induction false} OneHolderPerTask(s: State, actions: seq<Action>)
    requires Initial(s)
    ensures var r := Run(s, actions);
      && (forall d, d' :: d in r.dispatches && d' in r.dispatches && d != d' ==>
            r.dispatches[d].task.id != r.dispatches[d'].task.id)
      && (r.loop.Took? ==> forall d :: d in r.dispatches ==> r.dispatches[d].task.id != r.loop.task.id)
      && (forall d :: d in r.dispatches && r.dispatches[d].Warm? ==> !r.dispatches[d].task.allowWrites)
      && (forall d :: d in r.dispatches ==> NotQueued(r.queue, r.dispatches[d].task.id))
  {
    RunKeepsInv(s, actions);
    var r := Run(s, actions);
    assert forall d :: d in r.dispatches ==> HeldOk(r.queue, r.used, r.dispatches[d].task);
  }

  /** Cold spawns are at least the interval apart, so a window of length L sees at most L / interval + 1 of them. */
  lemma {:induction false} SpawnsArePaced(s: State, actions: seq<Action>, from: int, to: int)
    requires Initial(s) && from <= to
    ensures var r := Run(s, actions);
      && Spaced(r.spawns, s.counters.spawnInterval)
      && (s.counters.spawnInterval > 0 ==> CountIn(r.spawns, from, to) <= (to - from) / s.counters.spawnInterval + 1)
  {
    RunKeepsInv(s, actions);
    if s.counters.spawnInterval > 0 {
      WindowBound(Run(s, actions).spawns, s.counters.spawnInterval, from, to);
    }
  }
}
