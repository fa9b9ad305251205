/**
  The task queue as a value: what each operation hands to the flush, what a
  failed flush leaves in memory, and what a reload makes of a stored list.
 */
module QueueModel {
  import opened AtomicFs
  import opened Basics

  type Id = string

  datatype Status = Queued | Running | Completed | Failed | Cancelled
  {
    predicate Terminal() { this != Queued && this != Running }
  }

  datatype Task = Task(
    id: Id, prompt: string, replyTo: string, priority: int, allowWrites: bool, warm: bool,
    createdAt: int, timeoutSec: int,
    status: Status, startedAt: Option<int>, completedAt: Option<int>,
    result: Option<string>, error: Option<string>, delivered: bool)

  function NewTask(id: Id, prompt: string, replyTo: string, priority: int, allowWrites: bool,
                   timeoutSec: int, warm: bool, now: int): Task
  {
    Task(id, prompt, replyTo, priority, allowWrites, warm, now, timeoutSec,
         Queued, None, None, None, None, false)
  }

  // ---------- which task is next ----------

  predicate Eligible(t: Task, warmOnly: bool) {
    t.status == Queued && (warmOnly ==> t.warm && !t.allowWrites)
  }

  /** The dispatch order: lower priority number, then older, then earlier in the list. */
  predicate Precedes(ts: seq<Task>, i: nat, j: nat)
    requires i < |ts| && j < |ts|
  {
    || ts[i].priority < ts[j].priority
    || (ts[i].priority == ts[j].priority
        && (ts[i].createdAt < ts[j].createdAt || (ts[i].createdAt == ts[j].createdAt && i < j)))
  }

  ghost predicate IsNext(ts: seq<Task>, warmOnly: bool, k: int) {
    && 0 <= k < |ts|
    && Eligible(ts[k], warmOnly)
    && forall j :: 0 <= j < |ts| && j != k && Eligible(ts[j], warmOnly) ==> Precedes(ts, k, j)
  }

  ghost predicate NoneEligible(ts: seq<Task>, warmOnly: bool) {
    forall j :: 0 <= j < |ts| ==> !Eligible(ts[j], warmOnly)
  }

  lemma {:induction false} NextExists(ts: seq<Task>, warmOnly: bool) returns (k: int)
    requires !NoneEligible(ts, warmOnly)
    ensures IsNext(ts, warmOnly, k)
  {
    var n := |ts| - 1;
    var init := ts[..n];
    if NoneEligible(init, warmOnly) {
      assert forall j :: 0 <= j < n ==> ts[j] == init[j];
      return n;
    }
    k := NextExists(init, warmOnly);
    assert forall j :: 0 <= j < n ==> ts[j] == init[j];
    assert forall j :: 0 <= j < n && j != k && Eligible(ts[j], warmOnly) ==> Precedes(init, k, j) && Precedes(ts, k, j);
    if Eligible(ts[n], warmOnly) && !Precedes(ts, k, n) {
      k := n;
    }
  }

  ghost function NextIndex(ts: seq<Task>, warmOnly: bool): (r: Option<nat>)
    ensures r == None <==> NoneEligible(ts, warmOnly)
    ensures r.Some? ==> IsNext(ts, warmOnly, r.value)
  {
    if NoneEligible(ts, warmOnly) then None
    else
      assert exists k :: IsNext(ts, warmOnly, k) by { var k := NextExists(ts, warmOnly); }
      var k :| IsNext(ts, warmOnly, k);
      Some(k)
  }

  lemma {:induction false} NextUnique(ts: seq<Task>, warmOnly: bool, k: int)
    requires IsNext(ts, warmOnly, k)
    ensures NextIndex(ts, warmOnly) == Some(k)
  {
    var j := NextIndex(ts, warmOnly).value;
    if j != k {
      assert false;
    }
  }

  // ---------- operations ----------

  datatype Op =
    | Submit(id: Id, prompt: string, replyTo: string, priority: int, allowWrites: bool,
             timeoutSec: int, warm: bool, now: int)
    | Next(now: int)
    | NextWarm(now: int)
    | Complete(id: Id, text: string, now: int)
    | Fail(id: Id, text: string, now: int)
    | Cancel(id: Id)
    | MarkDelivered(id: Id)
    | Prune(days: int, cutoff: int)
  {
    /** Operations whose in-memory change is undone when the flush fails. */
    predicate Undone() { !MarkDelivered? && !Prune? }

    /** Operations that move the named task to a final status. */
    predicate Ends() { Complete? || Fail? || Cancel? }

    predicate Hands() { Next? || NextWarm? }
  }

  ghost predicate FirstWith(ts: seq<Task>, id: Id, k: int) {
    && 0 <= k < |ts| && ts[k].id == id
    && forall i :: 0 <= i < k ==> ts[i].id != id
  }

  lemma {:induction false} FirstExists(ts: seq<Task>, id: Id, n: nat) returns (k: int)
    requires n < |ts| && ts[n].id == id
    ensures FirstWith(ts, id, k)
    decreases n
  {
    if i :| 0 <= i < n && ts[i].id == id {
      k := FirstExists(ts, id, i);
    } else {
      k := n;
    }
  }

  ghost function Find(ts: seq<Task>, id: Id): (r: Option<nat>)
    ensures r == None <==> !Has(ts, id)
    ensures r.Some? ==> FirstWith(ts, id, r.value)
  {
    if !Has(ts, id) then None
    else
      assert exists k :: FirstWith(ts, id, k) by {
        var n :| 0 <= n < |ts| && ts[n].id == id;
        var k := FirstExists(ts, id, n);
      }
      var k :| FirstWith(ts, id, k);
      Some(k)
  }

  predicate Prunable(t: Task, days: int, cutoff: int) {
    t.status.Terminal() && (days <= 0 || (t.completedAt.Some? && t.completedAt.value < cutoff))
  }

  function Kept(ts: seq<Task>, days: int, cutoff: int): seq<Task> {
    if ts == [] then []
    else
      var init := Kept(ts[..|ts| - 1], days, cutoff);
      if Prunable(ts[|ts| - 1], days, cutoff) then init else init + [ts[|ts| - 1]]
  }

  /** The effect on the one task that an operation by id edits. */
  function Edit(op: Op, t: Task): Task
    requires op.Ends() || op.MarkDelivered?
  {
    match op
    case Complete(_, text, now) => t.(status := Completed, result := Some(text), completedAt := Some(now))
    case Fail(_, text, now) => t.(status := Failed, error := Some(text), completedAt := Some(now))
    case Cancel(_) => t.(status := Cancelled)
    case MarkDelivered(_) => t.(delivered := true)
  }

  /** The list an operation hands to the flush, or None when it returns without flushing. */
  ghost function Planned(op: Op, ts: seq<Task>): Option<seq<Task>> {
    match op
    case Submit(id, prompt, replyTo, priority, allowWrites, timeoutSec, warm, now) =>
      Some(ts + [NewTask(id, prompt, replyTo, priority, allowWrites, timeoutSec, warm, now)])
    case Next(now) => Started(ts, false, now)
    case NextWarm(now) => Started(ts, true, now)
    case Prune(days, cutoff) =>
      if |Kept(ts, days, cutoff)| < |ts| then Some(Kept(ts, days, cutoff)) else None
    case _ =>
      (match Find(ts, op.id)
       case None => None
       case Some(i) => Some(ts[i := Edit(op, ts[i])]))
  }

  ghost function Started(ts: seq<Task>, warmOnly: bool, now: int): Option<seq<Task>> {
    match NextIndex(ts, warmOnly)
    case None => None
    case Some(k) => Some(ts[k := ts[k].(status := Running, startedAt := Some(now))])
  }

  /** What a failed flush leaves in memory. */
  ghost function RolledBack(op: Op, ts: seq<Task>): seq<Task> {
    match op
    case Next(_) => Requeued(ts, false)
    case NextWarm(_) => Requeued(ts, true)
    case MarkDelivered(_) | Prune(_, _) =>
      (match Planned(op, ts) case None => ts case Some(l) => l)
    case _ => ts
  }

  /** The rollback of a start does not put the old value back: it writes queued and clears the start time. */
  ghost function Requeued(ts: seq<Task>, warmOnly: bool): seq<Task> {
    match NextIndex(ts, warmOnly)
    case None => ts
    case Some(k) => ts[k := ts[k].(status := Queued, startedAt := None)]
  }

  /**
    What a start comes to, with the order written out: the queued task (for a warm
    worker: one that is warm and allows no writes) of the least priority number, the
    oldest of those, the first in the list of those, is marked running.
   */
  lemma StartSays(warmOnly: bool, now: int, ts: seq<Task>, disk: Disk<seq<Task>>, fault: Fault)
    requires disk.Valid()
    ensures match NextIndex(ts, warmOnly)
      case None =>
        && (forall j :: 0 <= j < |ts| ==> !(ts[j].status == Queued && (warmOnly ==> ts[j].warm && !ts[j].allowWrites)))
        && StartEffect(warmOnly, now, ts, disk, fault) == Effect(Some(ts), disk, Acknowledged)
      case Some(k) =>
        && k < |ts| && ts[k].status == Queued && (warmOnly ==> ts[k].warm && !ts[k].allowWrites)
        && (forall j :: 0 <= j < |ts| && j != k && ts[j].status == Queued ==>
              || (warmOnly && (!ts[j].warm || ts[j].allowWrites))
              || ts[k].priority < ts[j].priority
              || (ts[k].priority == ts[j].priority
                  && (ts[k].createdAt < ts[j].createdAt || (ts[k].createdAt == ts[j].createdAt && k < j))))
        && (fault == NoFault ==>
              var list := ts[k := ts[k].(status := Running, startedAt := Some(now))];
              StartEffect(warmOnly, now, ts, disk, fault)
              == Effect(Some(list), Disk(Whole(list), [Whole(list)]), Acknowledged))
        && (fault != NoFault ==> StartEffect(warmOnly, now, ts, disk, fault).reply != Acknowledged)
  {
  }

  // ---------- the invariant of a list ----------

  predicate DistinctIds(ts: seq<Task>) {
    forall i, j :: 0 <= i < j < |ts| ==> ts[i].id != ts[j].id
  }

  predicate QueuedNotStarted(ts: seq<Task>) {
    forall i :: 0 <= i < |ts| && ts[i].status == Queued ==> ts[i].startedAt == None
  }

  predicate Good(ts: seq<Task>) {
    DistinctIds(ts) && QueuedNotStarted(ts)
  }

  predicate Has(ts: seq<Task>, id: Id) {
    exists i :: 0 <= i < |ts| && ts[i].id == id
  }

  /** The task is gone or in a final status. */
  predicate Over(ts: seq<Task>, id: Id) {
    forall i :: 0 <= i < |ts| && ts[i].id == id ==> ts[i].status.Terminal()
  }

  predicate NotQueued(ts: seq<Task>, id: Id) {
    forall i :: 0 <= i < |ts| && ts[i].id == id ==> ts[i].status != Queued
  }

  /** Exactly when the rollback of a start restores memory. */
  lemma {:induction false} RollbackOfStart(ts: seq<Task>, op: Op)
    requires op.Hands()
    ensures var k := NextIndex(ts, op.NextWarm?);
            RolledBack(op, ts) == ts <==> (k == None || ts[k.value].startedAt == None)
  {
    match NextIndex(ts, op.NextWarm?)
    case None =>
    case Some(k) =>
      var u := ts[k].(status := Queued, startedAt := None);
      assert ts[k := u][k] == u;
      if ts[k].startedAt == None {
        assert u == ts[k];
        assert ts[k := u] == ts;
      }
  }

  lemma {:induction false} RollbackExact(ts: seq<Task>, op: Op)
    requires QueuedNotStarted(ts) && op.Undone()
    ensures RolledBack(op, ts) == ts
  {
    if op.Hands() {
      RollbackOfStart(ts, op);
    }
  }

  // ---------- pruning ----------

  lemma KeptNone(days: int, cutoff: int)
    ensures Kept([], days, cutoff) == []
  {
  }

  lemma KeptLast(ts: seq<Task>, t: Task, days: int, cutoff: int)
    ensures Kept(ts + [t], days, cutoff)
      == if Prunable(t, days, cutoff) then Kept(ts, days, cutoff) else Kept(ts, days, cutoff) + [t]
  {
    assert (ts + [t])[..|ts|] == ts;
  }

  lemma {:induction false} KeptIsSub(ts: seq<Task>, days: int, cutoff: int)
    ensures |Kept(ts, days, cutoff)| <= |ts|
    ensures forall t :: t in Kept(ts, days, cutoff) <==> t in ts && !Prunable(t, days, cutoff)
    ensures |Kept(ts, days, cutoff)| == |ts| ==> Kept(ts, days, cutoff) == ts
  {
    hide Prunable;
    if ts == [] {
      KeptNone(days, cutoff);
    } else {
      hide Kept;
      var n := |ts| - 1;
      var init, t := ts[..n], ts[n];
      KeptIsSub(init, days, cutoff);
      assert ts == init + [t];
      KeptLast(init, t, days, cutoff);
      LastOrBefore(init, t, ts);
      LastOrBefore(Kept(init, days, cutoff), t, Kept(init, days, cutoff) + [t]);
    }
  }

  /**
    `kept` are the tasks of `ts` at increasing places, all but those in a final
    status that are old enough (of any age without a retention period).
   */
  ghost predicate Leaves(ts: seq<Task>, kept: seq<Task>, places: seq<nat>, days: int, cutoff: int) {
    && |places| == |kept|
    && (forall i, j :: 0 <= i < j < |places| ==> places[i] < places[j])
    && (forall i :: 0 <= i < |places| ==> places[i] < |ts| && kept[i] == ts[places[i]])
    && (forall p :: 0 <= p < |ts| ==>
          (p !in places <==>
             && ts[p].status in {Completed, Failed, Cancelled}
             && (days <= 0 || (ts[p].completedAt.Some? && ts[p].completedAt.value < cutoff))))
  }

  lemma LeavesDropped(ts: seq<Task>, t: Task, kept: seq<Task>, places: seq<nat>, days: int, cutoff: int)
    requires Leaves(ts, kept, places, days, cutoff) && Prunable(t, days, cutoff)
    ensures Leaves(ts + [t], kept, places, days, cutoff)
  {
    assert |ts| !in places;
  }

  lemma LeavesKept(ts: seq<Task>, t: Task, kept: seq<Task>, places: seq<nat>, days: int, cutoff: int)
    requires Leaves(ts, kept, places, days, cutoff) && !Prunable(t, days, cutoff)
    ensures Leaves(ts + [t], kept + [t], places + [|ts|], days, cutoff)
  {
    assert |ts| !in places;
    assert forall p :: p in places + [|ts|] <==> p in places || p == |ts|;
  }

  lemma {:induction false} KeptPlaces(ts: seq<Task>, days: int, cutoff: int) returns (places: seq<nat>)
    ensures Leaves(ts, Kept(ts, days, cutoff), places, days, cutoff)
  {
    if ts == [] {
      places := [];
    } else {
      hide Leaves, Prunable;
      var n := |ts| - 1;
      places := KeptPlaces(ts[..n], days, cutoff);
      assert ts == ts[..n] + [ts[n]];
      if Prunable(ts[n], days, cutoff) {
        LeavesDropped(ts[..n], ts[n], Kept(ts[..n], days, cutoff), places, days, cutoff);
      } else {
        LeavesKept(ts[..n], ts[n], Kept(ts[..n], days, cutoff), places, days, cutoff);
        places := places + [n];
      }
    }
  }

  lemma LastOrBefore(init: seq<Task>, t: Task, all: seq<Task>)
    requires all == init + [t]
    ensures forall x :: x in all <==> x in init || x == t
  {
  }

  lemma {:induction false} KeptDistinct(ts: seq<Task>, days: int, cutoff: int)
    requires DistinctIds(ts)
    ensures DistinctIds(Kept(ts, days, cutoff))
  {
    hide Prunable;
    if ts == [] {
      KeptNone(days, cutoff);
    } else {
      hide Kept;
      var n := |ts| - 1;
      var init, t := ts[..n], ts[n];
      assert forall i :: 0 <= i < n ==> init[i] == ts[i];
      KeptDistinct(init, days, cutoff);
      assert ts == init + [t];
      KeptLast(init, t, days, cutoff);
      OthersKept(init, t.id, days, cutoff);
    }
  }

  lemma OthersKept(ts: seq<Task>, id: Id, days: int, cutoff: int)
    requires forall i :: 0 <= i < |ts| ==> ts[i].id != id
    ensures forall i :: 0 <= i < |Kept(ts, days, cutoff)| ==> Kept(ts, days, cutoff)[i].id != id
  {
    hide Kept, Prunable;
    KeptIsSub(ts, days, cutoff);
    var kept := Kept(ts, days, cutoff);
    forall i | 0 <= i < |kept| ensures kept[i].id != id {
      assert kept[i] in ts;
    }
  }

  // ---------- an operation with its flush ----------

  datatype Reply = Acknowledged | NotFound | FlushFailed | Died

  function ReplyOf(fault: Fault): Reply {
    match WriteOutcome(fault)
    case Done => Acknowledged
    case Erred => FlushFailed
    case Crashed => Died
  }

  /** The list in memory (None when the process died), the file, and the answer to the caller. */
  datatype Effect = Effect(mem: Option<seq<Task>>, disk: Disk<seq<Task>>, reply: Reply)

  ghost function Perform(op: Op, ts: seq<Task>, disk: Disk<seq<Task>>, fault: Fault): Effect
    requires disk.Valid()
  {
    match op
    case Submit(id, prompt, replyTo, priority, allowWrites, timeoutSec, warm, now) =>
      Flushed(ts + [NewTask(id, prompt, replyTo, priority, allowWrites, timeoutSec, warm, now)], ts, disk, fault)
    case Next(now) => StartEffect(false, now, ts, disk, fault)
    case NextWarm(now) => StartEffect(true, now, ts, disk, fault)
    case Prune(days, cutoff) => PruneEffect(days, cutoff, ts, disk, fault)
    case _ => EditEffect(op, ts, disk, fault)
  }

  ghost function Flushed(list: seq<Task>, undone: seq<Task>, disk: Disk<seq<Task>>, fault: Fault): Effect
    requires disk.Valid()
  {
    var reply := ReplyOf(fault);
    var mem := match reply
      case Acknowledged => Some(list)
      case Died => None
      case _ => Some(undone);
    Effect(mem, AfterWrite(disk, list, fault), reply)
  }

  ghost function EditEffect(op: Op, ts: seq<Task>, disk: Disk<seq<Task>>, fault: Fault): Effect
    requires disk.Valid() && (op.Ends() || op.MarkDelivered?)
  {
    match Find(ts, op.id)
    case None => Effect(Some(ts), disk, NotFound)
    case Some(i) =>
      var list := ts[i := Edit(op, ts[i])];
      Flushed(list, if op.MarkDelivered? then list else ts, disk, fault)
  }

  ghost function StartEffect(warmOnly: bool, now: int, ts: seq<Task>, disk: Disk<seq<Task>>, fault: Fault): Effect
    requires disk.Valid()
  {
    match NextIndex(ts, warmOnly)
    case None => Effect(Some(ts), disk, Acknowledged)
    case Some(k) =>
      Flushed(ts[k := ts[k].(status := Running, startedAt := Some(now))],
              ts[k := ts[k].(status := Queued, startedAt := None)], disk, fault)
  }

  ghost function PruneEffect(days: int, cutoff: int, ts: seq<Task>, disk: Disk<seq<Task>>, fault: Fault): Effect
    requires disk.Valid()
  {
    var kept := Kept(ts, days, cutoff);
    if |kept| < |ts| then Flushed(kept, kept, disk, fault) else Effect(Some(ts), disk, Acknowledged)
  }

  /** Every operation flushes its planned list or leaves everything alone. */
  lemma {:induction false} PerformPlanned(op: Op, ts: seq<Task>, disk: Disk<seq<Task>>, fault: Fault)
    requires disk.Valid()
    ensures match Planned(op, ts)
      case None =>
        Perform(op, ts, disk, fault)
          == Effect(Some(ts), disk, if op.Hands() || op.Prune? then Acknowledged else NotFound)
      case Some(list) => Perform(op, ts, disk, fault) == Flushed(list, RolledBack(op, ts), disk, fault)
  {
  }

  // ---------- what the edits write, field by field ----------

  /** An acknowledged completion: the first task with the id is completed with that result, all else is as before, and so it stands in the file. */
  lemma CompleteSays(ts: seq<Task>, disk: Disk<seq<Task>>, id: Id, text: string, now: int) returns (k: nat)
    requires disk.Valid() && exists i :: 0 <= i < |ts| && ts[i].id == id
    ensures k < |ts| && ts[k].id == id && forall i :: 0 <= i < k ==> ts[i].id != id
    ensures var list := ts[k := ts[k].(status := Completed, result := Some(text), completedAt := Some(now))];
      Planned(Complete(id, text, now), ts) == Some(list)
      && Perform(Complete(id, text, now), ts, disk, NoFault) == Effect(Some(list), Disk(Whole(list), [Whole(list)]), Acknowledged)
  {
    assert Has(ts, id);
    k := Find(ts, id).value;
  }

  /** An acknowledged failure stores the error text. */
  lemma FailSays(ts: seq<Task>, disk: Disk<seq<Task>>, id: Id, text: string, now: int) returns (k: nat)
    requires disk.Valid() && exists i :: 0 <= i < |ts| && ts[i].id == id
    ensures k < |ts| && ts[k].id == id && forall i :: 0 <= i < k ==> ts[i].id != id
    ensures var list := ts[k := ts[k].(status := Failed, error := Some(text), completedAt := Some(now))];
      Planned(Fail(id, text, now), ts) == Some(list)
      && Perform(Fail(id, text, now), ts, disk, NoFault) == Effect(Some(list), Disk(Whole(list), [Whole(list)]), Acknowledged)
  {
    assert Has(ts, id);
    k := Find(ts, id).value;
  }

  /** A cancellation changes the status alone. */
  lemma CancelSays(ts: seq<Task>, disk: Disk<seq<Task>>, id: Id) returns (k: nat)
    requires disk.Valid() && exists i :: 0 <= i < |ts| && ts[i].id == id
    ensures k < |ts| && ts[k].id == id && forall i :: 0 <= i < k ==> ts[i].id != id
    ensures var list := ts[k := ts[k].(status := Cancelled)];
      Planned(Cancel(id), ts) == Some(list)
      && Perform(Cancel(id), ts, disk, NoFault) == Effect(Some(list), Disk(Whole(list), [Whole(list)]), Acknowledged)
  {
    assert Has(ts, id);
    k := Find(ts, id).value;
  }

  /** A delivery sets the mark alone. */
  lemma MarkDeliveredSays(ts: seq<Task>, disk: Disk<seq<Task>>, id: Id) returns (k: nat)
    requires disk.Valid() && exists i :: 0 <= i < |ts| && ts[i].id == id
    ensures k < |ts| && ts[k].id == id && forall i :: 0 <= i < k ==> ts[i].id != id
    ensures var list := ts[k := ts[k].(delivered := true)];
      Planned(MarkDelivered(id), ts) == Some(list)
      && Perform(MarkDelivered(id), ts, disk, NoFault) == Effect(Some(list), Disk(Whole(list), [Whole(list)]), Acknowledged)
  {
    assert Has(ts, id);
    k := Find(ts, id).value;
  }

  // ---------- what every operation keeps ----------

  /** A successful flush and a failed one both leave a list with these properties. */
  lemma {:induction false} PlannedGood(ts: seq<Task>, op: Op)
    requires Good(ts)
    requires op.Submit? ==> !Has(ts, op.id)
    requires Planned(op, ts).Some?
    ensures Good(Planned(op, ts).value)
  {
    if op.Prune? {
      var kept := Kept(ts, op.days, op.cutoff);
      KeptIsSub(ts, op.days, op.cutoff);
      KeptDistinct(ts, op.days, op.cutoff);
      forall i | 0 <= i < |kept| && kept[i].status == Queued ensures kept[i].startedAt == None {
        assert kept[i] in ts;
      }
    } else if op.Submit? {
      forall i | 0 <= i < |ts| ensures ts[i].id != op.id {
        assert Has(ts, ts[i].id);
      }
    }
  }

  /** No operation adds an id other than the one submitted. */
  lemma {:induction false} PlannedIds(ts: seq<Task>, op: Op, id: Id)
    requires Planned(op, ts).Some? && Has(Planned(op, ts).value, id)
    ensures Has(ts, id) || (op.Submit? && op.id == id)
  {
    var l := Planned(op, ts).value;
    var i :| 0 <= i < |l| && l[i].id == id;
    if op.Prune? {
      KeptIsSub(ts, op.days, op.cutoff);
      assert l[i] in ts;
    } else if i < |ts| {
      assert ts[i].id == id;
    }
  }

  /** A task that is over stays over, and one that is not queued is not queued again. */
  lemma {:induction false} PlannedKeepsOver(ts: seq<Task>, op: Op, id: Id)
    requires op.Submit? ==> op.id != id
    requires Planned(op, ts).Some?
    ensures Over(ts, id) ==> Over(Planned(op, ts).value, id)
    ensures NotQueued(ts, id) ==> NotQueued(Planned(op, ts).value, id)
  {
    if op.Prune? {
      KeptIsSub(ts, op.days, op.cutoff);
      var l := Planned(op, ts).value;
      assert forall i :: 0 <= i < |l| ==> l[i] in l;
    }
  }

  /** Only pruning drops a task. */
  lemma {:induction false} PlannedKeepsTask(ts: seq<Task>, op: Op, id: Id)
    requires Planned(op, ts).Some? && Has(ts, id) && !op.Prune?
    ensures Has(Planned(op, ts).value, id)
  {
    var l := Planned(op, ts).value;
    var i :| 0 <= i < |ts| && ts[i].id == id;
    assert l[i].id == id;
  }

  lemma {:induction false} EndedIsOver(ts: seq<Task>, op: Op)
    requires op.Ends() && DistinctIds(ts) && Planned(op, ts).Some?
    ensures Over(Planned(op, ts).value, op.id)
  {
  }

  // ---------- reload ----------

  function Recovered(t: Task): Task {
    if t.status == Running then t.(status := Queued, startedAt := None) else t
  }

  function Recover(ts: seq<Task>): (r: seq<Task>) {
    seq(|ts|, i requires 0 <= i < |ts| => Recovered(ts[i]))
  }

  predicate AnyRunning(ts: seq<Task>) {
    exists i :: 0 <= i < |ts| && ts[i].status == Running
  }

  lemma {:induction false} RecoverKeeps(ts: seq<Task>, id: Id)
    ensures Good(ts) ==> Good(Recover(ts))
    ensures Over(ts, id) ==> Over(Recover(ts), id)
    ensures Has(ts, id) <==> Has(Recover(ts), id)
    ensures !AnyRunning(ts) ==> Recover(ts) == ts
    ensures !AnyRunning(Recover(ts))
  {
    if Has(ts, id) {
      var i :| 0 <= i < |ts| && ts[i].id == id;
      assert Recover(ts)[i].id == id;
    }
    if Has(Recover(ts), id) {
      var i :| 0 <= i < |ts| && Recover(ts)[i].id == id;
      assert ts[i].id == id;
    }
  }

  datatype LoadFault = ReadFails | Read(flush: Fault)

  /** Loading the queue file: `mem` is None when no queue comes back. */
  ghost function Load(disk: Disk<seq<Task>>, fault: LoadFault): Effect
    requires disk.Valid()
  {
    match fault
    case ReadFails => Effect(None, disk, FlushFailed)
    case Read(flush) =>
      if disk.file == Absent then Effect(Some([]), disk, Acknowledged)
      else if disk.file == Torn then Effect(None, disk, FlushFailed) // does not parse
      else if !AnyRunning(disk.file.data) then Effect(Some(disk.file.data), disk, Acknowledged)
      else
        var list := Recover(disk.file.data);
        Effect(if ReplyOf(flush) == Acknowledged then Some(list) else None,
               AfterWrite(disk, list, flush), ReplyOf(flush))
  }

  /** Starting the daemon: when the load fails it carries on with an empty queue. */
  ghost function StartUp(disk: Disk<seq<Task>>, fault: LoadFault): Effect
    requires disk.Valid()
  {
    var e := Load(disk, fault);
    if e.reply == FlushFailed then e.(mem := Some([])) else e
  }
}
