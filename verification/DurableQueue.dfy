/**
  The persistent queue as the daemon holds it: a list of task objects changed in
  place, flushed through the atomic write after every change. Each method is
  proved to do to the list and to the file what `QueueModel` says.
 */
module DurableQueue {
  import opened Basics
  import opened AtomicFs
  import M = QueueModel

  /** A task object shared by reference: operations change the task it holds, field by field or as a whole. */
  class TaskCell {
    var task: M.Task

    constructor (t: M.Task)
      ensures task == t
    {
      task := t;
    }
  }

  ghost predicate DistinctCells(cells: seq<TaskCell>) {
    forall i, j :: 0 <= i < j < |cells| ==> cells[i] != cells[j]
  }

  class Queue {
    var tasks: seq<TaskCell>
    const disk: FileSystem<seq<M.Task>>
    ghost var Contents: seq<M.Task> // the values of the cells, in order

    constructor (disk: FileSystem<seq<M.Task>>)
      ensures this.disk == disk && tasks == [] && Contents == [] && Valid()
    {
      this.disk := disk;
      tasks, Contents := [], [];
    }

    ghost predicate Valid()
      reads this, tasks
    {
      && DistinctCells(tasks)
      && |Contents| == |tasks|
      && forall i :: 0 <= i < |tasks| ==> Contents[i] == tasks[i].task
    }

    /** What a caller and the disk see once a method has answered; a dead process has no list. */
    ghost function Seen(reply: M.Reply): M.Effect
      reads this, disk
    {
      M.Effect(if reply == M.Died then None else Some(Contents), disk.View(), reply)
    }

    method Flush(fault: Fault) returns (reply: M.Reply)
      requires Valid() && disk.View().Valid()
      modifies disk
      ensures disk.View() == AfterWrite(old(disk.View()), Contents, fault)
      ensures reply == M.ReplyOf(fault) && (reply == M.Acknowledged <==> fault == NoFault)
      ensures reply == M.Acknowledged ==> disk.file == Whole(Contents)
    {
      var values: seq<M.Task> := [];
      for i := 0 to |tasks|
        invariant values == Contents[..i]
      {
        values := values + [tasks[i].task];
      }
      assert values == Contents;
      var outcome := disk.WriteFile(values, fault);
      reply := match outcome case Done => M.Acknowledged case Erred => M.FlushFailed case Crashed => M.Died;
    }

    method FindCell(id: M.Id) returns (k: Option<nat>)
      requires Valid()
      ensures k == M.Find(Contents, id)
    {
      for i := 0 to |tasks|
        invariant forall j :: 0 <= j < i ==> Contents[j].id != id
      {
        if tasks[i].task.id == id {
          assert M.FirstWith(Contents, id, i);
          return Some(i);
        }
      }
      return None;
    }

    method Submit(id: M.Id, prompt: string, replyTo: string, priority: int, allowWrites: bool,
                  timeoutSec: int, warm: bool, now: int, fault: Fault) returns (reply: M.Reply)
      requires Valid() && disk.View().Valid()
      modifies this, disk
      ensures Valid()
      ensures Seen(reply)
           == M.Flushed(old(Contents) + [M.NewTask(id, prompt, replyTo, priority, allowWrites, timeoutSec, warm, now)],
                        old(Contents), old(disk.View()), fault)
      ensures reply == M.Acknowledged <==> fault == NoFault
      ensures reply == M.Acknowledged ==>
        && Contents == old(Contents) + [M.Task(id, prompt, replyTo, priority, allowWrites, warm, now, timeoutSec,
                                               M.Queued, None, None, None, None, false)]
        && disk.file == Whole(Contents)
      ensures reply == M.FlushFailed ==> Contents == old(Contents)
    {
      var cell := new TaskCell(M.NewTask(id, prompt, replyTo, priority, allowWrites, timeoutSec, warm, now));
      tasks, Contents := tasks + [cell], Contents + [cell.task];
      reply := Flush(fault);
      if reply == M.FlushFailed {
        tasks, Contents := tasks[..|tasks| - 1], Contents[..|tasks| - 1];
      }
    }

    /** The scan for the best eligible task. */
    method Best(warmOnly: bool) returns (best: TaskCell?, ghost k: nat)
      requires Valid()
      ensures best == null <==> M.NextIndex(Contents, warmOnly) == None
      ensures best != null ==> k < |tasks| && best == tasks[k] && M.NextIndex(Contents, warmOnly) == Some(k)
    {
      best, k := null, 0;
      for i := 0 to |tasks|
        invariant best == null ==> forall j :: 0 <= j < i ==> !M.Eligible(Contents[j], warmOnly)
        invariant best != null ==> 0 <= k < i && best == tasks[k] && M.Eligible(Contents[k], warmOnly)
        invariant best != null ==>
          forall j :: 0 <= j < i && j != k && M.Eligible(Contents[j], warmOnly) ==> M.Precedes(Contents, k, j)
      {
        var t := tasks[i].task;
        if t.status != M.Queued || (warmOnly && (!t.warm || t.allowWrites)) {
          continue;
        }
        if best == null
           || t.priority < best.task.priority
           || (t.priority == best.task.priority && t.createdAt < best.task.createdAt) {
          best, k := tasks[i], i;
        }
      }
      if best != null {
        assert M.IsNext(Contents, warmOnly, k);
        M.NextUnique(Contents, warmOnly, k);
      }
    }

    /** Marks the best eligible task as running; the returned cell is the queue's own, not a copy. */
    method Take(warmOnly: bool, now: int, fault: Fault) returns (reply: M.Reply, best: TaskCell?)
      requires Valid() && disk.View().Valid()
      modifies this, tasks, disk
      ensures Valid() && tasks == old(tasks)
      ensures Seen(reply) == M.StartEffect(warmOnly, now, old(Contents), old(disk.View()), fault)
      ensures best != null <==>
              reply == M.Acknowledged && M.NextIndex(old(Contents), warmOnly).Some?
      ensures best != null ==> best == tasks[M.NextIndex(old(Contents), warmOnly).value]
    {
      hide M.NextIndex, M.IsNext, M.NoneEligible, M.Eligible, AfterWrite;
      ghost var was := Contents;
      ghost var k;
      best, k := Best(warmOnly);
      if best == null {
        return M.Acknowledged, null;
      }
      best.task := best.task.(status := M.Running, startedAt := Some(now));
      Contents := Contents[k := best.task];
      reply := Flush(fault);
      if reply == M.FlushFailed {
        best.task := best.task.(status := M.Queued, startedAt := None);
        Contents := Contents[k := best.task];
        assert Contents == was[k := was[k].(status := M.Queued, startedAt := None)];
      }
      if reply != M.Acknowledged {
        best := null;
      }
    }

    method Next(now: int, fault: Fault) returns (reply: M.Reply, best: TaskCell?)
      requires Valid() && disk.View().Valid()
      modifies this, tasks, disk
      ensures Valid() && tasks == old(tasks)
      ensures Seen(reply) == M.StartEffect(false, now, old(Contents), old(disk.View()), fault)
      ensures best != null <==> reply == M.Acknowledged && M.NextIndex(old(Contents), false).Some?
      ensures best != null ==> best == tasks[M.NextIndex(old(Contents), false).value]
      ensures best != null <==> fault == NoFault && exists t :: t in old(Contents) && t.status == M.Queued
      ensures best != null ==> disk.file == Whole(Contents) && exists k ::
        && 0 <= k < |old(Contents)| && best == tasks[k] && old(Contents)[k].status == M.Queued
        && Contents == old(Contents)[k := old(Contents)[k].(status := M.Running, startedAt := Some(now))]
        && forall j :: 0 <= j < |old(Contents)| && j != k && old(Contents)[j].status == M.Queued ==>
             || old(Contents)[k].priority < old(Contents)[j].priority
             || (old(Contents)[k].priority == old(Contents)[j].priority
                 && (|| old(Contents)[k].createdAt < old(Contents)[j].createdAt
                     || (old(Contents)[k].createdAt == old(Contents)[j].createdAt && k < j)))
      ensures best == null && reply == M.Acknowledged ==>
        Contents == old(Contents) && forall j :: 0 <= j < |Contents| ==> !(Contents[j].status == M.Queued)
    {
      ghost var was, before := Contents, disk.View();
      reply, best := Take(false, now, fault);
      M.StartSays(false, now, was, before, fault);
      hide M.NextIndex, M.StartEffect;
    }

    method NextWarm(now: int, fault: Fault) returns (reply: M.Reply, best: TaskCell?)
      requires Valid() && disk.View().Valid()
      modifies this, tasks, disk
      ensures Valid() && tasks == old(tasks)
      ensures Seen(reply) == M.StartEffect(true, now, old(Contents), old(disk.View()), fault)
      ensures best != null <==> reply == M.Acknowledged && M.NextIndex(old(Contents), true).Some?
      ensures best != null ==> best == tasks[M.NextIndex(old(Contents), true).value]
      ensures best != null <==> fault == NoFault && exists t :: t in old(Contents) && t.status == M.Queued && t.warm && !t.allowWrites
      ensures best != null ==> disk.file == Whole(Contents) && exists k ::
        && 0 <= k < |old(Contents)| && best == tasks[k]
        && old(Contents)[k].status == M.Queued && old(Contents)[k].warm && !old(Contents)[k].allowWrites
        && Contents == old(Contents)[k := old(Contents)[k].(status := M.Running, startedAt := Some(now))]
        && forall j :: (&& 0 <= j < |old(Contents)| && j != k && old(Contents)[j].status == M.Queued
                        && old(Contents)[j].warm && !old(Contents)[j].allowWrites) ==>
             || old(Contents)[k].priority < old(Contents)[j].priority
             || (old(Contents)[k].priority == old(Contents)[j].priority
                 && (|| old(Contents)[k].createdAt < old(Contents)[j].createdAt
                     || (old(Contents)[k].createdAt == old(Contents)[j].createdAt && k < j)))
      ensures best == null && reply == M.Acknowledged ==>
        && Contents == old(Contents)
        && forall j :: 0 <= j < |Contents| ==>
             !(Contents[j].status == M.Queued && Contents[j].warm && !Contents[j].allowWrites)
    {
      ghost var was, before := Contents, disk.View();
      reply, best := Take(true, now, fault);
      M.StartSays(true, now, was, before, fault);
      hide M.NextIndex, M.StartEffect;
    }

    method Complete(id: M.Id, text: string, now: int, fault: Fault) returns (reply: M.Reply)
      requires Valid() && disk.View().Valid()
      modifies this, tasks, disk
      ensures Valid() && tasks == old(tasks)
      ensures Seen(reply) == M.EditEffect(M.Complete(id, text, now), old(Contents), old(disk.View()), fault)
      ensures reply == M.Acknowledged ==> disk.file == Whole(Contents) && exists k ::
        && 0 <= k < |old(Contents)| && old(Contents)[k].id == id
        && (forall i :: 0 <= i < k ==> old(Contents)[i].id != id)
        && Contents == old(Contents)[k := old(Contents)[k].(status := M.Completed, result := Some(text), completedAt := Some(now))]
      ensures reply == M.NotFound <==> forall i :: 0 <= i < |old(Contents)| ==> old(Contents)[i].id != id
      ensures reply == M.FlushFailed ==> Contents == old(Contents)
    {
      hide M.Find, AfterWrite;
      ghost var was, before := Contents, disk.View();
      var k := FindCell(id);
      if k == None { return M.NotFound; }
      var cell := tasks[k.value];
      var prev := cell.task;
      cell.task := prev.(status := M.Completed, result := Some(text), completedAt := Some(now));
      Contents := Contents[k.value := cell.task];
      assert M.EditEffect(M.Complete(id, text, now), was, before, fault) == M.Flushed(Contents, was, before, fault);
      reply := Flush(fault);
      if reply == M.FlushFailed {
        cell.task := prev;
        Contents := was;
      }
    }

    method Fail(id: M.Id, text: string, now: int, fault: Fault) returns (reply: M.Reply)
      requires Valid() && disk.View().Valid()
      modifies this, tasks, disk
      ensures Valid() && tasks == old(tasks)
      ensures Seen(reply) == M.EditEffect(M.Fail(id, text, now), old(Contents), old(disk.View()), fault)
      ensures reply == M.Acknowledged ==> disk.file == Whole(Contents) && exists k ::
        && 0 <= k < |old(Contents)| && old(Contents)[k].id == id
        && (forall i :: 0 <= i < k ==> old(Contents)[i].id != id)
        && Contents == old(Contents)[k := old(Contents)[k].(status := M.Failed, error := Some(text), completedAt := Some(now))]
      ensures reply == M.NotFound <==> forall i :: 0 <= i < |old(Contents)| ==> old(Contents)[i].id != id
      ensures reply == M.FlushFailed ==> Contents == old(Contents)
    {
      hide M.Find, AfterWrite;
      ghost var was, before := Contents, disk.View();
      var k := FindCell(id);
      if k == None { return M.NotFound; }
      var cell := tasks[k.value];
      var prev := cell.task;
      cell.task := prev.(status := M.Failed, error := Some(text), completedAt := Some(now));
      Contents := Contents[k.value := cell.task];
      assert M.EditEffect(M.Fail(id, text, now), was, before, fault) == M.Flushed(Contents, was, before, fault);
      reply := Flush(fault);
      if reply == M.FlushFailed {
        cell.task := prev;
        Contents := was;
      }
    }

    method Cancel(id: M.Id, fault: Fault) returns (reply: M.Reply)
      requires Valid() && disk.View().Valid()
      modifies this, tasks, disk
      ensures Valid() && tasks == old(tasks)
      ensures Seen(reply) == M.EditEffect(M.Cancel(id), old(Contents), old(disk.View()), fault)
      ensures reply == M.Acknowledged ==> disk.file == Whole(Contents) && exists k ::
        && 0 <= k < |old(Contents)| && old(Contents)[k].id == id
        && (forall i :: 0 <= i < k ==> old(Contents)[i].id != id)
        && Contents == old(Contents)[k := old(Contents)[k].(status := M.Cancelled)]
      ensures reply == M.NotFound <==> forall i :: 0 <= i < |old(Contents)| ==> old(Contents)[i].id != id
      ensures reply == M.FlushFailed ==> Contents == old(Contents)
    {
      hide M.Find, AfterWrite;
      ghost var was, before := Contents, disk.View();
      var k := FindCell(id);
      if k == None { return M.NotFound; }
      var cell := tasks[k.value];
      var prev := cell.task;
      cell.task := prev.(status := M.Cancelled);
      Contents := Contents[k.value := cell.task];
      assert M.EditEffect(M.Cancel(id), was, before, fault) == M.Flushed(Contents, was, before, fault);
      reply := Flush(fault);
      if reply == M.FlushFailed {
        cell.task := prev;
        Contents := was;
      }
    }

    /** A failed flush does not take the mark back. */
    method MarkDelivered(id: M.Id, fault: Fault) returns (reply: M.Reply)
      requires Valid() && disk.View().Valid()
      modifies this, tasks, disk
      ensures Valid() && tasks == old(tasks)
      ensures Seen(reply) == M.EditEffect(M.MarkDelivered(id), old(Contents), old(disk.View()), fault)
      ensures reply == M.Acknowledged ==> disk.file == Whole(Contents)
      ensures reply == M.Acknowledged || reply == M.FlushFailed ==> exists k ::
        && 0 <= k < |old(Contents)| && old(Contents)[k].id == id
        && (forall i :: 0 <= i < k ==> old(Contents)[i].id != id)
        && Contents == old(Contents)[k := old(Contents)[k].(delivered := true)]
      ensures reply == M.NotFound <==> forall i :: 0 <= i < |old(Contents)| ==> old(Contents)[i].id != id
    {
      hide M.Find, AfterWrite;
      var k := FindCell(id);
      if k == None { return M.NotFound; }
      var cell := tasks[k.value];
      cell.task := cell.task.(delivered := true);
      Contents := Contents[k.value := cell.task];
      reply := Flush(fault);
    }

    /** The pruning loop: the cells that stay, and how many go. */
    method Survivors(days: int, cutoff: int) returns (kept: seq<TaskCell>, ghost keptValues: seq<M.Task>, removed: nat)
      requires Valid()
      ensures |kept| == |keptValues| == |tasks| - removed && DistinctCells(kept)
      ensures forall j :: 0 <= j < |kept| ==> keptValues[j] == kept[j].task
      ensures keptValues == M.Kept(Contents, days, cutoff)
    {
      hide M.Kept;
      M.KeptNone(days, cutoff);
      assert Contents[..0] == [];
      kept, keptValues, removed := [], [], 0;
      for i := 0 to |tasks|
        invariant |kept| == |keptValues| == i - removed
        invariant forall j :: 0 <= j < |kept| ==> keptValues[j] == kept[j].task
        invariant keptValues == M.Kept(Contents[..i], days, cutoff)
        invariant forall c :: c in kept ==> c in tasks[..i]
        invariant DistinctCells(kept)
      {
        var t := tasks[i].task;
        M.KeptLast(Contents[..i], t, days, cutoff);
        assert Contents[..i + 1] == Contents[..i] + [t];
        if t.status == M.Completed || t.status == M.Failed || t.status == M.Cancelled {
          if days <= 0 || (t.completedAt.Some? && t.completedAt.value < cutoff) {
            removed := removed + 1;
            continue;
          }
        }
        assert forall j :: 0 <= j < |kept| ==> kept[j] in kept && kept[j] != tasks[i];
        kept, keptValues := kept + [tasks[i]], keptValues + [t];
      }
      assert Contents[..|tasks|] == Contents;
    }

    /**
      Drops final tasks older than the retention period (`addDate` counts calendar
      days). The caller only learns how many; a failed flush goes unreported.
     */
    method Prune(days: int, now: int, addDate: (int, int) -> int, fault: Fault) returns (reply: M.Reply, removed: nat)
      requires Valid() && disk.View().Valid()
      modifies this, disk
      ensures Valid()
      ensures Seen(reply) == M.PruneEffect(days, addDate(now, -days), old(Contents), old(disk.View()), fault)
      ensures removed == |old(Contents)| - |M.Kept(old(Contents), days, addDate(now, -days))|
      ensures var cutoff := addDate(now, -days); exists places :: M.Leaves(old(Contents), Contents, places, days, cutoff)
    {
      hide M.Leaves, M.Kept;
      ghost var places := M.KeptPlaces(Contents, days, addDate(now, -days));
      M.KeptIsSub(Contents, days, addDate(now, -days));
      var cutoff := addDate(now, -days);
      var kept;
      ghost var keptValues;
      kept, keptValues, removed := Survivors(days, cutoff);
      reply := M.Acknowledged;
      if removed > 0 {
        tasks, Contents := kept, keptValues;
        reply := Flush(fault);
      }
    }
  }

  /** The stored list decoded into fresh cells; tasks that were running go back to queued. */
  method LoadQueue(disk: FileSystem<seq<M.Task>>, fault: M.LoadFault) returns (q: Queue?, reply: M.Reply)
    requires disk.View().Valid()
    modifies disk
    ensures q != null ==> fresh(q) && q.disk == disk && q.Valid() && fresh(q.tasks)
    ensures q != null <==> reply == M.Acknowledged
    ensures M.Effect(if q == null then None else Some(q.Contents), disk.View(), reply)
         == M.Load(old(disk.View()), fault)
    ensures q != null && old(disk.file) == Absent ==> q.Contents == []
    ensures q != null && old(disk.file).Whole? ==>
      var stored := old(disk.file).data;
      && |q.Contents| == |stored|
      && (forall i :: 0 <= i < |stored| && stored[i].status == M.Running ==>
            q.Contents[i] == stored[i].(status := M.Queued, startedAt := None))
      && (forall i :: 0 <= i < |stored| && stored[i].status != M.Running ==> q.Contents[i] == stored[i])
      && disk.file == Whole(q.Contents)
  {
    q := null;
    if fault == M.ReadFails { return null, M.FlushFailed; }
    var queue := new Queue(disk);
    if disk.file == Absent {
      assert queue.Contents == [];
      return queue, M.Acknowledged;
    }
    if disk.file == Torn { return null, M.FlushFailed; }
    var stored := disk.file.data;
    var recovered := false;
    var cells: seq<TaskCell> := [];
    for i := 0 to |stored|
      invariant |cells| == i && fresh(cells)
      invariant DistinctCells(cells)
      invariant queue !in (set c | c in cells :: c as object)
      invariant forall j :: 0 <= j < i ==> cells[j].task == M.Recovered(stored[j])
      invariant recovered <==> exists j :: 0 <= j < i && stored[j].status == M.Running
      invariant disk.View() == old(disk.View()) && queue.tasks == [] && fresh(queue)
    {
      var cell := new TaskCell(stored[i]);
      if cell.task.status == M.Running {
        cell.task := cell.task.(status := M.Queued, startedAt := None);
        recovered := true;
      }
      cells := cells + [cell];
    }
    queue.tasks, queue.Contents := cells, M.Recover(stored);
    assert !recovered ==> queue.Contents == stored;
    reply := M.Acknowledged;
    if recovered {
      reply := queue.Flush(fault.flush);
    }
    if reply == M.Acknowledged {
      q := queue;
    }
  }
}
