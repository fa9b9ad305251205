/**
  The atomic file write: write a sibling temporary file, rename it over the
  target, then synchronise the directory. Each of the three steps may fail, and
  the process may die between any two of them.
 */
module AtomicFs {

  /** What a path holds. `Torn` is a file cut short: while being written, or by a power loss afterwards. */
  datatype File<+T> = Absent | Torn | Whole(data: T)

  /** Where a write goes wrong: a step returns an error, or the process dies there. */
  datatype Fault =
    | NoFault
    | TmpFails
    | CrashInTmp
    | CrashBeforeRename
    | RenameFails
    | CrashBeforeSync
    | SyncFails
    | CrashAfterSync

  datatype Outcome = Done | Erred | Crashed

  /**
    The target path: what a reader sees now, and the directory states, oldest
    first, that a power loss could bring back (the newest is the visible one). The
    write never syncs the file's own data, so a whole file may still come back torn.
   */
  datatype Disk<T> = Disk(file: File<T>, entries: seq<File<T>>)
  {
    ghost predicate Valid() {
      |entries| > 0 && entries[|entries| - 1] == file
    }
  }

  predicate PastRename(fault: Fault) {
    fault in {NoFault, CrashBeforeSync, SyncFails, CrashAfterSync}
  }

  predicate Synced(fault: Fault) {
    fault in {NoFault, CrashAfterSync}
  }

  /** What a power loss makes of a directory state: its data survives only if it had been written back. */
  function AfterPowerLoss<T>(f: File<T>, written: bool): File<T> {
    if f.Whole? && !written then Torn else f
  }

  /** The target after writing `data`: all or nothing, decided by the rename alone. */
  function AfterWrite<T>(d: Disk<T>, data: T, fault: Fault): (r: Disk<T>)
    requires d.Valid()
    ensures r.Valid()
    ensures r.file == d.file || r.file == Whole(data)
    ensures forall f :: f in r.entries ==> f in d.entries || f == Whole(data)
  {
    if !PastRename(fault) then d
    else if Synced(fault) then Disk(Whole(data), [Whole(data)])
    else Disk(Whole(data), d.entries + [Whole(data)])
  }

  function WriteOutcome(fault: Fault): Outcome {
    match fault
    case NoFault => Done
    case TmpFails | RenameFails | SyncFails => Erred
    case _ => Crashed
  }

  class FileSystem<T> {
    var tmp: File<T>
    var file: File<T>
    ghost var entries: seq<File<T>>

    constructor (initial: File<T>)
      ensures View() == Disk(initial, [initial])
    {
      tmp, file, entries := Absent, initial, [initial];
    }

    ghost function View(): Disk<T>
      reads this
    {
      Disk(file, entries)
    }

    method WriteFile(data: T, fault: Fault) returns (outcome: Outcome)
      requires View().Valid()
      modifies this
      ensures View() == AfterWrite(old(View()), data, fault)
      ensures outcome == WriteOutcome(fault)
      ensures outcome == Done <==> fault == NoFault
      ensures fault in {TmpFails, RenameFails} ==> outcome == Erred && View() == old(View())
      ensures fault == SyncFails ==> outcome == Erred && file == Whole(data) && entries == old(entries) + [Whole(data)]
      ensures fault == NoFault ==> file == Whole(data) && entries == [Whole(data)]
      ensures outcome == Crashed ==> file == old(file) || file == Whole(data)
    {
      tmp := Torn; // created and truncated, then filled
      if fault == TmpFails { return Erred; }
      if fault == CrashInTmp { return Crashed; }
      tmp := Whole(data);
      if fault == CrashBeforeRename { return Crashed; }
      if fault == RenameFails { return Erred; }
      file, tmp := tmp, Absent;
      entries := entries + [file];
      if fault == CrashBeforeSync { return Crashed; }
      if fault == SyncFails { return Erred; }
      entries := [file];
      if fault == CrashAfterSync { return Crashed; }
      return Done;
    }
  }
}
