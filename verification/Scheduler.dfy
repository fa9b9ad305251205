/** Recurring schedules: creating, removing, choosing what is due, firing. */
module Scheduler {
  import opened AtomicFs
  import opened Basics

  /** The cron library: which expressions parse, and the next occurrence after a time. */
  datatype Cron = Cron(valid: string -> bool, next: (string, int) -> int)
  {
    /** `next` is strictly later, and the least occurrence later than its argument. */
    ghost predicate Lawful() {
      && (forall e, t :: next(e, t) > t)
      && (forall e, t, u :: t <= u < next(e, t) ==> next(e, u) == next(e, t))
    }

    ghost predicate Occurrence(e: string, t: int) {
      next(e, t - 1) == t
    }
  }

  lemma {:induction false} NextIsOccurrence(cron: Cron, e: string, t: int)
    requires cron.Lawful()
    ensures cron.Occurrence(e, cron.next(e, t)) && cron.next(e, t) > t
    ensures forall o :: t < o < cron.next(e, t) ==> !cron.Occurrence(e, o)
  {
    var o := cron.next(e, t);
    assert t <= o - 1 < o;
  }

  datatype Record = Record(name: string, expr: string, prompt: string, replyTo: string, allowWrites: bool,
                           createdAt: int, lastFiredAt: Option<int>)
  {
    /** The time occurrences are counted from: the last firing, or the creation. */
    function Reference(): int {
      if lastFiredAt.Some? then lastFiredAt.value else createdAt
    }

    function Fired(at: int): Record { this.(lastFiredAt := Some(at)) }
  }

  predicate Due(cron: Cron, r: Record, now: int) {
    cron.valid(r.expr) && cron.next(r.expr, r.Reference()) <= now
  }

  /** Missed while the daemon was down, by at most twice the interval to the following occurrence. */
  predicate MissedRecently(cron: Cron, r: Record, now: int) {
    && r.lastFiredAt.Some? && cron.valid(r.expr)
    && var missed := cron.next(r.expr, r.lastFiredAt.value);
       missed < now && now - missed <= 2 * (cron.next(r.expr, missed) - missed)
  }

  /** Due is having an occurrence waiting: one after the last firing (or the creation) and not after now. */
  lemma {:induction false} DueIff(cron: Cron, r: Record, now: int)
    requires cron.Lawful()
    ensures Due(cron, r, now) <==>
      && cron.valid(r.expr)
      && exists o :: cron.Occurrence(r.expr, o)
           && (match r.lastFiredAt case Some(last) => last < o case None => r.createdAt < o) && o <= now
  {
    var last := match r.lastFiredAt case Some(last) => last case None => r.createdAt;
    NextIsOccurrence(cron, r.expr, last);
    if o :| cron.Occurrence(r.expr, o) && last < o <= now {
      assert cron.next(r.expr, last) <= o;
    }
  }

  /**
    Recently missed: fired before, and the first occurrence since then is past, by no
    more than twice the time from it to the next one.
   */
  lemma {:induction false} MissedIff(cron: Cron, r: Record, now: int)
    requires cron.Lawful()
    ensures MissedRecently(cron, r, now) <==>
      && r.lastFiredAt.Some? && cron.valid(r.expr)
      && exists o, o' ::
           && cron.Occurrence(r.expr, o) && cron.Occurrence(r.expr, o') && r.lastFiredAt.value < o < o'
           && (forall x :: r.lastFiredAt.value < x < o' && x != o ==> !cron.Occurrence(r.expr, x))
           && o < now && now - o <= 2 * (o' - o)
  {
    if r.lastFiredAt.Some? {
      var last := r.lastFiredAt.value;
      var first := cron.next(r.expr, last);
      var second := cron.next(r.expr, first);
      FirstTwo(cron, r.expr, last, first, second);
      forall o, o' | cron.Occurrence(r.expr, o) && cron.Occurrence(r.expr, o') && last < o < o'
        ensures (forall x :: last < x < o' && x != o ==> !cron.Occurrence(r.expr, x)) <==> o == first && o' == second
      {
        FirstTwo(cron, r.expr, last, o, o');
      }
    }
  }

  /** Two occurrences with none before or between them are the next one and the one after it. */
  lemma FirstTwo(cron: Cron, e: string, last: int, o: int, o': int)
    requires cron.Lawful()
    ensures && cron.Occurrence(e, o) && cron.Occurrence(e, o') && last < o < o'
            && (forall x :: last < x < o' && x != o ==> !cron.Occurrence(e, x))
       <==> o == cron.next(e, last) && o' == cron.next(e, o)
  {
    NextIsOccurrence(cron, e, last);
    NextIsOccurrence(cron, e, o);
    NextIsOccurrence(cron, e, cron.next(e, last));
    if cron.Occurrence(e, o) && last < o {
      assert cron.next(e, last) <= o;
    }
    if cron.Occurrence(e, o') && o < o' {
      assert cron.next(e, o) <= o';
    }
  }

  class Schedule {
    var record: Record
    constructor (r: Record)
      ensures record == r
    {
      record := r;
    }
  }

  ghost function Chosen(cells: seq<Schedule>, keep: Record -> bool): seq<Schedule>
    reads cells
  {
    if cells == [] then []
    else
      var init := Chosen(cells[..|cells| - 1], keep);
      if keep(cells[|cells| - 1].record) then init + [cells[|cells| - 1]] else init
  }

  lemma {:induction false} ChosenConcat(a: seq<Schedule>, b: seq<Schedule>, keep: Record -> bool)
    ensures Chosen(a + b, keep) == Chosen(a, keep) + Chosen(b, keep)
    decreases |b|
  {
    if b == [] {
      assert a + b == a;
    } else {
      var n := |b| - 1;
      assert (a + b)[..|a| + n] == a + b[..n];
      ChosenConcat(a, b[..n], keep);
    }
  }

  lemma {:induction false} ChosenAll(cells: seq<Schedule>, keep: Record -> bool)
    requires forall c :: c in cells ==> keep(c.record)
    ensures Chosen(cells, keep) == cells
  {
    if cells != [] {
      ChosenAll(cells[..|cells| - 1], keep);
    }
  }

  /** Picked from the list at increasing places: in list order, none twice. */
  ghost predicate InListOrder(picked: seq<Schedule>, all: seq<Schedule>, places: seq<nat>) {
    && |places| == |picked|
    && (forall i, j :: 0 <= i < j < |places| ==> places[i] < places[j])
    && (forall i :: 0 <= i < |places| ==> places[i] < |all| && picked[i] == all[places[i]])
  }

  lemma {:induction false} ChosenPlaces(cells: seq<Schedule>, keep: Record -> bool) returns (places: seq<nat>)
    ensures InListOrder(Chosen(cells, keep), cells, places)
  {
    if cells == [] {
      places := [];
    } else {
      var n := |cells| - 1;
      places := ChosenPlaces(cells[..n], keep);
      if keep(cells[n].record) {
        places := places + [n];
      }
    }
  }

  lemma {:induction false} ChosenIsSub(cells: seq<Schedule>, keep: Record -> bool)
    ensures forall c :: c in Chosen(cells, keep) <==> c in cells && keep(c.record)
    ensures DistinctCells(cells) ==> DistinctCells(Chosen(cells, keep))
  {
    if cells != [] {
      var n := |cells| - 1;
      ChosenIsSub(cells[..n], keep);
      assert forall c :: c in cells <==> c in cells[..n] || c == cells[n];
    }
  }

  ghost predicate DistinctCells(cells: seq<Schedule>) {
    forall i, j :: 0 <= i < j < |cells| ==> cells[i] != cells[j]
  }

  ghost predicate UniqueNames(cells: seq<Schedule>)
    reads cells
  {
    forall i, j :: 0 <= i < j < |cells| ==> cells[i].record.name != cells[j].record.name
  }

  lemma OneDropped(cells: seq<Schedule>, i: nat, keep: Record -> bool)
    requires i < |cells| && !keep(cells[i].record)
    requires forall j :: 0 <= j < |cells| && j != i ==> keep(cells[j].record)
    ensures Chosen(cells, keep) == cells[..i] + cells[i + 1..]
  {
    assert cells[..i + 1][..i] == cells[..i];
    assert cells == cells[..i + 1] + cells[i + 1..];
    ChosenConcat(cells[..i + 1], cells[i + 1..], keep);
    ChosenAll(cells[..i], keep);
    ChosenAll(cells[i + 1..], keep);
  }

  class Scheduler {
    var schedules: seq<Schedule>
    const cron: Cron

    constructor (cron: Cron)
      ensures this.cron == cron && schedules == [] && UniqueNames(schedules)
    {
      this.cron := cron;
      schedules := [];
    }

    /** A failed flush is reported, but the new schedule stays in memory and will fire. */
    method Create(name: string, expr: string, prompt: string, replyTo: string, allowWrites: bool,
                  now: int, fault: Fault) returns (ok: bool)
      requires UniqueNames(schedules)
      modifies this
      ensures UniqueNames(schedules)
      ensures var added := cron.valid(expr) && forall s :: s in old(schedules) ==> s.record.name != name;
        && (ok <==> added && WriteOutcome(fault) == Done)
        && (!added ==> schedules == old(schedules))
        && (added ==>
              && |schedules| == |old(schedules)| + 1
              && schedules[..|schedules| - 1] == old(schedules)
              && fresh(schedules[|schedules| - 1])
              && schedules[|schedules| - 1].record == Record(name, expr, prompt, replyTo, allowWrites, now, None))
    {
      if !cron.valid(expr) { return false; }
      for i := 0 to |schedules|
        invariant forall j :: 0 <= j < i ==> schedules[j].record.name != name
      {
        if schedules[i].record.name == name { return false; }
      }
      var cell := new Schedule(Record(name, expr, prompt, replyTo, allowWrites, now, None));
      schedules := schedules + [cell];
      return WriteOutcome(fault) == Done;
    }

    method Remove(name: string, fault: Fault) returns (ok: bool)
      requires UniqueNames(schedules)
      modifies this
      ensures UniqueNames(schedules)
      ensures schedules == old(Chosen(schedules, (r: Record) => r.name != name))
      ensures forall s :: s in schedules <==> s in old(schedules) && s.record.name != name
      ensures exists places :: InListOrder(schedules, old(schedules), places)
      ensures ok <==> (exists s :: s in old(schedules) && s.record.name == name) && WriteOutcome(fault) == Done
    {
      ChosenIsSub(schedules, (r: Record) => r.name != name);
      ghost var places := ChosenPlaces(schedules, (r: Record) => r.name != name);
      for i := 0 to |schedules|
        invariant forall j :: 0 <= j < i ==> schedules[j].record.name != name
      {
        if schedules[i].record.name == name {
          OneDropped(schedules, i, (r: Record) => r.name != name);
          schedules := schedules[..i] + schedules[i + 1..];
          return WriteOutcome(fault) == Done;
        }
      }
      ChosenAll(schedules, (r: Record) => r.name != name);
      return false;
    }

    /** The schedules a tick fires, in list order. */
    method SelectTick(now: int) returns (toFire: seq<Schedule>)
      ensures toFire == Chosen(schedules, r => Due(cron, r, now))
      ensures cron.Lawful() ==> forall s :: s in toFire <==>
        && s in schedules
        && cron.valid(s.record.expr)
        && exists o :: cron.Occurrence(s.record.expr, o)
             && (match s.record.lastFiredAt case Some(last) => last < o case None => s.record.createdAt < o) && o <= now
      ensures exists places :: InListOrder(toFire, schedules, places)
    {
      toFire := [];
      for i := 0 to |schedules|
        invariant toFire == Chosen(schedules[..i], r => Due(cron, r, now))
      {
        assert schedules[..i + 1][..i] == schedules[..i];
        var r := schedules[i].record;
        if !cron.valid(r.expr) { continue; }
        var ref := if r.lastFiredAt.Some? then r.lastFiredAt.value else r.createdAt;
        if cron.next(r.expr, ref) <= now {
          toFire := toFire + [schedules[i]];
        }
      }
      assert schedules[..|schedules|] == schedules;
      ChosenIsSub(schedules, r => Due(cron, r, now));
      ghost var places := ChosenPlaces(schedules, r => Due(cron, r, now));
      if cron.Lawful() {
        forall s | s in schedules { DueIff(cron, s.record, now); }
      }
    }

    /** The schedules a start-up catch-up fires, in list order. */
    method SelectCatchUp(now: int) returns (toFire: seq<Schedule>)
      ensures toFire == Chosen(schedules, r => MissedRecently(cron, r, now))
      ensures cron.Lawful() ==> forall s :: s in toFire <==>
        && s in schedules
        && s.record.lastFiredAt.Some? && cron.valid(s.record.expr)
        && exists o, o' ::
             && cron.Occurrence(s.record.expr, o) && cron.Occurrence(s.record.expr, o') && s.record.lastFiredAt.value < o < o'
             && (forall x :: s.record.lastFiredAt.value < x < o' && x != o ==> !cron.Occurrence(s.record.expr, x))
             && o < now && now - o <= 2 * (o' - o)
      ensures exists places :: InListOrder(toFire, schedules, places)
    {
      toFire := [];
      for i := 0 to |schedules|
        invariant toFire == Chosen(schedules[..i], r => MissedRecently(cron, r, now))
      {
        assert schedules[..i + 1][..i] == schedules[..i];
        var r := schedules[i].record;
        if r.lastFiredAt == None { continue; }
        if !cron.valid(r.expr) { continue; }
        var nextAfterLast := cron.next(r.expr, r.lastFiredAt.value);
        if nextAfterLast < now {
          var interval := cron.next(r.expr, nextAfterLast) - nextAfterLast;
          var missedBy := now - nextAfterLast;
          if missedBy <= 2 * interval {
            toFire := toFire + [schedules[i]];
          }
        }
      }
      assert schedules[..|schedules|] == schedules;
      ChosenIsSub(schedules, r => MissedRecently(cron, r, now));
      ghost var places := ChosenPlaces(schedules, r => MissedRecently(cron, r, now));
      if cron.Lawful() {
        forall s | s in schedules { MissedIff(cron, s.record, now); }
      }
    }

    /** Only a successful submission moves the reference time. */
    method Fire(s: Schedule, submitted: bool, now: int)
      modifies s
      ensures s.record == if submitted then old(s.record).(lastFiredAt := Some(now)) else old(s.record)
    {
      if !submitted { return; }
      s.record := s.record.(lastFiredAt := Some(now));
    }

    /** One after the other; `submitted` and `times` are what the queue answered and when that was recorded. */
    method FireAll(toFire: seq<Schedule>, submitted: seq<bool>, times: seq<int>)
      requires DistinctCells(toFire) && |submitted| == |times| == |toFire|
      modifies toFire
      ensures forall k :: 0 <= k < |toFire| ==>
        toFire[k].record == if submitted[k] then old(toFire[k].record).(lastFiredAt := Some(times[k])) else old(toFire[k].record)
    {
      for i := 0 to |toFire|
        invariant forall k :: 0 <= k < i ==>
          toFire[k].record == if submitted[k] then old(toFire[k].record).(lastFiredAt := Some(times[k])) else old(toFire[k].record)
        invariant forall k :: i <= k < |toFire| ==> toFire[k].record == old(toFire[k].record)
      {
        Fire(toFire[i], submitted[i], times[i]);
      }
    }

    /** Fires what is due and nothing else; what the list holds besides is not touched. */
    method Tick(now: int, submitted: int -> bool, times: int -> int) returns (fired: seq<Schedule>)
      requires DistinctCells(schedules)
      modifies schedules
      ensures fired == old(Chosen(schedules, r => Due(cron, r, now)))
      ensures cron.Lawful() ==> forall s :: s in schedules ==>
        var r := old(s.record);
        (s in fired <==>
          && cron.valid(r.expr)
          && exists o :: cron.Occurrence(r.expr, o)
               && (match r.lastFiredAt case Some(last) => last < o case None => r.createdAt < o) && o <= now)
      ensures forall k :: 0 <= k < |fired| ==> fired[k] in schedules
      ensures forall k :: 0 <= k < |fired| ==>
        fired[k].record == if submitted(k) then old(fired[k].record).(lastFiredAt := Some(times(k))) else old(fired[k].record)
      ensures forall s :: s in schedules && s !in fired ==> s.record == old(s.record)
    {
      fired := SelectTick(now);
      ChosenIsSub(schedules, r => Due(cron, r, now));
      assert forall k :: 0 <= k < |fired| ==> fired[k] in fired && fired[k] in schedules;
      var oks, ats := seq(|fired|, k => submitted(k)), seq(|fired|, k => times(k));
      FireAll(fired, oks, ats);
      assert forall k :: 0 <= k < |fired| ==> oks[k] == submitted(k) && ats[k] == times(k);
    }

    method CatchUp(now: int, submitted: int -> bool, times: int -> int) returns (fired: seq<Schedule>)
      requires DistinctCells(schedules)
      modifies schedules
      ensures fired == old(Chosen(schedules, r => MissedRecently(cron, r, now)))
      ensures cron.Lawful() ==> forall s :: s in schedules ==>
        var r := old(s.record);
        (s in fired <==>
          && r.lastFiredAt.Some? && cron.valid(r.expr)
          && exists o, o' ::
               && cron.Occurrence(r.expr, o) && cron.Occurrence(r.expr, o') && r.lastFiredAt.value < o < o'
               && (forall x :: r.lastFiredAt.value < x < o' && x != o ==> !cron.Occurrence(r.expr, x))
               && o < now && now - o <= 2 * (o' - o))
      ensures forall k :: 0 <= k < |fired| ==> fired[k] in schedules
      ensures forall k :: 0 <= k < |fired| ==>
        fired[k].record == if submitted(k) then old(fired[k].record).(lastFiredAt := Some(times(k))) else old(fired[k].record)
      ensures forall s :: s in schedules && s !in fired ==> s.record == old(s.record)
    {
      fired := SelectCatchUp(now);
      ChosenIsSub(schedules, r => MissedRecently(cron, r, now));
      assert forall k :: 0 <= k < |fired| ==> fired[k] in fired && fired[k] in schedules;
      var oks, ats := seq(|fired|, k => submitted(k)), seq(|fired|, k => times(k));
      FireAll(fired, oks, ats);
      assert forall k :: 0 <= k < |fired| ==> oks[k] == submitted(k) && ats[k] == times(k);
    }
  }
}
