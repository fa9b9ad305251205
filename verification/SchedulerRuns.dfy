/**
  Runs of the scheduler: schedules come and go at any time while the one firing
  goroutine ticks, submits and records. Handles stand for schedule objects, so a
  removed schedule that was already chosen still fires.
 */
module SchedulerRuns {
  import opened Basics
  import opened Scheduler
  import opened Sequences

  datatype Runner = Idle | Launching(todo: seq<nat>) | Submitted(handle: nat, todo: seq<nat>)

  /** A successful firing: whose, the reference time it was chosen by, and when it was recorded. */
  datatype Firing = Firing(handle: nat, reference: int, at: int)

  /** `born` remembers each schedule's reference time when it was loaded or created. */
  datatype State = State(
    listed: seq<nat>, records: map<nat, Record>, clock: int, runner: Runner,
    born: map<nat, int>, firings: seq<Firing>)

  datatype Action =
    | Pass(seconds: nat)
    | Create(handle: nat, record: Record)
    | Remove(name: string)
    | Tick
    | CatchUp
    | Submit(ok: bool)
    | Note

  ghost predicate Enabled(cron: Cron, s: State, a: Action) {
    match a
    case Pass(_) => true
    case Create(h, r) =>
      && h !in s.records && cron.valid(r.expr) && r.createdAt == s.clock && r.lastFiredAt == None
      && forall x :: x in s.listed ==> x in s.records && s.records[x].name != r.name
    case Remove(_) => true
    case Tick => s.runner.Idle?
    case CatchUp => s.runner.Idle?
    case Submit(_) => s.runner.Launching? && s.runner.todo != []
    case Note => s.runner.Submitted?
  }

  function Pick(handles: seq<nat>, records: map<nat, Record>, keep: Record -> bool): seq<nat> {
    if handles == [] then []
    else
      var h := handles[|handles| - 1];
      var init := Pick(handles[..|handles| - 1], records, keep);
      if h in records && keep(records[h]) then init + [h] else init
  }

  ghost function Step(cron: Cron, s: State, a: Action): State {
    if !Enabled(cron, s, a) then s
    else match a
      case Pass(seconds) => s.(clock := s.clock + seconds)
      case Create(h, r) => s.(listed := s.listed + [h], records := s.records[h := r], born := s.born[h := r.createdAt])
      case Remove(name) => s.(listed := Pick(s.listed, s.records, (r: Record) => r.name != name))
      case Tick => Chose(s, Pick(s.listed, s.records, r => Due(cron, r, s.clock)))
      case CatchUp => Chose(s, Pick(s.listed, s.records, r => MissedRecently(cron, r, s.clock)))
      case Submit(ok) =>
        var h, rest := s.runner.todo[0], s.runner.todo[1..];
        if ok && h in s.records then s.(runner := Submitted(h, rest)) else Chose(s, rest)
      case Note =>
        var h := s.runner.handle;
        if h !in s.records then s
        else
          var r := s.records[h];
          Chose(s, s.runner.todo).(records := s.records[h := r.Fired(s.clock)],
                                   firings := s.firings + [Firing(h, r.Reference(), s.clock)])
  }

  function Chose(s: State, todo: seq<nat>): State {
    s.(runner := if todo == [] then Idle else Launching(todo))
  }

  ghost function Run(cron: Cron, s: State, actions: seq<Action>): State {
    if actions == [] then s else Step(cron, Run(cron, s, actions[..|actions| - 1]), actions[|actions| - 1])
  }

  ghost predicate Listed(s: State) {
    && Distinct(s.listed)
    && (forall h :: h in s.listed ==> h in s.records)
    && NamesDiffer(s.listed, s.records)
  }

  /** A loaded file, nothing fired yet; the last firings it records lie in the past. */
  ghost predicate Initial(s: State) {
    && Listed(s) && s.runner == Idle && s.firings == []
    && s.born.Keys == s.records.Keys
    && forall h :: h in s.records ==> s.born[h] == s.records[h].Reference() <= s.clock
  }

  // ---------- invariant ----------

  function Waiting(runner: Runner): seq<nat> {
    match runner
    case Idle => []
    case Launching(todo) => todo
    case Submitted(h, todo) => [h] + todo
  }

  /** The chosen schedules are distinct and still due: nothing fires them in between. */
  ghost predicate WaitingOk(cron: Cron, s: State) {
    && Distinct(Waiting(s.runner))
    && forall h :: h in Waiting(s.runner) ==> h in s.records && Due(cron, s.records[h], s.clock)
  }

  /** Firing `i` of a schedule was chosen by an occurrence after its reference and not after its recording. */
  ghost predicate FiringOk(cron: Cron, s: State, f: Firing) {
    && f.handle in s.records && f.handle in s.born && s.born[f.handle] <= f.reference
    && cron.next(s.records[f.handle].expr, f.reference) <= f.at
    && f.at <= s.records[f.handle].Reference()
  }

  ghost predicate BornOk(s: State) {
    forall h :: h in s.records ==> h in s.born && s.born[h] <= s.records[h].Reference() <= s.clock
  }

  ghost predicate FiringsOk(cron: Cron, s: State) {
    && (forall i :: 0 <= i < |s.firings| ==> FiringOk(cron, s, s.firings[i]))
    && (forall i, j :: 0 <= i < j < |s.firings| && s.firings[i].handle == s.firings[j].handle ==>
          s.firings[i].at <= s.firings[j].reference)
  }

  ghost predicate Inv(cron: Cron, s: State) {
    Listed(s) && WaitingOk(cron, s) && BornOk(s) && FiringsOk(cron, s)
  }

  lemma {:induction false} PickIsSub(handles: seq<nat>, records: map<nat, Record>, keep: Record -> bool)
    ensures forall h :: h in Pick(handles, records, keep) <==> h in handles && h in records && keep(records[h])
    ensures Distinct(handles) ==> Distinct(Pick(handles, records, keep))
  {
    if handles != [] {
      var n := |handles| - 1;
      PickIsSub(handles[..n], records, keep);
      assert forall h :: h in handles <==> h in handles[..n] || h == handles[n];
      if Distinct(handles) {
        assert Distinct(handles[..n]);
        assert handles[n] !in handles[..n];
      }
    }
  }

  ghost predicate NamesDiffer(handles: seq<nat>, records: map<nat, Record>) {
    forall i, j :: 0 <= i < j < |handles| && handles[i] in records && handles[j] in records ==>
      records[handles[i]].name != records[handles[j]].name
  }

  lemma {:induction false} PickKeepsNames(handles: seq<nat>, records: map<nat, Record>, keep: Record -> bool)
    requires NamesDiffer(handles, records)
    ensures NamesDiffer(Pick(handles, records, keep), records)
  {
    if handles != [] {
      var n := |handles| - 1;
      assert NamesDiffer(handles[..n], records);
      PickKeepsNames(handles[..n], records, keep);
      PickIsSub(handles[..n], records, keep);
      var init := Pick(handles[..n], records, keep);
      forall i | 0 <= i < |init| && handles[n] in records && init[i] in records
        ensures records[init[i]].name != records[handles[n]].name
      {
        assert init[i] in handles[..n];
        var k :| 0 <= k < n && handles[k] == init[i];
      }
    }
  }

  lemma ChooseKeepsInv(cron: Cron, s: State, keep: Record -> bool)
    requires Inv(cron, s)
    requires forall h :: h in s.records && keep(s.records[h]) ==> Due(cron, s.records[h], s.clock)
    ensures Inv(cron, Chose(s, Pick(s.listed, s.records, keep)))
  {
    PickIsSub(s.listed, s.records, keep);
  }

  lemma NoteKeepsWaiting(cron: Cron, s: State)
    requires WaitingOk(cron, s) && s.runner.Submitted?
    ensures WaitingOk(cron, Step(cron, s, Note))
  {
    var h, todo := s.runner.handle, s.runner.todo;
    assert Waiting(s.runner) == [h] + todo && Waiting(s.runner)[0] == h;
    assert forall i :: 0 <= i < |todo| ==> todo[i] == Waiting(s.runner)[i + 1];
    forall x | x in todo ensures x in Waiting(s.runner) && x != h {
      var i :| 0 <= i < |todo| && todo[i] == x;
    }
  }

  lemma NoteKeepsListed(cron: Cron, s: State)
    requires Listed(s) && BornOk(s) && s.runner.Submitted?
    ensures Listed(Step(cron, s, Note)) && BornOk(Step(cron, s, Note))
  {
  }

  lemma NoteKeepsFirings(cron: Cron, s: State)
    requires cron.Lawful() && WaitingOk(cron, s) && BornOk(s) && FiringsOk(cron, s) && s.runner.Submitted?
    ensures FiringsOk(cron, Step(cron, s, Note))
  {
    hide Distinct;
    var s' := Step(cron, s, Note);
    assert s.runner.handle in Waiting(s.runner);
    forall i | 0 <= i < |s'.firings| ensures FiringOk(cron, s', s'.firings[i]) {
      if i < |s.firings| { assert FiringOk(cron, s, s.firings[i]); }
    }
    forall i, j | 0 <= i < j < |s'.firings| && s'.firings[i].handle == s'.firings[j].handle
      ensures s'.firings[i].at <= s'.firings[j].reference
    {
      assert FiringOk(cron, s, s.firings[i]);
    }
  }

  lemma NoteKeepsInv(cron: Cron, s: State)
    requires cron.Lawful() && Inv(cron, s) && s.runner.Submitted?
    ensures Inv(cron, Step(cron, s, Note))
  {
    hide Listed, WaitingOk, BornOk, FiringsOk, Step;
    NoteKeepsListed(cron, s);
    NoteKeepsWaiting(cron, s);
    NoteKeepsFirings(cron, s);
  }

  lemma SubmitKeepsInv(cron: Cron, s: State, ok: bool)
    requires Inv(cron, s) && s.runner.Launching? && s.runner.todo != []
    ensures Inv(cron, Step(cron, s, Submit(ok)))
  {
    var s' := Step(cron, s, Submit(ok));
    assert s.runner.todo == [s.runner.todo[0]] + s.runner.todo[1..];
    assert forall h :: h in Waiting(s'.runner) ==> h in Waiting(s.runner);
    forall i | 0 <= i < |s'.firings| ensures FiringOk(cron, s', s'.firings[i]) {
      assert FiringOk(cron, s, s.firings[i]);
    }
  }

  lemma StepKeepsInv(cron: Cron, s: State, a: Action)
    requires cron.Lawful() && Inv(cron, s)
    ensures Inv(cron, Step(cron, s, a))
  {
    if Enabled(cron, s, a) {
      match a
      case Tick => ChooseKeepsInv(cron, s, r => Due(cron, r, s.clock));
      case CatchUp => ChooseKeepsInv(cron, s, r => MissedRecently(cron, r, s.clock));
      case Note => NoteKeepsInv(cron, s);
      case Submit(ok) => SubmitKeepsInv(cron, s, ok);
      case Remove(name) => RemoveKeepsInv(cron, s, name);
      case Create(h, r) => CreateKeepsInv(cron, s, h, r);
      case Pass(_) =>
        forall i | 0 <= i < |s.firings| ensures FiringOk(cron, Step(cron, s, a), s.firings[i]) {
          assert FiringOk(cron, s, s.firings[i]);
        }
    }
  }

  lemma RemoveKeepsInv(cron: Cron, s: State, name: string)
    requires Inv(cron, s)
    ensures Inv(cron, Step(cron, s, Remove(name)))
  {
    var s' := Step(cron, s, Remove(name));
    PickIsSub(s.listed, s.records, (r: Record) => r.name != name);
    PickKeepsNames(s.listed, s.records, (r: Record) => r.name != name);
    forall i | 0 <= i < |s.firings| ensures FiringOk(cron, s', s.firings[i]) {
      assert FiringOk(cron, s, s.firings[i]);
    }
  }

  lemma CreateKeepsInv(cron: Cron, s: State, h: nat, r: Record)
    requires Inv(cron, s) && Enabled(cron, s, Create(h, r))
    ensures Inv(cron, Step(cron, s, Create(h, r)))
  {
    var s' := Step(cron, s, Create(h, r));
    forall i | 0 <= i < |s.firings| ensures FiringOk(cron, s', s.firings[i]) {
      assert FiringOk(cron, s, s.firings[i]);
    }
  }

  lemma {:induction false} RunKeepsInv(cron: Cron, s: State, actions: seq<Action>)
    requires cron.Lawful() && Initial(s)
    ensures Inv(cron, Run(cron, s, actions))
  {
    if actions != [] {
      RunKeepsInv(cron, s, actions[..|actions| - 1]);
      StepKeepsInv(cron, Run(cron, s, actions[..|actions| - 1]), actions[|actions| - 1]);
    }
  }

  lemma {:induction false} NamesStayUnique(cron: Cron, s: State, actions: seq<Action>)
    requires cron.Lawful() && Initial(s)
    ensures var r := Run(cron, s, actions);
      forall i, j :: 0 <= i < j < |r.listed| ==>
        && r.listed[i] in r.records && r.listed[j] in r.records
        && r.records[r.listed[i]].name != r.records[r.listed[j]].name
  {
    RunKeepsInv(cron, s, actions);
  }

  /** The cron occurrence a firing answers: the first one after its reference time. */
  ghost function Answers(cron: Cron, s: State, f: Firing): int
    requires f.handle in s.records
  {
    cron.next(s.records[f.handle].expr, f.reference)
  }

  /**
    Over every run, firings map one-to-one to cron occurrences: each answers an
    occurrence after the schedule's first reference time and not in the future, and
    later firings of the same schedule answer strictly later ones. Occurrences
    missed in between collapse: the next answer lies after the previous recording.
   */
  lemma {:induction false} FiringsAnswerDistinctOccurrences(cron: Cron, s: State, actions: seq<Action>)
    requires cron.Lawful() && Initial(s)
    ensures var r := Run(cron, s, actions);
      && (forall i :: 0 <= i < |r.firings| ==>
            var f := r.firings[i];
            && f.handle in r.records && f.handle in r.born
            && cron.Occurrence(r.records[f.handle].expr, Answers(cron, r, f))
            && r.born[f.handle] < Answers(cron, r, f) <= f.at <= r.clock)
      && (forall i, j :: 0 <= i < j < |r.firings| && r.firings[i].handle == r.firings[j].handle ==>
            && r.firings[i].handle in r.records
            && Answers(cron, r, r.firings[i]) <= r.firings[i].at < Answers(cron, r, r.firings[j]))
  {
    RunKeepsInv(cron, s, actions);
    var r := Run(cron, s, actions);
    forall i | 0 <= i < |r.firings|
      ensures var f := r.firings[i];
        && f.handle in r.records && f.handle in r.born
        && cron.Occurrence(r.records[f.handle].expr, Answers(cron, r, f))
        && r.born[f.handle] <= f.reference < Answers(cron, r, f) <= f.at <= r.clock
    {
      var f := r.firings[i];
      assert FiringOk(cron, r, f);
      NextIsOccurrence(cron, r.records[f.handle].expr, f.reference);
    }
  }

  // ---------- the scheduler's methods are these steps ----------

  /** Objects and handles: the schedule object each handle stands for holds the record it has here. */
  ghost predicate Mirrors(objects: map<nat, Schedule>, handles: seq<nat>, records: map<nat, Record>)
    reads objects.Values
  {
    forall i :: 0 <= i < |handles| ==>
      handles[i] in objects && handles[i] in records && objects[handles[i]].record == records[handles[i]]
  }

  ghost function Of(objects: map<nat, Schedule>, handles: seq<nat>): seq<Schedule>
    requires forall i :: 0 <= i < |handles| ==> handles[i] in objects
  {
    seq(|handles|, i requires 0 <= i < |handles| => objects[handles[i]])
  }

  /** What a tick, a catch-up or a removal picks here is what the scheduler's methods choose, in the same order. */
  lemma {:induction false} PickIsChosen(objects: map<nat, Schedule>, handles: seq<nat>, records: map<nat, Record>,
                                        keep: Record -> bool)
    requires Mirrors(objects, handles, records)
    ensures Mirrors(objects, Pick(handles, records, keep), records)
    ensures Of(objects, Pick(handles, records, keep)) == Chosen(Of(objects, handles), keep)
  {
    if handles != [] {
      var n := |handles| - 1;
      PickIsChosen(objects, handles[..n], records, keep);
      assert Of(objects, handles)[..n] == Of(objects, handles[..n]);
    }
  }

  /** When the `k`-th of the schedules to fire is recorded, each submission having taken its time. */
  function RecordedAt(clock: int, waits: seq<nat>, k: nat): int
    requires k < |waits|
    decreases k
  {
    if k == 0 then clock + waits[0] else RecordedAt(clock + waits[0], waits[1..], k - 1)
  }

  /** What was submitted carries the time it was recorded; everything else is as before. */
  ghost predicate FiredAs(before: map<nat, Record>, after: map<nat, Record>, clock: int,
                          todo: seq<nat>, submitted: seq<bool>, waits: seq<nat>)
    requires |todo| == |submitted| == |waits|
  {
    && after.Keys == before.Keys
    && (forall k :: 0 <= k < |todo| && todo[k] in before ==>
          after[todo[k]] == if submitted[k] then before[todo[k]].Fired(RecordedAt(clock, waits, k)) else before[todo[k]])
    && (forall h :: h in before && h !in todo ==> after[h] == before[h])
  }

  lemma FiredFirst(before: map<nat, Record>, between: map<nat, Record>, after: map<nat, Record>, clock: int,
                   todo: seq<nat>, submitted: seq<bool>, waits: seq<nat>)
    requires todo != [] && |todo| == |submitted| == |waits| && Distinct(todo) && todo[0] in before
    requires between == if submitted[0] then before[todo[0] := before[todo[0]].Fired(clock + waits[0])] else before
    requires FiredAs(between, after, clock + waits[0], todo[1..], submitted[1..], waits[1..])
    ensures FiredAs(before, after, clock, todo, submitted, waits)
  {
    var rest := todo[1..];
    assert todo == [todo[0]] + rest;
    assert todo[0] !in rest;
    forall k | 0 <= k < |todo| && todo[k] in before
      ensures after[todo[k]] == if submitted[k] then before[todo[k]].Fired(RecordedAt(clock, waits, k)) else before[todo[k]]
    {
      if k > 0 {
        assert rest[k - 1] == todo[k] && todo[k] != todo[0];
      }
    }
  }

  ghost function FireSteps(submitted: seq<bool>, waits: seq<nat>): seq<Action>
    requires |submitted| == |waits|
  {
    if waits == [] then []
    else [Pass(waits[0]), Submit(submitted[0]), Note] + FireSteps(submitted[1..], waits[1..])
  }

  lemma {:induction false} RunConcat(cron: Cron, s: State, a: seq<Action>, b: seq<Action>)
    ensures Run(cron, s, a + b) == Run(cron, Run(cron, s, a), b)
    decreases |b|
  {
    hide Step;
    if b == [] {
      assert a + b == a;
    } else {
      var n := |b| - 1;
      assert (a + b)[..|a| + n] == a + b[..n];
      RunConcat(cron, s, a, b[..n]);
    }
  }

  lemma FireOne(cron: Cron, s: State, ok: bool, wait: nat)
    requires s.runner.Launching? && s.runner.todo != [] && s.runner.todo[0] in s.records
    ensures var r := Run(cron, s, [Pass(wait), Submit(ok), Note]);
      var h := s.runner.todo[0];
      && r.listed == s.listed && r.clock == s.clock + wait && r.runner == Chose(s, s.runner.todo[1..]).runner
      && r.records == if ok then s.records[h := s.records[h].Fired(s.clock + wait)] else s.records
  {
    var passed := s.(clock := s.clock + wait);
    assert Run(cron, s, []) == s;
    assert Run(cron, s, [Pass(wait)]) == passed;
    assert [Pass(wait), Submit(ok)][..1] == [Pass(wait)];
    assert [Pass(wait), Submit(ok), Note][..2] == [Pass(wait), Submit(ok)];
    assert !ok ==> s.records[s.runner.todo[0] := s.records[s.runner.todo[0]]] == s.records;
  }

  /** Firing everything chosen, one after the other, does to the records what the scheduler's method does to its objects. */
  lemma {:induction false} FireAllIsItsSteps(cron: Cron, s: State, todo: seq<nat>, submitted: seq<bool>, waits: seq<nat>)
    requires s.runner == Chose(s, todo).runner && Distinct(todo) && |todo| == |submitted| == |waits|
    requires forall h :: h in todo ==> h in s.records
    ensures var r := Run(cron, s, FireSteps(submitted, waits));
      r.runner == Idle && r.listed == s.listed && FiredAs(s.records, r.records, s.clock, todo, submitted, waits)
    decreases |todo|
  {
    hide Run, Step, FiredAs, RecordedAt, Distinct;
    if todo == [] {
      FireNothing(cron, s);
    } else {
      var first := [Pass(waits[0]), Submit(submitted[0]), Note];
      assert FireSteps(submitted, waits) == first + FireSteps(submitted[1..], waits[1..]);
      hide FireSteps;
      FireOne(cron, s, submitted[0], waits[0]);
      RunConcat(cron, s, first, FireSteps(submitted[1..], waits[1..]));
      var s' := Run(cron, s, first);
      DistinctTail(todo);
      FireAllIsItsSteps(cron, s', todo[1..], submitted[1..], waits[1..]);
      FiredFirst(s.records, s'.records, Run(cron, s, FireSteps(submitted, waits)).records, s.clock, todo, submitted, waits);
    }
  }

  lemma FireNothing(cron: Cron, s: State)
    ensures Run(cron, s, []) == s && FiredAs(s.records, s.records, s.clock, [], [], [])
  {
  }

  lemma DistinctTail(todo: seq<nat>)
    requires todo != [] && Distinct(todo)
    ensures Distinct(todo[1..])
    ensures forall h :: h in todo[1..] ==> h in todo && h != todo[0]
  {
    assert forall i :: 0 <= i < |todo| - 1 ==> todo[1..][i] == todo[i + 1];
  }

  lemma {:induction false} TickChooses(cron: Cron, s: State, submitted: seq<bool>, waits: seq<nat>)
    requires s.runner.Idle? && Listed(s)
    requires |submitted| == |waits| == |Pick(s.listed, s.records, r => Due(cron, r, s.clock))|
    ensures var todo := Pick(s.listed, s.records, r => Due(cron, r, s.clock));
      var r := Run(cron, s, [Tick] + FireSteps(submitted, waits));
      && r.runner == Idle && r.listed == s.listed
      && FiredAs(s.records, r.records, s.clock, todo, submitted, waits)
  {
    var keep: Record -> bool := r => Due(cron, r, s.clock);
    PickIsSub(s.listed, s.records, keep);
    assert [Tick][..0] == [];
    assert Run(cron, s, [Tick]) == Step(cron, s, Tick);
    RunConcat(cron, s, [Tick], FireSteps(submitted, waits));
    hide Run, FiredAs, FireSteps;
    FireAllIsItsSteps(cron, Step(cron, s, Tick), Pick(s.listed, s.records, keep), submitted, waits);
  }

  /** A tick: chosen are the objects the method fires, and their records end up as it leaves them. */
  lemma {:induction false} TickIsItsSteps(cron: Cron, s: State, objects: map<nat, Schedule>, submitted: seq<bool>, waits: seq<nat>)
    requires s.runner.Idle? && Listed(s) && Mirrors(objects, s.listed, s.records)
    requires |submitted| == |waits| == |Pick(s.listed, s.records, r => Due(cron, r, s.clock))|
    ensures var todo := Pick(s.listed, s.records, r => Due(cron, r, s.clock));
      var r := Run(cron, s, [Tick] + FireSteps(submitted, waits));
      && (forall i :: 0 <= i < |todo| ==> todo[i] in objects)
      && Of(objects, todo) == Chosen(Of(objects, s.listed), r => Due(cron, r, s.clock))
      && r.runner == Idle && r.listed == s.listed
      && FiredAs(s.records, r.records, s.clock, todo, submitted, waits)
  {
    var keep: Record -> bool := r => Due(cron, r, s.clock);
    PickIsChosen(objects, s.listed, s.records, keep);
    TickChooses(cron, s, submitted, waits);
  }

  /** The same for the catch-up after a start. */
  lemma {:induction false} CatchUpIsItsSteps(cron: Cron, s: State, objects: map<nat, Schedule>, submitted: seq<bool>, waits: seq<nat>)
    requires s.runner.Idle? && Listed(s) && Mirrors(objects, s.listed, s.records)
    requires |submitted| == |waits| == |Pick(s.listed, s.records, r => MissedRecently(cron, r, s.clock))|
    ensures var todo := Pick(s.listed, s.records, r => MissedRecently(cron, r, s.clock));
      var r := Run(cron, s, [CatchUp] + FireSteps(submitted, waits));
      && (forall i :: 0 <= i < |todo| ==> todo[i] in objects)
      && Of(objects, todo) == Chosen(Of(objects, s.listed), r => MissedRecently(cron, r, s.clock))
      && r.runner == Idle && r.listed == s.listed
      && FiredAs(s.records, r.records, s.clock, todo, submitted, waits)
  {
    var keep: Record -> bool := r => MissedRecently(cron, r, s.clock);
    PickIsChosen(objects, s.listed, s.records, keep);
    PickIsSub(s.listed, s.records, keep);
    assert [CatchUp][..0] == [];
    assert Run(cron, s, [CatchUp]) == Step(cron, s, CatchUp);
    RunConcat(cron, s, [CatchUp], FireSteps(submitted, waits));
    hide Run, FiredAs, FireSteps;
    FireAllIsItsSteps(cron, Step(cron, s, CatchUp), Pick(s.listed, s.records, keep), submitted, waits);
  }

  // ---------- nothing that is waiting is passed over ----------

  /** In every reachable state between rounds, a tick picks exactly the listed schedules with an unanswered occurrence. */
  lemma {:induction false} TickPicksWaiting(cron: Cron, s: State, actions: seq<Action>, h: nat)
    requires cron.Lawful() && Initial(s) && Run(cron, s, actions).runner.Idle?
    ensures var r := Run(cron, s, actions);
      h in Waiting(Step(cron, r, Tick).runner) <==>
        && h in r.listed && h in r.records && cron.valid(r.records[h].expr)
        && exists o :: cron.Occurrence(r.records[h].expr, o) && o <= r.clock
             && (match r.records[h].lastFiredAt case Some(last) => last < o case None => r.records[h].createdAt < o)
  {
    RunKeepsInv(cron, s, actions);
    var r := Run(cron, s, actions);
    PickIsSub(r.listed, r.records, x => Due(cron, x, r.clock));
    if h in r.records { DueIff(cron, r.records[h], r.clock); }
  }

  lemma {:induction false} RecordedLater(clock: int, waits: seq<nat>, k: nat)
    requires k < |waits|
    ensures RecordedAt(clock, waits, k) >= clock
    decreases k
  {
    if k > 0 { RecordedLater(clock + waits[0], waits[1..], k - 1); }
  }

  /** And when its submissions succeed, each of them has been fired by the time the tick is over. */
  lemma {:induction false} TickFiresWaiting(cron: Cron, s: State, actions: seq<Action>, submitted: seq<bool>, waits: seq<nat>,
                                            h: nat, o: int)
    requires cron.Lawful() && Initial(s) && Run(cron, s, actions).runner.Idle?
    requires var r := Run(cron, s, actions);
      && |submitted| == |waits| == |Pick(r.listed, r.records, x => Due(cron, x, r.clock))|
      && (forall k :: 0 <= k < |submitted| ==> submitted[k])
      && h in r.listed && h in r.records && cron.valid(r.records[h].expr)
      && cron.Occurrence(r.records[h].expr, o) && o <= r.clock
      && (match r.records[h].lastFiredAt case Some(last) => last < o case None => r.records[h].createdAt < o)
    ensures var r := Run(cron, s, actions);
      var r' := Run(cron, r, [Tick] + FireSteps(submitted, waits));
      h in r'.records && r'.records[h].lastFiredAt.Some? && r'.records[h].lastFiredAt.value >= r.clock
  {
    RunKeepsInv(cron, s, actions);
    var r := Run(cron, s, actions);
    var todo := Pick(r.listed, r.records, x => Due(cron, x, r.clock));
    TickChooses(cron, r, submitted, waits);
    PickIsSub(r.listed, r.records, x => Due(cron, x, r.clock));
    DueIff(cron, r.records[h], r.clock);
    hide Run, Step, FireSteps, Inv;
    var k :| 0 <= k < |todo| && todo[k] == h;
    RecordedLater(r.clock, waits, k);
  }

  // ---------- counting ----------

  ghost function Occurrences(cron: Cron, expr: string, after: int, upTo: int): set<int> {
    set t | after < t <= upTo && cron.Occurrence(expr, t)
  }

  function CountOf(firings: seq<Firing>, h: nat): nat {
    if firings == [] then 0
    else CountOf(firings[..|firings| - 1], h) + (if firings[|firings| - 1].handle == h then 1 else 0)
  }

  /** Strictly increasing answers in (after, upTo] are at most as many as there are occurrences there. */
  lemma {:induction false} CountFits(cron: Cron, s: State, firings: seq<Firing>, h: nat, after: int, upTo: int)
    requires h in s.records
    requires forall i :: 0 <= i < |firings| && firings[i].handle == h ==>
      && after < Answers(cron, s, firings[i]) <= upTo
      && cron.Occurrence(s.records[h].expr, Answers(cron, s, firings[i]))
    requires forall i, j :: 0 <= i < j < |firings| && firings[i].handle == h && firings[j].handle == h ==>
      Answers(cron, s, firings[i]) < Answers(cron, s, firings[j])
    ensures CountOf(firings, h) <= |Occurrences(cron, s.records[h].expr, after, upTo)|
    decreases |firings|
  {
    if firings != [] {
      var n := |firings| - 1;
      var init := firings[..n];
      if firings[n].handle == h {
        var x := Answers(cron, s, firings[n]);
        CountFits(cron, s, init, h, after, x - 1);
        var before := Occurrences(cron, s.records[h].expr, after, x - 1);
        SubsetSize(before + {x}, Occurrences(cron, s.records[h].expr, after, upTo));
      } else {
        CountFits(cron, s, init, h, after, upTo);
      }
    }
  }

  /** A schedule has fired at most once per cron occurrence since it was loaded or created. */
  lemma {:induction false} FiringsAreBounded(cron: Cron, s: State, actions: seq<Action>, h: nat)
    requires cron.Lawful() && Initial(s) && h in Run(cron, s, actions).records
    ensures var r := Run(cron, s, actions);
      && h in r.born
      && CountOf(r.firings, h) <= |Occurrences(cron, r.records[h].expr, r.born[h], r.clock)|
  {
    RunKeepsInv(cron, s, actions);
    FiringsAnswerDistinctOccurrences(cron, s, actions);
    var r := Run(cron, s, actions);
    CountFits(cron, r, r.firings, h, r.born[h], r.clock);
  }
}
