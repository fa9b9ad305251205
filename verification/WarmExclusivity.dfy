/**
  One warm slot under every interleaving of dispatches, the child process, kills
  and respawns. Until a kill strikes while someone holds the slot, it serves one
  dispatch at a time and every dispatch gets the answer to its own line; from
  then on neither need hold.
 */
module WarmExclusivity {
  import opened Basics
  import opened RateLimit
  import W = WarmWorker

  /** What the child prints: the result for its n-th input line, or anything else. */
  datatype Line = Noise | Answer(line: nat)

  /** A dispatch that reserved the slot: nothing sent yet, waiting for its line's result, has one, or gave up. */
  datatype Stage = Held | Sent(line: nat) | Received(line: nat, answer: nat) | Failed

  datatype State = State(
    ready: bool, busy: bool, disabled: bool,
    input: nat, answered: nat, output: seq<Line>, read: nat,
    holders: map<nat, Stage>,
    lastRespawn: Option<int>, respawns: seq<int>,
    struck: bool) // history: a kill came while a dispatch held the slot

  datatype Action =
    | Reserve(dispatch: nat)
    | Send(dispatch: nat)
    | Print
    | Reply
    | Read(dispatch: nat)
    | Release(dispatch: nat)
    | Fail(dispatch: nat)   // the run fails: the dispatch stops the process
    | Stop                  // shutdown stops the process
    | Respawn(now: int, started: bool)

  ghost predicate Enabled(s: State, a: Action) {
    match a
    case Reserve(d) => d !in s.holders && s.ready && !s.busy && !s.disabled
    case Send(d) => d in s.holders && s.holders[d].Held? && s.ready
    case Print => true
    case Reply => s.answered < s.input
    case Read(d) => d in s.holders && s.holders[d].Sent? && s.read < |s.output|
    case Release(d) => d in s.holders && !s.holders[d].Sent?
    case Fail(d) => d in s.holders && !s.holders[d].Failed?
    case Stop => true
    case Respawn(_, _) => !s.ready
  }

  ghost function Step(s: State, a: Action): State {
    if !Enabled(s, a) then s
    else match a
      case Reserve(d) => s.(busy := true, holders := s.holders[d := Held])
      case Send(d) => s.(input := s.input + 1, holders := s.holders[d := Sent(s.input)])
      case Print => s.(output := s.output + [Noise])
      case Reply => s.(output := s.output + [Answer(s.answered)], answered := s.answered + 1)
      case Read(d) =>
        var s' := s.(read := s.read + 1);
        (match s.output[s.read]
         case Noise => s'
         case Answer(k) => s'.(holders := s.holders[d := Received(s.holders[d].line, k)]))
      case Release(d) => s.(busy := false, holders := s.holders - {d})
      case Fail(d) => s.(ready := false, busy := false, struck := true, holders := s.holders[d := Failed])
      case Stop => s.(ready := false, busy := false, struck := s.struck || s.holders != map[])
      case Respawn(now, started) =>
        if FlagsOf(s).Accepts(now) then
          (if started then Fresh(s) else s).(lastRespawn := Some(now), respawns := s.respawns + [now])
        else s.(disabled := true)
  }

  /** Just after the handshake: the identity line was written, answered and its answer read. */
  function Fresh(s: State): State {
    s.(ready := true, input := 1, answered := 1, output := [Answer(0)], read := 1)
  }

  function FlagsOf(s: State): W.Flags {
    W.Flags(s.ready, s.busy, s.disabled, s.lastRespawn)
  }

  ghost function Run(s: State, actions: seq<Action>): State {
    if actions == [] then s else Step(Run(s, actions[..|actions| - 1]), actions[|actions| - 1])
  }

  ghost predicate Initial(s: State) {
    && s == Fresh(s) && !s.busy && !s.struck && !s.disabled && s.holders == map[]
    && s.lastRespawn == None && s.respawns == []
  }

  function Answers(output: seq<Line>): nat {
    if output == [] then 0
    else Answers(output[..|output| - 1]) + (if output[|output| - 1].Answer? then 1 else 0)
  }

  /** The child answers its input lines in order, one result each. */
  ghost predicate InOrder(output: seq<Line>) {
    forall i :: 0 <= i < |output| && output[i].Answer? ==> output[i].line == Answers(output[..i])
  }

  predicate StageOk(stage: Stage, input: nat, consumed: nat) {
    match stage
    case Held => consumed == input
    case Sent(l) => l + 1 == input && consumed == l
    case Received(l, a) => a == l && consumed == input
    case Failed => false
  }

  ghost predicate StreamInv(s: State) {
    && s.read <= |s.output| && InOrder(s.output)
    && s.answered == Answers(s.output) && s.answered <= s.input
  }

  ghost predicate HolderInv(s: State, consumed: nat) {
    && (forall d, d' :: d in s.holders && d' in s.holders ==> d == d')
    && (s.busy <==> s.holders != map[])
    && (forall d :: d in s.holders ==> StageOk(s.holders[d], s.input, consumed))
    && (s.holders == map[] ==> consumed == s.input)
    && (!s.ready ==> s.holders == map[])
  }

  ghost predicate Inv(s: State) {
    StreamInv(s) && HolderInv(s, Answers(s.output[..s.read]))
  }

  lemma AppendAnswers(output: seq<Line>, line: Line)
    ensures Answers(output + [line]) == Answers(output) + if line.Answer? then 1 else 0
  {
    assert (output + [line])[..|output|] == output;
  }

  lemma {:induction false} AppendKeepsOrder(output: seq<Line>, line: Line)
    requires InOrder(output) && (line.Answer? ==> line.line == Answers(output))
    ensures InOrder(output + [line])
    ensures Answers(output + [line]) == Answers(output) + if line.Answer? then 1 else 0
    ensures forall n :: 0 <= n <= |output| ==> (output + [line])[..n] == output[..n]
  {
    hide Answers;
    AppendAnswers(output, line);
    var out := output + [line];
    assert out[..|output|] == output;
    forall i | 0 <= i < |out| && out[i].Answer? ensures out[i].line == Answers(out[..i]) {
      assert out[..i] == output[..i];
    }
  }

  lemma ReadAdvances(output: seq<Line>, n: nat)
    requires n < |output|
    ensures Answers(output[..n + 1]) == Answers(output[..n]) + if output[n].Answer? then 1 else 0
  {
    assert output[..n + 1][..n] == output[..n];
  }

  lemma ReadKeepsInv(s: State, d: nat)
    requires !s.struck && Inv(s) && Enabled(s, Read(d))
    ensures Inv(Step(s, Read(d)))
  {
    var s' := Step(s, Read(d));
    ReadAdvances(s.output, s.read);
    assert StageOk(s.holders[d], s.input, Answers(s.output[..s.read]));
    assert s'.output == s.output && s'.read == s.read + 1;
  }

  lemma FreshInv(s: State)
    requires s == Fresh(s) && !s.busy && s.holders == map[]
    ensures Inv(s)
  {
    assert s.output[..1] == [Answer(0)];
    assert [Answer(0)][..0] == [];
    assert Answers([Answer(0)]) == 1;
  }

  lemma StepKeepsInv(s: State, a: Action)
    requires !s.struck && Inv(s)
    ensures Step(s, a).struck || Inv(Step(s, a))
  {
    hide Answers, InOrder;
    if Enabled(s, a) {
      match a
      case Print => AppendKeepsOrder(s.output, Noise);
      case Reply => AppendKeepsOrder(s.output, Answer(s.answered));
      case Read(d) => ReadKeepsInv(s, d);
      case Release(d) => assert StageOk(s.holders[d], s.input, Answers(s.output[..s.read]));
      case Reserve(_) =>
      case Send(d) => assert StageOk(s.holders[d], s.input, Answers(s.output[..s.read]));
      case Respawn(now, started) => if FlagsOf(s).Accepts(now) && started { FreshInv(Step(s, a)); }
      case _ =>
    }
  }

  lemma StruckStays(s: State, a: Action)
    requires s.struck
    ensures Step(s, a).struck
  {
  }

  lemma {:induction false} RunKeepsInv(s: State, actions: seq<Action>)
    requires Initial(s)
    ensures Run(s, actions).struck || Inv(Run(s, actions))
  {
    hide Inv;
    if actions == [] {
      FreshInv(s);
    } else {
      hide Step;
      var r := Run(s, actions[..|actions| - 1]);
      RunKeepsInv(s, actions[..|actions| - 1]);
      if !r.struck {
        StepKeepsInv(r, actions[|actions| - 1]);
      } else {
        StruckStays(r, actions[|actions| - 1]);
      }
    }
  }

  /** As long as no kill struck a dispatch that held the slot: one request at a time, and its result is the one for its own line. */
  lemma {:induction false} ExclusiveUntilStruck(s: State, actions: seq<Action>)
    requires Initial(s) && !Run(s, actions).struck
    ensures var r := Run(s, actions);
      && (forall d, d' :: d in r.holders && d' in r.holders ==> d == d')
      && (r.busy <==> r.holders != map[])
      && (forall d :: d in r.holders && r.holders[d].Received? ==> r.holders[d].answer == r.holders[d].line)
  {
    RunKeepsInv(s, actions);
    var r := Run(s, actions);
    forall d | d in r.holders && r.holders[d].Received? ensures r.holders[d].answer == r.holders[d].line {
      assert StageOk(r.holders[d], r.input, Answers(r.output[..r.read]));
    }
  }

  ghost predicate Paced(s: State) {
    && Spaced(s.respawns, W.FLAP_WINDOW)
    && (if s.respawns == [] then s.lastRespawn == None else s.lastRespawn == Some(s.respawns[|s.respawns| - 1]))
  }

  lemma StepKeepsPace(s: State, a: Action)
    requires Paced(s)
    ensures Paced(Step(s, a))
  {
    if a.Respawn? && |Step(s, a).respawns| > |s.respawns| {
      assert Step(s, a).respawns == s.respawns + [a.now];
    } else {
      assert Step(s, a).respawns == s.respawns;
    }
  }

  /** Accepted respawns are a minute apart over every run, kills included. */
  lemma {:induction false} RespawnPace(s: State, actions: seq<Action>)
    requires Initial(s)
    ensures Paced(Run(s, actions))
  {
    if actions != [] {
      RespawnPace(s, actions[..|actions| - 1]);
      StepKeepsPace(Run(s, actions[..|actions| - 1]), actions[|actions| - 1]);
    }
  }

  lemma {:induction false} RespawnWindow(s: State, actions: seq<Action>, from: int, to: int)
    requires Initial(s) && from <= to
    ensures CountIn(Run(s, actions).respawns, from, to) <= (to - from) / W.FLAP_WINDOW + 1
  {
    RespawnPace(s, actions);
    WindowBound(Run(s, actions).respawns, W.FLAP_WINDOW, from, to);
  }

  lemma {:induction false} DisabledForGood(s: State, actions: seq<Action>)
    requires s.disabled
    ensures Run(s, actions).disabled
  {
    if actions != [] {
      DisabledForGood(s, actions[..|actions| - 1]);
    }
  }
}
