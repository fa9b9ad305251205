/** The steps of `WarmExclusivity` are what the methods of a warm slot do. */
module WarmSteps {
  import opened WarmExclusivity
  import W = WarmWorker
  import P = WarmProto

  function AsSlot(flags: W.Flags, a: Action): W.Flags {
    match a
    case Reserve(_) => flags.Reserved()
    case Release(_) => flags.Released()
    case Fail(_) => flags.Killed()
    case Stop => flags.Killed()
    case Respawn(now, started) => flags.Recorded(now).(ready := flags.Accepts(now) && started)
    case _ => flags
  }

  /** Each step does to the slot's fields what the method of its name does, and the rest leave them alone. */
  lemma StepIsSlot(s: State, a: Action)
    requires Enabled(s, a)
    ensures FlagsOf(Step(s, a)) == AsSlot(FlagsOf(s), a)
  {
  }

  /** A dispatch whose run failed: stop, respawn attempt and release are the slot's replacement and release. */
  lemma FailedRunIsItsSteps(s: State, d: nat, now: int, started: bool)
    requires Enabled(s, Fail(d))
    ensures FlagsOf(Step(Step(Step(s, Fail(d)), Respawn(now, started)), Release(d)))
         == FlagsOf(s).Replaced(now, started).Released()
  {
  }

  /** The lines a slot reads as messages are the child's lines here: a result line is an answer. */
  ghost predicate Prints(lines: seq<P.Line>, output: seq<Line>) {
    |lines| == |output| && forall i :: 0 <= i < |lines| ==> (P.Matches(lines[i], P.Result) <==> output[i].Answer?)
  }

  ghost function Reads(d: nat, n: nat): seq<Action> {
    seq(n, _ => Read(d))
  }

  lemma {:induction false} NoiseIsSkipped(s: State, d: nat, n: nat)
    requires d in s.holders && s.holders[d].Sent? && s.read + n <= |s.output|
    requires forall i :: s.read <= i < s.read + n ==> !s.output[i].Answer?
    ensures Run(s, Reads(d, n)) == s.(read := s.read + n)
  {
    if n > 0 {
      assert Reads(d, n)[..n - 1] == Reads(d, n - 1);
      NoiseIsSkipped(s, d, n - 1);
    }
  }

  lemma FirstAnswerIsRead(s: State, d: nat, k: nat)
    requires d in s.holders && s.holders[d].Sent? && s.read <= k < |s.output| && s.output[k].Answer?
    requires forall i :: s.read <= i < k ==> !s.output[i].Answer?
    ensures Run(s, Reads(d, k + 1 - s.read))
         == s.(read := k + 1, holders := s.holders[d := Received(s.holders[d].line, s.output[k].line)])
  {
    var n := k - s.read;
    assert Reads(d, n + 1)[..n] == Reads(d, n);
    NoiseIsSkipped(s, d, n);
  }

  /** The line on which a slot's run ends is the one its dispatch receives, and both stop right behind it. */
  lemma RunIsItsSteps(s: State, d: nat, lines: seq<P.Line>, k: nat)
    requires d in s.holders && s.holders[d].Sent? && Prints(lines, s.output)
    requires P.Reaches(lines, s.read, P.Result, k)
    ensures s.read <= k < |s.output| && s.output[k].Answer?
    ensures Run(s, Reads(d, k + 1 - s.read))
         == s.(read := k + 1, holders := s.holders[d := Received(s.holders[d].line, s.output[k].line)])
  {
    hide P.Stretch, P.Matches, Run, Step, Reads;
    forall i | s.read <= i < k ensures !s.output[i].Answer? {
      assert !P.Matches(lines[i], P.Result);
    }
    FirstAnswerIsRead(s, d, k);
  }
}
