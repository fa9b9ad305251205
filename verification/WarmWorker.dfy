/** A warm worker slot and the pool's view of its slots. */
module WarmWorker {
  import opened Basics
  import opened RateLimit
  import P = WarmProto

  const FLAP_WINDOW: int := 60

  /** A spawned process: what was written to it, and what it prints. */
  class Child {
    var input: seq<string>
    const output: P.Scanner

    constructor (output: P.Scanner)
      ensures this.output == output && input == []
    {
      this.output, input := output, [];
    }

    method WriteUserMessage(text: string, fails: bool) returns (ok: bool)
      modifies this
      ensures ok == !fails
      ensures input == if fails then old(input) else old(input) + [text]
    {
      if !fails { input := input + [text]; }
      return !fails;
    }
  }

  /** From `from` on: the init message, then the first result after it, and `to` is right behind that. */
  ghost predicate Greeted(lines: seq<P.Line>, from: nat, to: nat) {
    exists k: nat :: P.Reaches(lines, from, P.Init, k) && P.Reaches(lines, k + 1, P.Result, to - 1)
  }

  /** The handshake the child's output allows: init, then a result that decodes. */
  ghost predicate Handshake(lines: seq<P.Line>, from: nat) {
    exists k: nat, j: int :: P.Reaches(lines, from, P.Init, k) && P.Reaches(lines, k + 1, P.Result, j)
      && lines[j].body.Some?
  }

  /** The answer waiting in the child's output: the first result line, if it decodes and is no error. */
  ghost predicate Answered(lines: seq<P.Line>, from: nat, r: string) {
    exists k :: P.Reaches(lines, from, P.Result, k)
      && lines[k].body.Some? && !lines[k].body.value.isError && lines[k].body.value.result == r
  }

  /** What the slot's mutex guards: common to the slot's fields and the state of its runs. */
  datatype Flags = Flags(ready: bool, busy: bool, disabled: bool, lastRespawn: Option<int>)
  {
    function Reserved(): Flags { if ready then this.(busy := true) else this }
    function Released(): Flags { this.(busy := false) }
    function Killed(): Flags { this.(ready := false, busy := false) }

    /** The last accepted respawn is at least a minute old. */
    predicate Accepts(now: int) { lastRespawn == None || now - lastRespawn.value >= FLAP_WINDOW }

    function Recorded(now: int): Flags {
      if Accepts(now) then this.(lastRespawn := Some(now)) else this.(disabled := true)
    }

    /** After a failed run: respawned if that is accepted and succeeds, disabled if it is not accepted. */
    function Replaced(now: int, started: bool): Flags {
      Recorded(now).Killed().(ready := Accepts(now) && started)
    }
  }

  class Slot {
    var ready: bool
    var busy: bool
    var disabled: bool
    var lastRespawn: Option<int>
    var child: Child?
    ghost var respawns: seq<int> // the times of the accepted respawns

    ghost predicate Valid()
      reads this
    {
      && Spaced(respawns, FLAP_WINDOW)
      && (if respawns == [] then lastRespawn == None else lastRespawn == Some(respawns[|respawns| - 1]))
    }

    function View(): Flags
      reads this
    {
      Flags(ready, busy, disabled, lastRespawn)
    }

    constructor ()
      ensures Valid() && !ready && !busy && !disabled && respawns == [] && child == null
    {
      ready, busy, disabled, lastRespawn, child := false, false, false, None, null;
      respawns := [];
    }

    method Reserve() returns (ok: bool)
      modifies this`busy
      ensures ok <==> old(ready && !busy)
      ensures View() == old(View()).Reserved()
      ensures busy == (ok || old(busy)) && (ok ==> busy && !old(busy))
    {
      if !ready || busy { return false; }
      busy := true;
      return true;
    }

    method Release()
      modifies this`busy
      ensures View() == old(View()).Released() && !busy
    {
      busy := false;
    }

    /** Terminates the process; the slot is neither ready nor busy afterwards, whoever holds it. */
    method Kill()
      modifies this`ready, this`busy, this`child
      ensures View() == old(View()).Killed() && child == null && !ready && !busy
    {
      ready, busy, child := false, false, null;
    }

    /**
      The init handshake: identity out, system/init in, acknowledgement in. Nothing
      changes when no process could be spawned; any later failure kills it again.
     */
    method Start(spawned: Child?, identity: Option<string>, writeFails: bool) returns (ok: bool)
      requires spawned != null ==> spawned.output.Valid() && spawned.input == []
      modifies this`ready, this`busy, this`child, if spawned == null then {} else {spawned, spawned.output}
      ensures ok <==>
        && spawned != null && identity.Some? && !writeFails
        && Handshake(spawned.output.lines, old(if spawned == null then 0 else spawned.output.pos))
      ensures ok <==>
        && spawned != null && identity.Some? && !writeFails
        && exists k: nat ::
             && k < |spawned.output.lines| && spawned.output.lines[k].Message?
             && P.Reaches(spawned.output.lines, old(if spawned == null then 0 else spawned.output.pos), P.Init, k)
             && exists j :: P.Reaches(spawned.output.lines, k + 1, P.Result, j) && spawned.output.lines[j].body.Some?
      ensures ok ==> View() == old(View()).(ready := true)
      ensures !ok && spawned != null ==> !ready && !busy
      ensures ok ==> child == spawned != null && spawned.input == [identity.value]
      ensures ok ==> Greeted(spawned.output.lines, old(if spawned == null then 0 else spawned.output.pos), spawned.output.pos)
      ensures !ok ==> View() == if spawned == null then old(View()) else old(View()).Killed()
      ensures !ok ==> child == if spawned == null then old(child) else null
      ensures spawned != null ==> spawned.output.Valid()
    {
      if spawned == null { return false; }
      child := spawned;
      if identity == None { Kill(); return false; }
      var wrote := child.WriteUserMessage(identity.value, writeFails);
      if !wrote { Kill(); return false; }
      var started := P.ReadUntilInit(child.output);
      if !started { Kill(); return false; }
      ghost var k := child.output.pos - 1;
      var ack := P.ReadUntilResult(child.output);
      if ack == None { Kill(); return false; }
      assert P.Reaches(spawned.output.lines, k + 1, P.Result, spawned.output.pos - 1);
      ready := true;
      return true;
    }

    /** Sends one prompt and answers with the body of the first result line that follows. */
    method Run(prompt: string, writeFails: bool, timesOut: bool) returns (r: Option<string>)
      requires child != null ==> child.output.Valid()
      modifies this`ready, this`busy, this`child, child, if child == null then {} else {child.output}
      ensures r.Some? ==> old(ready) && child == old(child) && child != null
      ensures r.Some? ==> child.input == old(child.input) + [prompt]
      ensures r.Some? ==>
        && child.output.pos > 0
        && P.Reaches(child.output.lines, old(child.output.pos), P.Result, child.output.pos - 1)
        && var body := child.output.lines[child.output.pos - 1].body;
           body.Some? && !body.value.isError && r.value == body.value.result
      ensures r.Some? <==>
        && old(ready) && old(child) != null && !writeFails && !timesOut
        && exists k ::
             && P.Reaches(old(child).output.lines, old(if child == null then 0 else child.output.pos), P.Result, k)
             && var body := old(child).output.lines[k].body;
                body.Some? && !body.value.isError
      ensures View() == old(View()) || (r == None && timesOut && View() == old(View()).Killed())
      ensures r == None && timesOut && old(ready) && old(child) != null && !writeFails ==> !ready && !busy && child == null
      ensures r.Some? || !timesOut || writeFails ==> ready == old(ready) && busy == old(busy) && child == old(child)
      ensures child == old(child) || child == null
      ensures old(child) != null ==> old(child).output.Valid()
      ensures forall text :: r == Some(text) <==>
        old(ready) && old(child) != null && !writeFails && !timesOut
        && Answered(old(child).output.lines, old(if child == null then 0 else child.output.pos), text)
    {
      if !ready || child == null { return None; }
      var wrote := child.WriteUserMessage(prompt, writeFails);
      if !wrote { return None; }
      if timesOut { Kill(); return None; }
      var result := P.ReadUntilResult(child.output);
      if result == None || result.value.isError { return None; }
      return Some(result.value.result);
    }

    /** Accepts a respawn, or disables the slot for good when the last one is less than a minute old. */
    method RecordRespawnAttempt(now: int) returns (accepted: bool)
      requires Valid()
      modifies this`disabled, this`lastRespawn, this`respawns
      ensures Valid()
      ensures accepted <==> old(View()).Accepts(now)
      ensures accepted <==> old(lastRespawn) == None || now - old(lastRespawn).value >= 60
      ensures respawns == if accepted then old(respawns) + [now] else old(respawns)
      ensures View() == old(View()).Recorded(now)
      ensures accepted ==> lastRespawn == Some(now) && disabled == old(disabled)
      ensures !accepted ==> lastRespawn == old(lastRespawn) && disabled
    {
      if lastRespawn.Some? && now - lastRespawn.value < FLAP_WINDOW {
        disabled := true;
        return false;
      }
      lastRespawn := Some(now);
      respawns := respawns + [now];
      return true;
    }

    /** What follows a failed run: a respawn attempt, the stop in any case, and a start if the attempt was accepted. */
    method Replace(now: int, spawned: Child?, identity: Option<string>, writeFails: bool) returns (accepted: bool, started: bool)
      requires Valid()
      requires spawned != null ==> spawned.output.Valid() && spawned.input == []
      modifies this, if spawned == null then {} else {spawned, spawned.output}
      ensures Valid()
      ensures accepted <==> old(View()).Accepts(now)
      ensures respawns == if accepted then old(respawns) + [now] else old(respawns)
      ensures View() == old(View()).Replaced(now, started)
      ensures accepted <==> old(lastRespawn) == None || now - old(lastRespawn).value >= 60
      ensures ready == started && !busy && disabled == (old(disabled) || !accepted)
      ensures lastRespawn == if accepted then Some(now) else old(lastRespawn)
      ensures started <==>
        && accepted && spawned != null && identity.Some? && !writeFails
        && Handshake(spawned.output.lines, old(if spawned == null then 0 else spawned.output.pos))
      ensures child == if started then spawned else null
    {
      hide Handshake, Greeted, Spaced;
      started := false;
      accepted := RecordRespawnAttempt(now);
      Kill();
      if accepted {
        started := Start(spawned, identity, writeFails);
      }
    }

    /**
      One warm dispatch: a run, after a failed one the replacement unless the daemon is
      stopping, and the release in any case, whatever has become of the slot meanwhile.
     */
    method Dispatch(prompt: string, writeFails: bool, timesOut: bool, stopping: bool, now: int,
                    spawned: Child?, identity: Option<string>, identityFails: bool) returns (r: Option<string>)
      requires Valid() && (child != null ==> child.output.Valid())
      requires spawned != null ==> spawned.output.Valid() && spawned.input == []
      requires spawned != null && child != null ==> spawned != child && spawned.output != child.output
      modifies this, child, if child == null then {} else {child.output},
               if spawned == null then {} else {spawned, spawned.output}
      ensures Valid()
      ensures forall text :: r == Some(text) <==>
        old(ready) && old(child) != null && !writeFails && !timesOut
        && Answered(old(child).output.lines, old(if child == null then 0 else child.output.pos), text)
      ensures r.Some? ==> View() == old(View()).Released() && respawns == old(respawns)
      ensures r == None && !stopping ==> (exists started :: View() == old(View()).Replaced(now, started))
      ensures r == None && !stopping ==>
        respawns == if old(View()).Accepts(now) then old(respawns) + [now] else old(respawns)
      ensures r == None && stopping ==> View() == old(View()).Released() || View() == old(View()).Killed()
      ensures !busy
      ensures r.Some? || stopping ==> disabled == old(disabled) && lastRespawn == old(lastRespawn)
      ensures r.Some? ==> ready && old(ready)
      ensures r == None && !stopping ==>
        var accepted := old(lastRespawn) == None || now - old(lastRespawn).value >= 60;
        && disabled == (old(disabled) || !accepted) && (ready ==> accepted)
        && lastRespawn == if accepted then Some(now) else old(lastRespawn)
    {
      hide Answered, Handshake, Greeted, Spaced, P.Reaches;
      r := Run(prompt, writeFails, timesOut);
      if r == None && !stopping {
        var accepted, started := Replace(now, spawned, identity, identityFails);
        assert View() == old(View()).Replaced(now, started);
      }
      Release();
    }

    method Status() returns (r: bool, b: bool, d: bool)
      ensures r == ready && b == busy && d == disabled
    {
      return ready, busy, disabled;
    }
  }

  /** Any slot, at any time: accepted respawns are a minute apart, which bounds them in every window. */
  lemma RespawnsArePaced(slot: Slot, from: int, to: int)
    requires slot.Valid() && from <= to
    ensures CountIn(slot.respawns, from, to) <= (to - from) / FLAP_WINDOW + 1
  {
    WindowBound(slot.respawns, FLAP_WINDOW, from, to);
  }
}
