/**
  What is lost once a kill has struck a dispatch that holds its warm slot: the slot
  can be shared from then on, and answers can go to the wrong dispatch.
 */
module WarmSharing {
  import opened WarmExclusivity

  lemma RunNothing(s: State)
    ensures Run(s, []) == s
  {
  }

  lemma Then(s: State, actions: seq<Action>, a: Action)
    ensures Run(s, actions + [a]) == Step(Run(s, actions), a)
  {
    hide Step;
    assert (actions + [a])[..|actions|] == actions;
  }

  lemma ThreeMore(s: State, actions: seq<Action>, x: Action, y: Action, z: Action)
    ensures Run(s, actions + [x, y, z]) == Step(Step(Step(Run(s, actions), x), y), z)
  {
    hide Step, Run;
    Then(s, actions, x);
    Then(s, actions + [x], y);
    Then(s, actions + [x] + [y], z);
    assert actions + [x, y, z] == actions + [x] + [y] + [z];
  }

  /** Two dispatches that share a fresh process and send in turn: the second reads the first one's answer. */
  lemma SharedCrosses(s: State, d2: nat, d3: nat) returns (crossed: State)
    requires s == Fresh(s) && d2 in s.holders && d3 in s.holders && d2 != d3
    requires s.holders[d2].Held? && s.holders[d3].Held?
    ensures crossed == Step(Step(Step(Step(s, Send(d2)), Send(d3)), Reply), Read(d3))
    ensures d2 in crossed.holders && d3 in crossed.holders
    ensures crossed.holders[d2] == Sent(1) && crossed.holders[d3] == Received(2, 1)
  {
    var sent := Step(Step(s, Send(d2)), Send(d3));
    assert sent.holders[d2] == Sent(1) && sent.holders[d3] == Sent(2);
    var replied := Step(sent, Reply);
    assert replied.output[replied.read] == Answer(1);
    crossed := Step(replied, Read(d3));
  }

  /**
    A kill while `d` holds the slot, whatever else is going on, and a respawn that
    is accepted: the next dispatch is let in beside `d`. Once `d` has let go, which
    frees the slot under the one that came after it, a third is let in as well.
   */
  lemma StruckIsShared(s: State, kill: Action, now: int, d: nat, d2: nat, d3: nat) returns (both: State, shared: State)
    requires d in s.holders && (kill == Stop || kill == Fail(d)) && Enabled(s, kill)
    requires !s.disabled && FlagsOf(s).Accepts(now)
    requires d2 !in s.holders && d3 !in s.holders && d2 != d3
    ensures both == Step(Step(Step(s, kill), Respawn(now, true)), Reserve(d2))
    ensures both.struck && d in both.holders && both.holders[d2] == Held && d != d2
    ensures both == Fresh(both) && shared == Step(Step(both, Release(d)), Reserve(d3))
    ensures kill == Fail(d) || !s.holders[d].Sent? ==>
      && shared == Fresh(shared) && d !in shared.holders
      && d2 in shared.holders && d3 in shared.holders && shared.holders[d2] == shared.holders[d3] == Held
  {
    var killed := Step(s, kill);
    var again := Step(killed, Respawn(now, true));
    assert again == Fresh(again) && !again.busy && !again.disabled;
    both := Step(again, Reserve(d2));
    shared := Step(Step(both, Release(d)), Reserve(d3));
    if kill == Fail(d) || !s.holders[d].Sent? {
      assert Enabled(both, Release(d));
    }
  }

  /** So from every state in which a kill can strike a holder, some continuation hands an answer to the wrong dispatch. */
  lemma {:induction false} SharedAfterKill(s: State, d: nat, now: int, d2: nat, d3: nat) returns (actions: seq<Action>)
    requires d in s.holders && !s.holders[d].Failed? && !s.disabled && FlagsOf(s).Accepts(now)
    requires d2 !in s.holders && d3 !in s.holders && d2 != d3
    ensures |actions| > 0 && actions[0] == Fail(d)
    ensures var r := Run(s, actions);
      && d2 in r.holders && d3 in r.holders
      && r.holders[d3].Received? && r.holders[d3].answer != r.holders[d3].line
  {
    hide Step, Run, Fresh, FlagsOf;
    var both, shared := StruckIsShared(s, Fail(d), now, d, d2, d3);
    var crossed := SharedCrosses(shared, d2, d3);
    RunNothing(s);
    ThreeMore(s, [], Fail(d), Respawn(now, true), Reserve(d2));
    actions := [] + [Fail(d), Respawn(now, true), Reserve(d2)];
    ThreeMore(s, actions, Release(d), Reserve(d3), Send(d2));
    actions := actions + [Release(d), Reserve(d3), Send(d2)];
    ThreeMore(s, actions, Send(d3), Reply, Read(d3));
    actions := actions + [Send(d3), Reply, Read(d3)];
  }
}
