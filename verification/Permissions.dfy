/** The permission prompt as the bot holds it, each call running alone. */
module Permissions {
  import opened Basics
  import opened PermissionProtocol

  /** What loading the access file and its owner field comes to. */
  datatype Owner = LoadFails | NoOwner | BadOwner | OwnerChat(id: int)

  /** What is waiting under which code, and the verdicts given: common to the bot's fields and the protocol's state. */
  datatype Board = Board(pending: map<Code, nat>, verdicts: seq<Verdict>)

  function Resolved(b: Board, code: Code, allow: bool): Board {
    if code in b.pending
    then Board(b.pending - {code}, b.verdicts + [Verdict(b.pending[code], allow)])
    else b
  }

  function Requested(b: Board, request: nat, code: Code, sent: bool): Board {
    if sent then b.(pending := b.pending[code := request])
    else b.(verdicts := b.verdicts + [Verdict(request, false)])
  }

  function BoardOf(s: State): Board { Board(s.pending, s.verdicts) }

  /** The protocol's three steps of a resolution, taken without interruption. */
  lemma {:induction false} ResolveIsItsSteps(s: State, d: nat, code: Code, allow: bool)
    requires ClaimInv(s) && d !in s.resolvers
    ensures var s' := Step(Step(Step(s, Answer(d, code, allow)), StopTimer(d)), Reply(d));
      && BoardOf(s') == Resolved(BoardOf(s), code, allow)
      && d in s'.resolvers && (s'.resolvers[d].Replied? <==> code in s.pending)
      && (code in s.pending ==>
            var r := s.pending[code];
            && r in s.requests && r in s'.requests && s.requests[r].Asked? && s'.requests[r].Asked?
            && s'.requests[r].timer == if s.requests[r].timer == Running then Halted else s.requests[r].timer)
  {
    var s1 := Step(s, Answer(d, code, allow));
    if code in s.pending {
      var r := s.pending[code];
      assert PendingOk(code, r, s.requests);
      assert s1.resolvers[d] == Claimed(r, allow) && s1.requests == s.requests;
      StopThenReply(s1, d);
    } else {
      assert s1.resolvers[d] == Missed;
    }
  }

  lemma StopThenReply(s: State, d: nat)
    requires d in s.resolvers && s.resolvers[d].Claimed? && s.resolvers[d].request in s.requests
    requires s.requests[s.resolvers[d].request].Asked?
    ensures var s' := Step(Step(s, StopTimer(d)), Reply(d));
      var r := s.resolvers[d].request;
      && s'.pending == s.pending && s'.verdicts == s.verdicts + [Verdict(r, s.resolvers[d].allow)]
      && d in s'.resolvers && s'.resolvers[d].Replied?
      && r in s'.requests && s'.requests[r].Asked?
      && s'.requests[r].timer == if s.requests[r].timer == Running then Halted else s.requests[r].timer
  {
    var s1 := Step(s, StopTimer(d));
    assert s1.resolvers[d] == TimerStopped(s.resolvers[d].request, s.resolvers[d].allow);
  }

  /** The protocol's steps of a request: one refusal, or the prompt sent, stored and its timer started. */
  lemma {:induction false} RequestIsItsSteps(s: State, r: nat, code: Code)
    requires r !in s.requests
    ensures BoardOf(Step(s, Refuse(r))) == Requested(BoardOf(s), r, code, false)
    ensures var s' := Step(Step(Step(s, Send(r, code)), Store(r)), Arm(r));
      BoardOf(s') == Requested(BoardOf(s), r, code, true) && r in s'.requests
      && s'.requests[r] == Asked(code, true, Running)
  {
    var s1 := Step(s, Send(r, code));
    assert s1.requests[r] == Asked(code, false, NotSet);
    var s2 := Step(s1, Store(r));
    assert s2.requests[r] == Asked(code, true, NotSet);
  }

  class PermEntry {
    const request: nat
    var timer: Timer

    constructor (request: nat)
      ensures this.request == request && timer == NotSet
    {
      this.request, timer := request, NotSet;
    }
  }

  class Bot {
    var permPending: map<Code, PermEntry>
    var replies: seq<Verdict>

    /** The codes and whose they are, and the replies. */
    ghost function View(): Board
      reads this, permPending.Values
    {
      Board(map c | c in permPending :: permPending[c].request, replies)
    }

    constructor ()
      ensures permPending == map[] && replies == []
    {
      permPending, replies := map[], [];
    }

    method FireReply(request: nat, allow: bool)
      modifies this
      ensures replies == old(replies) + [Verdict(request, allow)] && permPending == old(permPending)
    {
      replies := replies + [Verdict(request, allow)];
    }

    /** One denial when the prompt cannot go out; otherwise the entry with its timer running, and no reply yet. */
    method HandlePermissionRequest(request: nat, owner: Owner, sendFails: bool, code: Code)
      modifies this
      ensures View() == Requested(old(View()), request, code, owner.OwnerChat? && !sendFails)
      ensures !owner.OwnerChat? || sendFails ==>
        permPending == old(permPending) && replies == old(replies) + [Verdict(request, false)]
      ensures owner.OwnerChat? && !sendFails ==> replies == old(replies)
      ensures owner.OwnerChat? && !sendFails ==>
        && permPending.Keys == old(permPending).Keys + {code}
        && (forall c :: c in old(permPending) && c != code ==> permPending[c] == old(permPending)[c])
        && fresh(permPending[code]) && permPending[code].request == request && permPending[code].timer == Running
    {
      if owner.LoadFails? { FireReply(request, false); return; }
      if owner.NoOwner? { FireReply(request, false); return; }
      if owner.BadOwner? { FireReply(request, false); return; }
      if sendFails { FireReply(request, false); return; }
      var entry := new PermEntry(request);
      permPending := permPending[code := entry];
      entry.timer := Running;
    }

    /** Found exactly when pending; then taken out, its timer stopped if set, and answered once. */
    method ResolvePermission(code: Code, allow: bool) returns (found: bool)
      modifies this, permPending.Values
      ensures found <==> code in old(permPending)
      ensures permPending == old(permPending) - {code}
      ensures replies == if found then old(replies) + [Verdict(old(permPending)[code].request, allow)] else old(replies)
      ensures View() == Resolved(old(View()), code, allow)
      ensures found ==>
        var entry := old(permPending)[code];
        entry.timer == if old(entry.timer) == Running then Halted else old(entry.timer)
      ensures forall e :: e in old(permPending).Values && (found ==> e != old(permPending)[code]) ==> unchanged(e)
    {
      if code !in permPending { return false; }
      var entry := permPending[code];
      permPending := permPending - {code};
      if entry.timer == Running {
        entry.timer := Halted;
      }
      FireReply(entry.request, allow);
      return true;
    }

    /** A tap counts as a reply with the code and the answer its data stands for. */
    method HandlePermissionCallback(data: string) returns (handled: bool, allow: bool)
      modifies this, permPending.Values
      ensures match ParseButton(data)
        case None => !handled && !allow && View() == old(View())
        case Some((code, yes)) =>
          && allow == yes && (handled <==> code in old(permPending)) && View() == Resolved(old(View()), code, yes)
      ensures "pa:" <= data || "pd:" <= data ==>
        var code := if "pa:" <= data && "pd:" <= data[3..] then data[6..] else data[3..];
        && allow == ("pa:" <= data) && (handled <==> code in old(permPending))
        && permPending == old(permPending) - {code}
        && replies == if handled then old(replies) + [Verdict(old(permPending)[code].request, allow)] else old(replies)
      ensures !("pa:" <= data || "pd:" <= data) ==>
        !handled && !allow && permPending == old(permPending) && replies == old(replies)
    {
      if APPROVE <= data {
        allow := true;
      } else if DENY <= data {
        allow := false;
      } else {
        return false, false;
      }
      var code := TrimPrefix(TrimPrefix(data, APPROVE), DENY);
      handled := ResolvePermission(code, allow);
    }
  }

  // ---------- button data ----------

  const APPROVE: string := "pa:"
  const DENY: string := "pd:"

  function TrimPrefix(s: string, prefix: string): string {
    if prefix <= s then s[|prefix|..] else s
  }

  /** The code and answer that a button's data stands for; None for data of another kind. */
  function ParseButton(data: string): Option<(Code, bool)> {
    if APPROVE <= data || DENY <= data then
      Some((TrimPrefix(TrimPrefix(data, APPROVE), DENY), APPROVE <= data))
    else None
  }

  function ButtonData(code: Code, allow: bool): string {
    (if allow then APPROVE else DENY) + code
  }

  /** A button answers for its own code, unless an approved code itself starts like a deny button. */
  lemma ButtonRoundTrip(code: Code, allow: bool)
    ensures ParseButton(ButtonData(code, allow)) == Some((code, allow)) <==> !(allow && "pd:" <= code)
    ensures ParseButton("pd:" + code) == Some((code, false))
    ensures ParseButton("pa:" + code) == Some((code, true)) <==> !("pd:" <= code)
  {
    var no, yes := "pd:" + code, "pa:" + code;
    assert no[1] == 'd' && yes[1] == 'a' && APPROVE[1] == 'a' && DENY[1] == 'd';
    assert no[3..] == code && no[..3] == "pd:";
    assert yes[3..] == code && yes[..3] == "pa:";
    if "pd:" <= code {
      assert |TrimPrefix(code, DENY)| < |code|;
    }
  }
}
