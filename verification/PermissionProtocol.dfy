/**
  A permission prompt and the three that race to answer it: the typed reply, the
  button tap and the two-minute timer. One step is one critical section, timer
  call or reply to the requester.
 */
module PermissionProtocol {
  import opened Basics

  type Code = string

  datatype Timer = NotSet | Running | Halted | Fired

  /** A request that was denied on the spot, or one whose prompt went out under a code. */
  datatype Request = Refused | Asked(code: Code, stored: bool, timer: Timer)

  /** One run of resolvePermission: found nothing, or took the request out of the pending map. */
  datatype Resolver =
    | Missed
    | Claimed(request: nat, allow: bool)
    | TimerStopped(request: nat, allow: bool)
    | Replied(request: nat, allow: bool)

  datatype Verdict = Verdict(request: nat, allow: bool)

  datatype State = State(
    requests: map<nat, Request>, pending: map<Code, nat>, resolvers: map<nat, Resolver>,
    verdicts: seq<Verdict>,
    // history: who took a request out of the pending map
    claims: map<nat, nat>)

  datatype Action =
    | Refuse(request: nat)
    | Send(request: nat, code: Code)
    | Store(request: nat)
    | Arm(request: nat)
    | Answer(resolver: nat, code: Code, allow: bool)
    | Expire(resolver: nat, request: nat)
    | StopTimer(resolver: nat)
    | Reply(resolver: nat)

  /** Every request and every resolver gets a number of its own; a code may be anything. */
  predicate Enabled(s: State, a: Action) {
    match a
    case Refuse(r) => r !in s.requests
    case Send(r, _) => r !in s.requests
    case Store(r) => r in s.requests && s.requests[r].Asked? && !s.requests[r].stored
    case Arm(r) => r in s.requests && s.requests[r].Asked? && s.requests[r].stored && s.requests[r].timer == NotSet
    case Answer(d, _, _) => d !in s.resolvers
    case Expire(d, r) => d !in s.resolvers && r in s.requests && s.requests[r].Asked? && s.requests[r].timer == Running
    case StopTimer(d) => d in s.resolvers && s.resolvers[d].Claimed? && s.resolvers[d].request in s.requests
    case Reply(d) => d in s.resolvers && s.resolvers[d].TimerStopped?
  }

  /** The critical section of resolvePermission. */
  function Resolve(s: State, d: nat, code: Code, allow: bool): State {
    if code in s.pending then
      var r := s.pending[code];
      s.(pending := s.pending - {code}, resolvers := s.resolvers[d := Claimed(r, allow)], claims := s.claims[r := d])
    else s.(resolvers := s.resolvers[d := Missed])
  }

  function WithTimer(s: State, r: nat, timer: Timer): State
    requires r in s.requests && s.requests[r].Asked?
  {
    s.(requests := s.requests[r := s.requests[r].(timer := timer)])
  }

  function Step(s: State, a: Action): State {
    if !Enabled(s, a) then s
    else match a
      case Refuse(r) => RefuseStep(s, r)
      case Send(r, code) => SendStep(s, r, code)
      case Store(r) => StoreStep(s, r)
      case Arm(r) => WithTimer(s, r, Running)
      case Answer(d, code, allow) => Resolve(s, d, code, allow)
      case Expire(d, r) => WithTimer(Resolve(s, d, s.requests[r].code, false), r, Fired)
      case StopTimer(d) => StopStep(s, d)
      case Reply(d) => ReplyStep(s, d)
  }

  function RefuseStep(s: State, r: nat): State {
    s.(requests := s.requests[r := Refused], verdicts := s.verdicts + [Verdict(r, false)])
  }

  function SendStep(s: State, r: nat, code: Code): State {
    s.(requests := s.requests[r := Asked(code, false, NotSet)])
  }

  function StoreStep(s: State, r: nat): State
    requires r in s.requests && s.requests[r].Asked?
  {
    s.(requests := s.requests[r := s.requests[r].(stored := true)], pending := s.pending[s.requests[r].code := r])
  }

  function ReplyStep(s: State, d: nat): State
    requires d in s.resolvers && s.resolvers[d].TimerStopped?
  {
    var v := s.resolvers[d];
    s.(resolvers := s.resolvers[d := Replied(v.request, v.allow)],
       verdicts := s.verdicts + [Verdict(v.request, v.allow)])
  }

  /** A timer not yet set is not stopped; it will run and find nothing. */
  function StopStep(s: State, d: nat): State
    requires d in s.resolvers && s.resolvers[d].Claimed? && s.resolvers[d].request in s.requests
  {
    var v := s.resolvers[d];
    var t := s.(resolvers := s.resolvers[d := TimerStopped(v.request, v.allow)]);
    if s.requests[v.request].Asked? && s.requests[v.request].timer == Running
    then WithTimer(t, v.request, Halted) else t
  }

  function Run(s: State, actions: seq<Action>): State {
    if actions == [] then s else Step(Run(s, actions[..|actions| - 1]), actions[|actions| - 1])
  }

  const INITIAL: State := State(map[], map[], map[], [], map[])

  // ---------- invariants ----------

  /** What waits in the map is stored and not taken; what is not stored is not taken; a stopped timer means taken. */
  predicate RequestOk(r: nat, request: Request, pending: map<Code, nat>, claims: map<nat, nat>) {
    match request
    case Refused => r !in claims
    case Asked(code, stored, timer) =>
      && (code in pending && pending[code] == r ==> stored && r !in claims)
      && (!stored ==> r !in claims && timer == NotSet)
      && (timer == Halted ==> r in claims)
  }

  predicate PendingOk(code: Code, r: nat, requests: map<nat, Request>) {
    r in requests && requests[r].Asked? && requests[r].code == code && requests[r].stored
  }

  predicate ResolverOk(d: nat, v: Resolver, claims: map<nat, nat>) {
    !v.Missed? ==> v.request in claims && claims[v.request] == d
  }

  predicate ClaimOk(r: nat, d: nat, requests: map<nat, Request>, resolvers: map<nat, Resolver>) {
    && r in requests && requests[r].Asked?
    && d in resolvers && !resolvers[d].Missed? && resolvers[d].request == r
  }

  ghost predicate ClaimInv(s: State) {
    && (forall r :: r in s.requests ==> RequestOk(r, s.requests[r], s.pending, s.claims))
    && (forall c :: c in s.pending ==> PendingOk(c, s.pending[c], s.requests))
    && (forall d :: d in s.resolvers ==> ResolverOk(d, s.resolvers[d], s.claims))
    && (forall r :: r in s.claims ==> ClaimOk(r, s.claims[r], s.requests, s.resolvers))
  }

  /** Why a request has this verdict. */
  predicate Due(v: Verdict, requests: map<nat, Request>, resolvers: map<nat, Resolver>, claims: map<nat, nat>) {
    || (v.request in requests && requests[v.request].Refused? && !v.allow)
    || (v.request in claims && claims[v.request] in resolvers
        && resolvers[claims[v.request]] == Replied(v.request, v.allow))
  }

  ghost predicate VerdictInv(s: State) {
    && (forall i, j :: 0 <= i < j < |s.verdicts| ==> s.verdicts[i].request != s.verdicts[j].request)
    && (forall v :: v in s.verdicts ==> Due(v, s.requests, s.resolvers, s.claims))
    && (forall r :: r in s.requests && s.requests[r].Refused? ==> Verdict(r, false) in s.verdicts)
    && (forall d :: d in s.resolvers && s.resolvers[d].Replied? ==>
          Verdict(s.resolvers[d].request, s.resolvers[d].allow) in s.verdicts)
  }

  lemma RefuseKeepsClaims(s: State, r: nat)
    requires ClaimInv(s) && r !in s.requests
    ensures ClaimInv(RefuseStep(s, r))
  {
    assert forall q :: q in s.claims ==> ClaimOk(q, s.claims[q], s.requests, s.resolvers);
  }

  lemma SendKeepsClaims(s: State, r: nat, code: Code)
    requires ClaimInv(s) && r !in s.requests
    ensures ClaimInv(SendStep(s, r, code))
  {
    assert forall q :: q in s.claims ==> ClaimOk(q, s.claims[q], s.requests, s.resolvers);
  }

  lemma StoreKeepsClaims(s: State, r: nat)
    requires ClaimInv(s) && Enabled(s, Store(r))
    ensures ClaimInv(StoreStep(s, r))
  {
    var s' := StoreStep(s, r);
    var code := s.requests[r].code;
    assert RequestOk(r, s.requests[r], s.pending, s.claims);
    forall q | q in s'.requests ensures RequestOk(q, s'.requests[q], s'.pending, s'.claims) {
      assert RequestOk(q, s.requests[q], s.pending, s.claims);
    }
    forall c | c in s'.pending ensures PendingOk(c, s'.pending[c], s'.requests) {
      if c != code { assert PendingOk(c, s.pending[c], s.requests); }
    }
    forall q | q in s'.claims ensures ClaimOk(q, s'.claims[q], s'.requests, s'.resolvers) {
      assert ClaimOk(q, s.claims[q], s.requests, s.resolvers);
    }
  }

  /** A timer may start or run at any time, and is stopped only once the request is taken. */
  lemma TimerKeepsClaims(s: State, r: nat, timer: Timer)
    requires ClaimInv(s) && r in s.requests && s.requests[r].Asked? && s.requests[r].stored
    requires timer == Halted ==> r in s.claims
    ensures ClaimInv(WithTimer(s, r, timer))
  {
    var s' := WithTimer(s, r, timer);
    forall q | q in s'.requests ensures RequestOk(q, s'.requests[q], s'.pending, s'.claims) {
      assert RequestOk(q, s.requests[q], s.pending, s.claims);
    }
    forall c | c in s'.pending ensures PendingOk(c, s'.pending[c], s'.requests) {
      assert PendingOk(c, s.pending[c], s.requests);
    }
    forall q | q in s'.claims ensures ClaimOk(q, s'.claims[q], s'.requests, s'.resolvers) {
      assert ClaimOk(q, s.claims[q], s.requests, s.resolvers);
    }
  }

  lemma ResolveKeepsClaims(s: State, d: nat, code: Code, allow: bool)
    requires ClaimInv(s) && d !in s.resolvers
    ensures ClaimInv(Resolve(s, d, code, allow))
  {
    var s' := Resolve(s, d, code, allow);
    if code in s.pending {
      var r := s.pending[code];
      assert PendingOk(code, r, s.requests);
      assert RequestOk(r, s.requests[r], s.pending, s.claims);
      forall q | q in s'.requests ensures RequestOk(q, s'.requests[q], s'.pending, s'.claims) {
        assert RequestOk(q, s.requests[q], s.pending, s.claims);
      }
    }
    forall x | x in s'.resolvers ensures ResolverOk(x, s'.resolvers[x], s'.claims) {
      if x != d { assert ResolverOk(x, s.resolvers[x], s.claims); }
    }
    forall q | q in s'.claims ensures ClaimOk(q, s'.claims[q], s'.requests, s'.resolvers) {
      if q in s.claims { assert ClaimOk(q, s.claims[q], s.requests, s.resolvers); }
    }
  }

  lemma StopKeepsClaims(s: State, d: nat)
    requires ClaimInv(s) && Enabled(s, StopTimer(d))
    ensures ClaimInv(StopStep(s, d))
  {
    var v := s.resolvers[d];
    var t := s.(resolvers := s.resolvers[d := TimerStopped(v.request, v.allow)]);
    assert ResolverOk(d, v, s.claims);
    forall q | q in t.claims ensures ClaimOk(q, t.claims[q], t.requests, t.resolvers) {
      assert ClaimOk(q, s.claims[q], s.requests, s.resolvers);
    }
    assert RequestOk(v.request, s.requests[v.request], s.pending, s.claims);
    if s.requests[v.request].Asked? && s.requests[v.request].timer == Running {
      TimerKeepsClaims(t, v.request, Halted);
    }
  }

  lemma ReplyKeepsClaims(s: State, d: nat)
    requires ClaimInv(s) && Enabled(s, Reply(d))
    ensures ClaimInv(ReplyStep(s, d))
  {
    var s' := ReplyStep(s, d);
    assert ResolverOk(d, s.resolvers[d], s.claims);
    forall q | q in s'.claims ensures ClaimOk(q, s'.claims[q], s'.requests, s'.resolvers) {
      assert ClaimOk(q, s.claims[q], s.requests, s.resolvers);
    }
  }

  lemma ExpireKeepsClaims(s: State, d: nat, r: nat)
    requires ClaimInv(s) && Enabled(s, Expire(d, r))
    ensures ClaimInv(WithTimer(Resolve(s, d, s.requests[r].code, false), r, Fired))
  {
    assert RequestOk(r, s.requests[r], s.pending, s.claims);
    ResolveKeepsClaims(s, d, s.requests[r].code, false);
    hide ClaimInv;
    TimerKeepsClaims(Resolve(s, d, s.requests[r].code, false), r, Fired);
  }

  lemma StepKeepsClaims(s: State, a: Action)
    requires ClaimInv(s)
    ensures ClaimInv(Step(s, a))
  {
    hide ClaimInv, Resolve, WithTimer, StopStep, ReplyStep, StoreStep, SendStep, RefuseStep;
    if Enabled(s, a) {
      match a
      case Refuse(r) => RefuseKeepsClaims(s, r);
      case Send(r, code) => SendKeepsClaims(s, r, code);
      case Store(r) => StoreKeepsClaims(s, r);
      case Arm(r) => TimerKeepsClaims(s, r, Running);
      case Answer(d, code, allow) => ResolveKeepsClaims(s, d, code, allow);
      case Expire(d, r) => ExpireKeepsClaims(s, d, r);
      case StopTimer(d) => StopKeepsClaims(s, d);
      case Reply(d) => ReplyKeepsClaims(s, d);
    }
  }

  lemma RefuseKeepsVerdicts(s: State, r: nat)
    requires ClaimInv(s) && VerdictInv(s) && r !in s.requests
    ensures VerdictInv(RefuseStep(s, r))
  {
    var s' := RefuseStep(s, r);
    assert forall q :: q in s.claims ==> ClaimOk(q, s.claims[q], s.requests, s.resolvers);
    forall v | v in s.verdicts ensures v.request != r && Due(v, s'.requests, s'.resolvers, s'.claims) {
      assert Due(v, s.requests, s.resolvers, s.claims);
    }
    assert forall v :: v in s'.verdicts <==> v in s.verdicts || v == Verdict(r, false);
  }

  lemma ReplyKeepsVerdicts(s: State, d: nat)
    requires ClaimInv(s) && VerdictInv(s) && Enabled(s, Reply(d))
    ensures VerdictInv(ReplyStep(s, d))
  {
    var s' := ReplyStep(s, d);
    var now := Verdict(s.resolvers[d].request, s.resolvers[d].allow);
    assert ResolverOk(d, s.resolvers[d], s.claims);
    assert ClaimOk(now.request, d, s.requests, s.resolvers);
    forall v | v in s.verdicts ensures v.request != now.request && Due(v, s'.requests, s'.resolvers, s'.claims) {
      assert Due(v, s.requests, s.resolvers, s.claims);
    }
    assert forall v :: v in s'.verdicts <==> v in s.verdicts || v == now;
  }

  /** A step that neither gives a verdict nor undoes the ground for one. */
  lemma QuietKeepsVerdicts(s: State, s': State)
    requires VerdictInv(s) && s'.verdicts == s.verdicts
    requires forall r :: r in s.requests && s.requests[r].Refused? ==> r in s'.requests && s'.requests[r].Refused?
    requires forall r :: r in s'.requests && s'.requests[r].Refused? ==> r in s.requests && s.requests[r].Refused?
    requires forall d :: d in s.resolvers && s.resolvers[d].Replied? ==>
      d in s'.resolvers && s'.resolvers[d] == s.resolvers[d]
    requires forall d :: d in s'.resolvers && s'.resolvers[d].Replied? ==>
      d in s.resolvers && s'.resolvers[d] == s.resolvers[d]
    requires forall r :: r in s.claims ==> r in s'.claims && s'.claims[r] == s.claims[r]
    ensures VerdictInv(s')
  {
    forall v | v in s.verdicts ensures Due(v, s'.requests, s'.resolvers, s'.claims) {
      assert Due(v, s.requests, s.resolvers, s.claims);
    }
  }

  lemma ResolveKeepsVerdicts(s: State, d: nat, code: Code, allow: bool)
    requires ClaimInv(s) && VerdictInv(s) && d !in s.resolvers
    ensures VerdictInv(Resolve(s, d, code, allow))
  {
    hide VerdictInv;
    if code in s.pending {
      var r := s.pending[code];
      assert PendingOk(code, r, s.requests);
      assert RequestOk(r, s.requests[r], s.pending, s.claims);
    }
    QuietKeepsVerdicts(s, Resolve(s, d, code, allow));
  }

  lemma StepKeepsVerdicts(s: State, a: Action)
    requires ClaimInv(s) && VerdictInv(s)
    ensures VerdictInv(Step(s, a))
  {
    hide ClaimInv, VerdictInv, Resolve;
    if Enabled(s, a) {
      match a
      case Refuse(r) => RefuseKeepsVerdicts(s, r);
      case Send(r, code) => QuietKeepsVerdicts(s, SendStep(s, r, code));
      case Store(r) => QuietKeepsVerdicts(s, StoreStep(s, r));
      case Arm(r) => QuietKeepsVerdicts(s, WithTimer(s, r, Running));
      case Answer(d, code, allow) => ResolveKeepsVerdicts(s, d, code, allow);
      case Expire(d, r) =>
        var t := Resolve(s, d, s.requests[r].code, false);
        ResolveKeepsVerdicts(s, d, s.requests[r].code, false);
        ResolveRequests(s, d, s.requests[r].code, false);
        QuietKeepsVerdicts(t, WithTimer(t, r, Fired));
      case StopTimer(d) => QuietKeepsVerdicts(s, StopStep(s, d));
      case Reply(d) => ReplyKeepsVerdicts(s, d);
    }
  }

  lemma ResolveRequests(s: State, d: nat, code: Code, allow: bool)
    ensures Resolve(s, d, code, allow).requests == s.requests
  {
  }

  lemma {:induction false} RunKeepsInv(actions: seq<Action>)
    ensures ClaimInv(Run(INITIAL, actions)) && VerdictInv(Run(INITIAL, actions))
  {
    if actions != [] {
      hide ClaimInv, VerdictInv, Step;
      var before := Run(INITIAL, actions[..|actions| - 1]);
      var a := actions[|actions| - 1];
      RunKeepsInv(actions[..|actions| - 1]);
      StepKeepsClaims(before, a);
      StepKeepsVerdicts(before, a);
    }
  }

  // ---------- the guarantee ----------

  function VerdictsOn(verdicts: seq<Verdict>, r: nat): seq<bool> {
    if verdicts == [] then []
    else
      var init := VerdictsOn(verdicts[..|verdicts| - 1], r);
      if verdicts[|verdicts| - 1].request == r then init + [verdicts[|verdicts| - 1].allow] else init
  }

  lemma {:induction false} OneVerdict(verdicts: seq<Verdict>, r: nat)
    requires forall i, j :: 0 <= i < j < |verdicts| ==> verdicts[i].request != verdicts[j].request
    ensures |VerdictsOn(verdicts, r)| <= 1
    ensures forall allow :: Verdict(r, allow) in verdicts <==> VerdictsOn(verdicts, r) == [allow]
    ensures (forall v :: v in verdicts ==> v.request != r) ==> VerdictsOn(verdicts, r) == []
  {
    if verdicts != [] {
      var n := |verdicts| - 1;
      OneVerdict(verdicts[..n], r);
      assert verdicts == verdicts[..n] + [verdicts[n]];
      var init := VerdictsOn(verdicts[..n], r);
      forall allow ensures Verdict(r, allow) in verdicts <==> VerdictsOn(verdicts, r) == [allow] {
        assert Verdict(r, allow) in verdicts <==>
          Verdict(r, allow) in verdicts[..n] || Verdict(r, allow) == verdicts[n];
        if verdicts[n].request == r {
          assert forall v :: v in verdicts[..n] ==> v.request != r;
          assert VerdictsOn(verdicts, r) == [verdicts[n].allow];
          assert [verdicts[n].allow][0] == verdicts[n].allow && [allow][0] == allow;
        }
      }
    }
  }

  /** How a request stands with whoever took it. */
  function Standing(s: State, r: nat): seq<bool>
    requires r in s.requests && (r in s.claims ==> s.claims[r] in s.resolvers)
  {
    if s.requests[r].Refused? then [false]
    else if r in s.claims && s.resolvers[s.claims[r]].Replied? then [s.resolvers[s.claims[r]].allow]
    else []
  }

  /**
    In every interleaving, whatever the codes: a request has exactly the verdict of
    the one resolver that took it, or its one immediate denial, or none yet.
   */
  lemma {:induction false} VerdictsAreUnique(actions: seq<Action>, r: nat)
    requires r in Run(INITIAL, actions).requests
    ensures var s := Run(INITIAL, actions);
      && (r in s.claims ==> s.claims[r] in s.resolvers)
      && VerdictsOn(s.verdicts, r) == Standing(s, r) && |VerdictsOn(s.verdicts, r)| <= 1
  {
    var s := Run(INITIAL, actions);
    RunKeepsInv(actions);
    OneVerdict(s.verdicts, r);
    assert RequestOk(r, s.requests[r], s.pending, s.claims);
    if r in s.claims {
      assert ClaimOk(r, s.claims[r], s.requests, s.resolvers);
    }
    if s.requests[r].Refused? {
      assert Verdict(r, false) in s.verdicts;
    } else if r in s.claims && s.resolvers[s.claims[r]].Replied? {
      assert Verdict(r, s.resolvers[s.claims[r]].allow) in s.verdicts;
    } else {
      forall v | v in s.verdicts ensures v.request != r {
        assert Due(v, s.requests, s.resolvers, s.claims);
      }
    }
  }

  // ---------- no request is lost exactly when no code is stored over ----------

  /** A prompt is stored under a code that another one is waiting under. */
  predicate Collides(s: State, a: Action) {
    a.Store? && Enabled(s, a) && s.requests[a.request].code in s.pending
  }

  ghost predicate NoCollision(actions: seq<Action>) {
    actions == [] ||
    (NoCollision(actions[..|actions| - 1]) && !Collides(Run(INITIAL, actions[..|actions| - 1]), actions[|actions| - 1]))
  }

  /** A stored request that somebody can still answer or has taken. */
  predicate Held(s: State, r: nat)
    requires r in s.requests && s.requests[r].Asked?
  {
    r in s.claims || (s.requests[r].code in s.pending && s.pending[s.requests[r].code] == r)
  }

  predicate Stored(s: State, r: nat) {
    r in s.requests && s.requests[r].Asked? && s.requests[r].stored
  }

  ghost predicate AllHeld(s: State) {
    forall r :: Stored(s, r) ==> Held(s, r)
  }

  /** A timer that has run has left its request taken. */
  ghost predicate TimersTake(s: State) {
    forall r :: r in s.requests && s.requests[r].Asked? && s.requests[r].timer == Fired ==> r in s.claims
  }

  lemma StepKeepsHeld(s: State, a: Action)
    requires ClaimInv(s) && AllHeld(s) && TimersTake(s) && !Collides(s, a)
    ensures AllHeld(Step(s, a)) && TimersTake(Step(s, a))
  {
    if Enabled(s, a) {
      var s' := Step(s, a);
      match a
      case Store(r) => StoreKeepsHeld(s, r);
      case Answer(d, code, allow) => ResolveKeepsHeld(s, d, code, allow);
      case Expire(d, r) =>
        var t := Resolve(s, d, s.requests[r].code, false);
        ResolveKeepsHeld(s, d, s.requests[r].code, false);
        assert RequestOk(r, s.requests[r], s.pending, s.claims);
        assert Stored(s, r) && Held(s, r);
        SameHeld(t, s');
      case _ => SameHeld(s, s');
    }
  }

  lemma StoreKeepsHeld(s: State, r: nat)
    requires ClaimInv(s) && AllHeld(s) && TimersTake(s) && Enabled(s, Store(r))
    requires s.requests[r].code !in s.pending
    ensures AllHeld(StoreStep(s, r)) && TimersTake(StoreStep(s, r))
  {
    var s' := StoreStep(s, r);
    assert RequestOk(r, s.requests[r], s.pending, s.claims);
    forall q | Stored(s', q) ensures Held(s', q) {
      if q != r { assert Stored(s, q) && Held(s, q); }
    }
  }

  lemma ResolveKeepsHeld(s: State, d: nat, code: Code, allow: bool)
    requires ClaimInv(s) && AllHeld(s) && TimersTake(s)
    ensures var s' := Resolve(s, d, code, allow); AllHeld(s') && TimersTake(s')
  {
    var s' := Resolve(s, d, code, allow);
    forall q | Stored(s', q) ensures Held(s', q) {
      assert Stored(s, q) && Held(s, q);
    }
  }

  /** A step that moves nothing in or out of the map and stores nothing. */
  lemma SameHeld(s: State, s': State)
    requires AllHeld(s) && TimersTake(s) && s'.pending == s.pending && s'.claims == s.claims
    requires forall r :: Stored(s', r) ==> Stored(s, r) && s'.requests[r].code == s.requests[r].code
    requires forall r :: r in s'.requests && s'.requests[r].Asked? && s'.requests[r].timer == Fired ==>
      r in s.claims
    ensures AllHeld(s') && TimersTake(s')
  {
    forall r | Stored(s', r) ensures Held(s', r) {
      assert Held(s, r);
    }
  }

  lemma {:induction false} RunKeepsHeld(actions: seq<Action>)
    requires NoCollision(actions)
    ensures AllHeld(Run(INITIAL, actions)) && TimersTake(Run(INITIAL, actions))
  {
    if actions != [] {
      hide Step, ClaimInv, AllHeld, TimersTake;
      var init := actions[..|actions| - 1];
      RunKeepsInv(init);
      RunKeepsHeld(init);
      StepKeepsHeld(Run(INITIAL, init), actions[|actions| - 1]);
    } else {
      assert INITIAL.requests == map[];
    }
  }

  /** Nobody will ever answer a request that lost its place in the map. */
  lemma LostStays(s: State, a: Action, r: nat)
    requires ClaimInv(s) && Stored(s, r) && !Held(s, r)
    ensures Stored(Step(s, a), r) && !Held(Step(s, a), r)
  {
    if Enabled(s, a) {
      assert forall c :: c in s.pending ==> PendingOk(c, s.pending[c], s.requests);
    }
  }

  lemma {:induction false} CollisionLoses(actions: seq<Action>) returns (r: nat)
    requires !NoCollision(actions)
    ensures var s := Run(INITIAL, actions); Stored(s, r) && !Held(s, r)
  {
    var init, a := actions[..|actions| - 1], actions[|actions| - 1];
    var before := Run(INITIAL, init);
    RunKeepsInv(init);
    if NoCollision(init) {
      var code := before.requests[a.request].code;
      r := before.pending[code];
      assert PendingOk(code, r, before.requests);
      assert RequestOk(r, before.requests[r], before.pending, before.claims);
    } else {
      r := CollisionLoses(init);
      LostStays(before, a, r);
    }
  }

  /**
    Every stored request is pending or taken if and only if no prompt was ever
    stored under a code that was pending at that moment.
   */
  lemma {:induction false} NoneLostIff(actions: seq<Action>)
    ensures AllHeld(Run(INITIAL, actions)) <==> NoCollision(actions)
  {
    if NoCollision(actions) {
      RunKeepsHeld(actions);
    } else {
      var r := CollisionLoses(actions);
    }
  }

  predicate AllFinished(s: State) {
    forall d :: d in s.resolvers ==> s.resolvers[d].Missed? || s.resolvers[d].Replied?
  }

  /** Without such a collision, once its timer has run or was stopped and every resolver is done: exactly one verdict. */
  lemma {:induction false} ExactlyOneVerdict(actions: seq<Action>, r: nat)
    requires NoCollision(actions) && AllFinished(Run(INITIAL, actions))
    requires var s := Run(INITIAL, actions); Stored(s, r) && s.requests[r].timer in {Fired, Halted}
    ensures |VerdictsOn(Run(INITIAL, actions).verdicts, r)| == 1
  {
    var s := Run(INITIAL, actions);
    RunKeepsInv(actions);
    RunKeepsHeld(actions);
    VerdictsAreUnique(actions, r);
    assert RequestOk(r, s.requests[r], s.pending, s.claims);
    assert ClaimOk(r, s.claims[r], s.requests, s.resolvers);
  }

  /** A reply or a tap takes a request if and only if that request is what its code maps to at that moment. */
  lemma {:induction false} AnswerTakesIff(actions: seq<Action>, d: nat, code: Code, allow: bool, r: nat)
    requires Enabled(Run(INITIAL, actions), Answer(d, code, allow))
    ensures var s := Run(INITIAL, actions);
      var s' := Step(s, Answer(d, code, allow));
      && (r in s'.claims && r !in s.claims <==> code in s.pending && s.pending[code] == r)
      && (s'.resolvers[d] == Claimed(r, allow) <==> code in s.pending && s.pending[code] == r)
      && (s'.resolvers[d] == Missed <==> code !in s.pending)
  {
    var s := Run(INITIAL, actions);
    RunKeepsInv(actions);
    if code in s.pending {
      assert PendingOk(code, s.pending[code], s.requests);
      assert RequestOk(s.pending[code], s.requests[s.pending[code]], s.pending, s.claims);
    }
  }

  // ---------- why a verdict was given ----------

  /**
    Action `k` settled request `r`: it was refused as it came in; or its code was
    answered while it waited under it; or the timer of a request with that code ran
    out while it waited under it, which only denies.
   */
  ghost predicate SettledAt(actions: seq<Action>, k: int, r: nat, allow: bool) {
    && 0 <= k < |actions|
    && var s := Run(INITIAL, actions[..k]);
       match actions[k]
       case Refuse(q) => q == r && r !in s.requests && !allow
       case Answer(_, code, answer) => answer == allow && code in s.pending && s.pending[code] == r
       case Expire(_, q) =>
         && q in s.requests && s.requests[q].Asked? && s.requests[q].timer == Running
         && s.requests[q].code in s.pending && s.pending[s.requests[q].code] == r && !allow
       case _ => false
  }

  ghost predicate HasReason(actions: seq<Action>, r: nat, allow: bool) {
    exists k :: SettledAt(actions, k, r, allow)
  }

  ghost predicate AllReasoned(actions: seq<Action>, s: State) {
    && (forall d :: d in s.resolvers && !s.resolvers[d].Missed? ==>
          HasReason(actions, s.resolvers[d].request, s.resolvers[d].allow))
    && (forall v :: v in s.verdicts ==> HasReason(actions, v.request, v.allow))
  }

  lemma ReasonStays(actions: seq<Action>, a: Action, r: nat, allow: bool)
    requires HasReason(actions, r, allow)
    ensures HasReason(actions + [a], r, allow)
  {
    var k :| SettledAt(actions, k, r, allow);
    assert (actions + [a])[..k] == actions[..k];
    hide Run;
    assert SettledAt(actions + [a], k, r, allow);
  }

  lemma StaysReasoned(actions: seq<Action>, a: Action, s: State)
    requires AllReasoned(actions, s)
    ensures AllReasoned(actions + [a], s)
  {
    hide HasReason;
    forall d | d in s.resolvers && !s.resolvers[d].Missed?
      ensures HasReason(actions + [a], s.resolvers[d].request, s.resolvers[d].allow)
    {
      ReasonStays(actions, a, s.resolvers[d].request, s.resolvers[d].allow);
    }
    forall v | v in s.verdicts ensures HasReason(actions + [a], v.request, v.allow) {
      ReasonStays(actions, a, v.request, v.allow);
    }
  }

  /** The action just taken is a reason for whatever it claims or refuses. */
  lemma NewReason(actions: seq<Action>, a: Action, r: nat, allow: bool)
    requires var s := Run(INITIAL, actions);
      match a
      case Refuse(q) => q == r && r !in s.requests && !allow
      case Answer(_, code, answer) => answer == allow && code in s.pending && s.pending[code] == r
      case Expire(_, q) =>
        && q in s.requests && s.requests[q].Asked? && s.requests[q].timer == Running
        && s.requests[q].code in s.pending && s.pending[s.requests[q].code] == r && !allow
      case _ => false
    ensures HasReason(actions + [a], r, allow)
  {
    var n := |actions|;
    assert (actions + [a])[..n] == actions && (actions + [a])[n] == a;
    hide Run;
    assert SettledAt(actions + [a], n, r, allow);
  }

  lemma {:induction false} RunIsReasoned(actions: seq<Action>)
    ensures AllReasoned(actions, Run(INITIAL, actions))
  {
    if actions != [] {
      var n := |actions| - 1;
      var init, a := actions[..n], actions[n];
      var s := Run(INITIAL, init);
      RunIsReasoned(init);
      assert actions == init + [a];
      StaysReasoned(init, a, s);
      assert Run(INITIAL, actions) == Step(s, a);
      hide Run;
      if Enabled(s, a) {
        match a
        case Refuse(r) => NewReason(init, a, r, false);
        case Answer(_, code, allow) => if code in s.pending { NewReason(init, a, s.pending[code], allow); }
        case Expire(_, r) =>
          var code := s.requests[r].code;
          if code in s.pending { NewReason(init, a, s.pending[code], false); }
        case _ =>
      }
      hide HasReason;
    }
  }

  /**
    Over every run: no verdict without a reason. An approval in particular was
    given by an approving answer to the code under which the request was waiting.
   */
  lemma VerdictsHaveReasons(actions: seq<Action>, r: nat, allow: bool)
    requires Verdict(r, allow) in Run(INITIAL, actions).verdicts
    ensures HasReason(actions, r, allow)
    ensures allow ==> exists k ::
      && 0 <= k < |actions| && actions[k].Answer? && actions[k].allow
      && var pending := Run(INITIAL, actions[..k]).pending;
         actions[k].code in pending && pending[actions[k].code] == r
  {
    RunIsReasoned(actions);
    hide Run;
    assert HasReason(actions, Verdict(r, allow).request, Verdict(r, allow).allow);
    var k :| SettledAt(actions, k, r, allow);
  }

  // ---------- what is not promised ----------

  lemma RunIs(all: seq<Action>, n: nat, before: State)
    requires 0 < n <= |all| && Run(INITIAL, all[..n - 1]) == before
    ensures Run(INITIAL, all[..n]) == Step(before, all[n - 1])
  {
    assert all[..n][..n - 1] == all[..n - 1];
  }

  lemma Start(all: seq<Action>)
    ensures Run(INITIAL, all[..0]) == INITIAL
  {
  }

  const SENT := State(map[0 := Asked("c", false, NotSet)], map[], map[], [], map[])
  const TAPPED := SENT.(resolvers := map[0 := Missed])
  const ARMED := TAPPED.(requests := map[0 := Asked("c", true, Running)], pending := map["c" := 0])
  const DENIED := State(map[0 := Asked("c", true, Fired)], map[],
                        map[0 := Missed, 1 := Claimed(0, false)], [], map[0 := 1])

  /** The prompt can be tapped before it is stored: the approval is lost, and the timer takes the request to deny it. */
  lemma EarlyTapIsLost()
    ensures Run(INITIAL, [Send(0, "c"), Answer(0, "c", true), Store(0), Arm(0), Expire(1, 0)]) == DENIED
  {
    hide Run;
    var all := [Send(0, "c"), Answer(0, "c", true), Store(0), Arm(0), Expire(1, 0)];
    Start(all);
    RunIs(all, 1, INITIAL);
    assert Run(INITIAL, all[..1]) == SENT;
    RunIs(all, 2, SENT);
    assert Run(INITIAL, all[..2]) == TAPPED;
    RunIs(all, 3, TAPPED);
    RunIs(all, 4, Step(TAPPED, Store(0)));
    assert Run(INITIAL, all[..4]) == ARMED by { ArmTapped(); }
    RunIs(all, 5, ARMED);
    assert all[..5] == all;
    DenyArmed();
  }

  lemma ArmTapped()
    ensures Step(Step(TAPPED, Store(0)), Arm(0)) == ARMED
  {
    assert Step(TAPPED, Store(0)).requests[0] == Asked("c", true, NotSet);
  }

  lemma DenyArmed()
    ensures Step(ARMED, Expire(1, 0)) == DENIED
  {
    assert ARMED.pending["c"] == 0;
    assert Resolve(ARMED, 1, "c", false).pending == map[];
  }

  const CLASH := State(map[0 := Asked("c", true, NotSet), 1 := Asked("c", true, NotSet)],
                       map["c" := 1], map[], [], map[])

  /**
    Two prompts under one code: the second hides the first, and when the first one's
    timer runs it takes the second. The first is then nobody's.
   */
  lemma SameCodeLosesOne()
    ensures Run(INITIAL, [Send(0, "c"), Store(0), Send(1, "c"), Store(1)]) == CLASH
    ensures var s := Step(Step(CLASH, Arm(0)), Expire(0, 0));
      && 0 in s.requests && s.requests[0] == Asked("c", true, Fired)
      && s.pending == map[] && s.claims == map[1 := 0]
  {
    hide Run;
    var all := [Send(0, "c"), Store(0), Send(1, "c"), Store(1)];
    Start(all);
    RunIs(all, 1, INITIAL);
    assert Run(INITIAL, all[..1]) == SENT;
    RunIs(all, 2, SENT);
    var stored := SENT.(requests := map[0 := Asked("c", true, NotSet)], pending := map["c" := 0]);
    assert Run(INITIAL, all[..2]) == stored;
    RunIs(all, 3, stored);
    RunIs(all, 4, Step(stored, Send(1, "c")));
    assert all[..4] == all;
    ClashIs(stored);
    ClashExpires();
  }

  lemma ClashIs(stored: State)
    requires stored == SENT.(requests := map[0 := Asked("c", true, NotSet)], pending := map["c" := 0])
    ensures Step(Step(stored, Send(1, "c")), Store(1)) == CLASH
  {
    assert Step(stored, Send(1, "c")).requests[1] == Asked("c", false, NotSet);
  }

  lemma ClashExpires()
    ensures var s := Step(Step(CLASH, Arm(0)), Expire(0, 0));
      && 0 in s.requests && s.requests[0] == Asked("c", true, Fired)
      && s.pending == map[] && s.claims == map[1 := 0]
  {
    var armed := Step(CLASH, Arm(0));
    assert armed.requests[0] == Asked("c", true, Running) && armed.pending["c"] == 1;
  }
}
