/** What the approval protocol promises streams and deciders, over all schedules. */
module ApprovalGuarantees {
  import opened AtomicFs
  import opened Basics
  import opened ApprovalProtocol
  import opened Sequences
  import A = Approvals

  // ---------- streams ----------

  function CountCreated(events: seq<Event>, id: Id): nat {
    if events == [] then 0
    else
      var e := events[|events| - 1];
      CountCreated(events[..|events| - 1], id) + (if e.Created? && e.request.id == id then 1 else 0)
  }

  function OnlyRemoved(events: seq<Event>): seq<Event> {
    if events == [] then []
    else
      var e := events[|events| - 1];
      OnlyRemoved(events[..|events| - 1]) + (if e.Removed? then [e] else [])
  }

  lemma {:induction false} CountAppend(xs: seq<Event>, ys: seq<Event>, id: Id)
    ensures CountCreated(xs + ys, id) == CountCreated(xs, id) + CountCreated(ys, id)
    decreases |ys|
  {
    if ys == [] {
      assert xs + ys == xs;
    } else {
      CountAppend(xs, ys[..|ys| - 1], id);
      assert (xs + ys)[..|xs + ys| - 1] == xs + ys[..|ys| - 1];
    }
  }

  lemma {:induction false} OnlyRemovedAppend(xs: seq<Event>, ys: seq<Event>)
    ensures OnlyRemoved(xs + ys) == OnlyRemoved(xs) + OnlyRemoved(ys)
    decreases |ys|
  {
    if ys == [] {
      assert xs + ys == xs;
    } else {
      OnlyRemovedAppend(xs, ys[..|ys| - 1]);
      assert (xs + ys)[..|xs + ys| - 1] == xs + ys[..|ys| - 1];
    }
  }

  lemma {:induction false} NothingRemoved(found: seq<Request>)
    ensures OnlyRemoved(AsCreated(found)) == []
  {
    if found != [] {
      var n := |found| - 1;
      NothingRemoved(found[..n]);
      assert AsCreated(found)[..n] == AsCreated(found[..n]);
    }
  }

  lemma {:induction false} CountFound(found: seq<Request>, id: Id)
    requires Distinct(Ids(found))
    ensures CountCreated(AsCreated(found), id) == if id in Ids(found) then 1 else 0
  {
    if found != [] {
      var n := |found| - 1;
      assert Ids(found)[..n] == Ids(found[..n]);
      assert forall i, j :: 0 <= i < j < n ==> Ids(found)[i] != Ids(found)[j];
      CountFound(found[..n], id);
      assert AsCreated(found)[..n] == AsCreated(found[..n]);
      assert Ids(found) == Ids(found[..n]) + [found[n].id];
      if found[n].id == id {
        assert Ids(found)[n] == id;
        assert forall i :: 0 <= i < n ==> Ids(found[..n])[i] == Ids(found)[i] != Ids(found)[n];
      }
    }
  }

  lemma {:induction false} CountDistinct(events: seq<Event>, id: Id)
    requires forall i, j :: 0 <= i < j < |events| && events[i].Created? && events[j].Created? ==>
               events[i].request.id != events[j].request.id
    ensures CountCreated(events, id)
         == if exists e :: e in events && e.Created? && e.request.id == id then 1 else 0
  {
    if events != [] {
      var n := |events| - 1;
      var init := events[..n];
      CountDistinct(init, id);
      assert forall e :: e in events <==> e in init || e == events[n];
      if events[n].Created? && events[n].request.id == id {
        forall e | e in init && e.Created? ensures e.request.id != id {
          var i :| 0 <= i < n && init[i] == e;
          assert events[i] == e;
        }
      }
    }
  }

  /**
    A stream that lost nothing has written, or still has in its buffer, the records
    it rehydrated and then every event emitted since it subscribed, in order.
   */
  lemma {:induction false} StreamIsComplete(s: State, actions: seq<Action>, c: nat)
    requires Initial(s) && c in Run(s, actions).clients
    requires var client := Run(s, actions).clients[c]; !client.lossy && client.scan.Live?
    ensures var r := Run(s, actions);
      var client := r.clients[c];
      && c in r.hub && client.since <= |r.emitted|
      && client.out + r.hub[c] == AsCreated(client.scan.found) + r.emitted[client.since..]
      && OnlyRemoved(client.out + r.hub[c]) == OnlyRemoved(r.emitted[client.since..])
  {
    InitialInv(s);
    RunKeepsInv(s, actions);
    var r := Run(s, actions);
    var client := r.clients[c];
    assert ClientInv(client, r.hub[c], r.store, r.creations, r.emitted);
    OnlyRemovedAppend(AsCreated(client.scan.found), r.emitted[client.since..]);
    NothingRemoved(client.scan.found);
  }

  /** No approval is ever announced as removed twice. */
  lemma {:induction false} RemovedOnce(s: State, actions: seq<Action>)
    requires Initial(s)
    ensures var r := Run(s, actions);
      forall i, j :: 0 <= i < j < |r.emitted| && r.emitted[i].Removed? && r.emitted[j].Removed? ==>
        r.emitted[i].id != r.emitted[j].id
  {
    InitialInv(s);
    RunKeepsInv(s, actions);
  }

  /**
    How often a drained stream has shown an undecided approval: once if the
    directory listing had it, and once more if it was announced after subscribing.
    An announced one is shown once or twice; one whose save reported an error after
    the rename is shown only if it was listed.
   */
  lemma {:induction false} ShownCount(s: State, actions: seq<Action>, c: nat, id: Id)
    requires Initial(s) && c in Run(s, actions).clients && id in Run(s, actions).store
    requires var client := Run(s, actions).clients[c]; !client.lossy && client.scan.Live?
    requires c in Run(s, actions).hub && Run(s, actions).hub[c] == []
    ensures var r := Run(s, actions);
      var client := r.clients[c];
      var shown := CountCreated(client.out, id);
      && id in r.creations && client.since <= |r.emitted|
      && shown == (if id in client.names then 1 else 0)
                + (if Created(r.store[id]) in r.emitted[client.since..] then 1 else 0)
      && (r.creations[id].Announced? ==> 1 <= shown <= 2)
      && (r.creations[id].Unannounced? ==> (shown == 1 <==> id in client.names) && shown <= 1)
  {
    InitialInv(s);
    RunKeepsInv(s, actions);
    var r := Run(s, actions);
    ShownCountIn(r.clients[c], r.store, r.creations, r.emitted, id);
  }

  lemma ShownCountIn(client: Client, store: map<Id, Request>, creations: map<Id, Creation>, emitted: seq<Event>, id: Id)
    requires StoreInv(store, creations, emitted) && ClientInv(client, [], store, creations, emitted)
    requires id in store && !client.lossy && client.scan.Live?
    ensures var shown := CountCreated(client.out, id);
      && shown == (if id in client.names then 1 else 0)
                + (if Created(store[id]) in emitted[client.since..] then 1 else 0)
      && (creations[id].Announced? ==> 1 <= shown <= 2)
      && (creations[id].Unannounced? ==> (shown == 1 <==> id in client.names) && shown <= 1)
  {
    var found, late := client.scan.found, emitted[client.since..];
    assert client.out == client.out + [] == AsCreated(found) + late;
    CountAppend(AsCreated(found), late, id);
    CountFound(found, id);
    ListedWhenFound(client, store, creations, emitted, id);
    CountLate(client.since, store, creations, emitted, id);
    if creations[id].Announced? { AnnouncedSomewhere(client, store, creations, emitted, id); }
    hide StoreInv, ClientInv, CountCreated;
  }

  /** An approval still on disk was found by the walk exactly when it was listed. */
  lemma ListedWhenFound(client: Client, store: map<Id, Request>, creations: map<Id, Creation>, emitted: seq<Event>, id: Id)
    requires ClientInv(client, [], store, creations, emitted) && id in store && !client.lossy && client.scan.Live?
    ensures id in Ids(client.scan.found) <==> id in client.names
  {
    var found := client.scan.found;
    assert forall i :: 0 <= i < |found| ==> Ids(found)[i] == found[i].id;
  }

  lemma CountLate(since: nat, store: map<Id, Request>, creations: map<Id, Creation>, emitted: seq<Event>, id: Id)
    requires StoreInv(store, creations, emitted) && since <= |emitted| && id in store
    ensures CountCreated(emitted[since..], id) == if Created(store[id]) in emitted[since..] then 1 else 0
    ensures Created(store[id]) in emitted[since..] ==> creations[id].Announced?
  {
    var late := emitted[since..];
    assert forall i :: 0 <= i < |late| ==> late[i] == emitted[since + i];
    CountDistinct(late, id);
    forall e | e in late && e.Created? && e.request.id == id
      ensures e == Created(store[id]) && creations[id].Announced?
    {
      var i :| 0 <= i < |late| && late[i] == e;
      assert emitted[since + i] == e;
    }
  }

  /** An announced approval was announced after the subscription, or was there to be listed. */
  lemma AnnouncedSomewhere(client: Client, store: map<Id, Request>, creations: map<Id, Creation>, emitted: seq<Event>,
                           id: Id)
    requires StoreInv(store, creations, emitted) && ClientInv(client, [], store, creations, emitted)
    requires id in store && !client.lossy && client.scan.Live? && creations[id].Announced?
    ensures Created(store[id]) in emitted[client.since..] || id in client.names
  {
    var e := Created(store[id]);
    assert emitted == emitted[..client.since] + emitted[client.since..];
    assert e in emitted;
    if e in emitted[..client.since] {
      assert e.request.id == id;
    }
  }

  /** An approval nobody is told about: the save fails after its rename, the record stays. */
  lemma SilentApproval(s: State, request: Request) returns (r: State)
    requires Initial(s) && s.store == map[] && s.creations == map[]
    ensures r == Step(Step(Step(Step(s, Subscribe(0)), ReadDir(0, [], false)), Rehydrate(0)), Save(request, SyncFails))
    ensures request.id in r.store && r.creations[request.id].Unannounced?
    ensures r.clients == map[0 := Client(Live([]), 0, [], [], false)] && r.hub == map[0 := []]
  {
    var s3 := QuietStream(s);
    hide ClientStep;
    r := SaveStep(s3, request, SyncFails);
  }

  /** A stream on an empty store: subscribed, nothing listed, live. */
  lemma QuietStream(s: State) returns (r: State)
    requires Initial(s) && s.store == map[]
    ensures r == Step(Step(Step(s, Subscribe(0)), ReadDir(0, [], false)), Rehydrate(0))
    ensures r.clients == map[0 := Client(Live([]), 0, [], [], false)] && r.hub == map[0 := []]
    ensures r.store == s.store && r.creations == s.creations
  {
    var s1 := Step(s, Subscribe(0));
    assert s1.clients == map[0 := Client(Subscribed, 0, [], [], false)] && s1.hub == map[0 := []];
    var s2 := Step(s1, ReadDir(0, [], false));
    assert s2.clients == map[0 := Client(Scanning([], []), 0, [], [], false)];
    r := Step(s2, Rehydrate(0));
    assert AsCreated([]) == [];
  }

  // ---------- deciders ----------

  predicate StoreFault(a: Action) {
    (a.Load? && a.readFails) || (a.Delete? && a.removeFails)
  }

  ghost predicate NoStoreError(s: State) {
    forall d :: d in s.deciders ==> s.deciders[d].phase != Finished(StoreError)
  }

  lemma StoreErrorOnlyFromFault(s: State, a: Action)
    requires NoStoreError(s) && !StoreFault(a)
    ensures NoStoreError(Step(s, a))
  {
  }

  lemma {:induction false} StoreErrorNeedsFault(s: State, actions: seq<Action>)
    requires Initial(s) && forall i :: 0 <= i < |actions| ==> !StoreFault(actions[i])
    ensures NoStoreError(Run(s, actions))
  {
    if actions != [] {
      StoreErrorNeedsFault(s, actions[..|actions| - 1]);
      StoreErrorOnlyFromFault(Run(s, actions[..|actions| - 1]), actions[|actions| - 1]);
    }
  }

  /** Every approval is decided once: its handler runs at most once, and only one decider gets past the delete. */
  lemma {:induction false} DecidedOnce(s: State, actions: seq<Action>)
    requires Initial(s)
    ensures var r := Run(s, actions);
      && Distinct(r.runs)
      && (forall d, d' :: d in r.deciders && d' in r.deciders && d != d' && r.deciders[d].id == r.deciders[d'].id ==>
            !(Past(r.deciders[d].phase) && Past(r.deciders[d'].phase)))
  {
    InitialInv(s);
    RunKeepsInv(s, actions);
    var r := Run(s, actions);
    forall d, d' | d in r.deciders && d' in r.deciders && d != d' && r.deciders[d].id == r.deciders[d'].id
      ensures !(Past(r.deciders[d].phase) && Past(r.deciders[d'].phase))
    {
      assert DeciderOk(d, r.deciders[d], r.creations, r.registered, r.claims);
      assert DeciderOk(d', r.deciders[d'], r.creations, r.registered, r.claims);
    }
  }

  /**
    A decider that finishes without having deleted the record is told not-found (or
    its own store error) and has no effect; the one that deleted it ran the handler
    and emitted one removed event with its decision and the handler's error text,
    unless the kind has no handler.
   */
  lemma {:induction false} DecidersSettle(s: State, actions: seq<Action>, d: nat)
    requires Initial(s) && d in Run(s, actions).deciders && Run(s, actions).deciders[d].phase.Finished?
    ensures Settled(Run(s, actions), d)
  {
    InitialInv(s);
    RunKeepsInv(s, actions);
    SettledHolds(Run(s, actions), d);
  }

  /** A failed decision is announced like a success only if the handler's error text is empty. */
  lemma {:induction false} FailureShows(s: State, actions: seq<Action>, d: nat, e: Event)
    requires Initial(s) && d in Run(s, actions).deciders && Run(s, actions).deciders[d].phase.Finished?
    requires Run(s, actions).deciders[d].phase.outcome.Returned?
    requires e in Run(s, actions).emitted && e.Removed? && e.id == Run(s, actions).deciders[d].id
    ensures var error := Run(s, actions).deciders[d].phase.outcome.error;
      e.error == "" <==> error == None || error == Some("")
  {
    DecidersSettle(s, actions, d);
  }

  ghost predicate Settled(r: State, d: nat)
    requires d in r.deciders && r.deciders[d].phase.Finished?
  {
    var decider := r.deciders[d];
    match decider.phase.outcome
    case NotFound | StoreError => forall id :: id in r.claims ==> r.claims[id] != d
    case UnknownKind =>
      && decider.request.Some? && decider.request.value.kind !in r.registered
      && decider.id !in r.store && decider.id !in r.runs
      && forall e :: e in r.emitted && e.Removed? ==> e.id != decider.id
    case Returned(error) =>
      && decider.request.Some? && decider.request.value.kind in r.registered
      && decider.id !in r.store && decider.id in r.runs
      && (exists e :: e in r.emitted && e.Removed? && e.id == decider.id)
      && forall e :: e in r.emitted && e.Removed? && e.id == decider.id ==>
           && e.decision == decider.decision
           && (match error case None => e.error == "" case Some(text) => e.error == text)
  }

  lemma SettledHolds(r: State, d: nat)
    requires Inv(r) && d in r.deciders && r.deciders[d].phase.Finished?
    ensures Settled(r, d)
  {
    var decider := r.deciders[d];
    assert DeciderOk(d, decider, r.creations, r.registered, r.claims);
    assert RunOk(d, decider, r.runs) && ToldOk(d, decider, r.emitted);
    forall e | e in r.emitted && e.Removed? ensures RemovedOk(e, r.deciders, r.claims) {
      var i :| 0 <= i < |r.emitted| && r.emitted[i] == e;
    }
    forall id | id in r.claims ensures ClaimOk(id, r.claims[id], r.store, r.creations, r.deciders) {}
  }

  /** The card that comes back: a removal can be emitted before the creation it belongs to. */
  lemma RemovedBeforeCreated(s: State, request: Request) returns (r: State)
    requires Initial(s) && s.store == map[] && s.creations == map[] && request.kind in s.registered
    ensures var claimed :=
        Step(Step(Step(s, Save(request, NoFault)), Load(0, request.id, "deny", false)), Delete(0, false));
      r == Step(Step(Step(claimed, Handle(0, None)), EmitRemoved(0)), Announce(request.id))
    ensures r.emitted == [Removed(request.id, "deny", ""), Created(request)]
  {
    var claimed := DecidedEarly(s, request);
    var s4 := HandleStep(claimed, 0, None);
    assert Step(claimed, Handle(0, None)) == s4;
    var s5 := EmitRemovedStep(s4, 0);
    assert Step(s4, EmitRemoved(0)) == s5;
    r := AnnounceStep(s5, request.id);
  }

  lemma DecidedEarly(s: State, request: Request) returns (claimed: State)
    requires Initial(s) && s.store == map[] && s.creations == map[] && request.kind in s.registered
    ensures claimed == Step(Step(Step(s, Save(request, NoFault)), Load(0, request.id, "deny", false)), Delete(0, false))
    ensures claimed.registered == s.registered && claimed.emitted == []
    ensures claimed.clients == map[] && claimed.hub == map[]
    ensures claimed.creations == map[request.id := ToAnnounce(request)]
    ensures claimed.deciders == map[0 := Decider(request.id, "deny", Some(request), Claimed)]
  {
    var s1 := SaveStep(s, request, NoFault);
    assert Step(s, Save(request, NoFault)) == s1;
    var s2 := LoadStep(s1, 0, request.id, "deny", false);
    assert Step(s1, Load(0, request.id, "deny", false)) == s2;
    claimed := DeleteStep(s2, 0, false);
  }

  // ---------- created before removed ----------

  /** Every removal of this approval comes after its announcement. */
  ghost predicate CreatedFirst(emitted: seq<Event>, id: Id) {
    forall j :: 0 <= j < |emitted| && emitted[j].Removed? && emitted[j].id == id ==>
      exists i :: 0 <= i < j && emitted[i].Created? && emitted[i].request.id == id
  }

  lemma ClientStepExtends(s: State, a: Action)
    requires Enabled(s, a) && OfClient(a)
    ensures var s' := ClientStep(s, a);
      s'.emitted == s.emitted && s'.registered == s.registered && s'.creations == s.creations
  {
  }

  lemma StepExtends(s: State, a: Action, id: Id)
    requires id in s.creations
    ensures var s' := Step(s, a);
      && s.emitted <= s'.emitted && s'.registered == s.registered
      && id in s'.creations && s'.creations[id].request == s.creations[id].request
  {
    hide ClientStep;
    if Enabled(s, a) && OfClient(a) { ClientStepExtends(s, a); }
  }

  lemma {:induction false} RunExtends(s: State, more: seq<Action>, id: Id)
    requires id in s.creations
    ensures var r := Run(s, more);
      && s.emitted <= r.emitted && r.registered == s.registered
      && id in r.creations && r.creations[id].request == s.creations[id].request
  {
    hide Step;
    if more != [] {
      RunExtends(s, more[..|more| - 1], id);
      StepExtends(Run(s, more[..|more| - 1]), more[|more| - 1], id);
    }
  }

  /** A stored approval has not been announced as removed. */
  lemma StoredNotRemoved(s: State, id: Id)
    requires Inv(s) && id in s.store
    ensures forall e :: e in s.emitted && e.Removed? ==> e.id != id
  {
    forall e | e in s.emitted && e.Removed? ensures e.id != id {
      var i :| 0 <= i < |s.emitted| && s.emitted[i] == e;
      assert RemovedOk(s.emitted[i], s.deciders, s.claims);
      assert ClaimOk(e.id, s.claims[e.id], s.store, s.creations, s.deciders);
    }
  }

  lemma AnnouncedComesFirst(s: State, id: Id, more: seq<Action>)
    requires Inv(s) && id in s.store && s.creations[id].Announced?
    ensures CreatedFirst(Run(s, more).emitted, id)
  {
    RunExtends(s, more, id);
    StoredNotRemoved(s, id);
    hide Inv;
    var emitted := Run(s, more).emitted;
    var e := Created(s.creations[id].request);
    assert e in s.emitted && e.request.id == id by { AnnouncedWasEmitted(s, id); }
    var k :| 0 <= k < |s.emitted| && s.emitted[k] == e;
    assert emitted[k] == e;
    assert forall j :: 0 <= j < |s.emitted| ==> emitted[j] == s.emitted[j] && s.emitted[j] in s.emitted;
    assert forall j :: 0 <= j < |emitted| && emitted[j].Removed? && emitted[j].id == id ==> |s.emitted| <= j;
  }

  lemma AnnouncedWasEmitted(s: State, id: Id)
    requires Inv(s) && id in s.creations && s.creations[id].Announced?
    ensures Created(s.creations[id].request) in s.emitted && s.creations[id].request.id == id
  {
  }

  /** Without a handler for its kind an approval is never announced as removed. */
  lemma UnknownKindNeverRemoved(s: State, id: Id, more: seq<Action>)
    requires Inv(s) && id in s.creations && s.creations[id].request.kind !in s.registered
    ensures CreatedFirst(Run(s, more).emitted, id)
  {
    RunExtends(s, more, id);
    RunKeepsInv(s, more);
    var r := Run(s, more);
    forall j | 0 <= j < |r.emitted| && r.emitted[j].Removed? ensures r.emitted[j].id != id {
      assert RemovedOk(r.emitted[j], r.deciders, r.claims);
      var d := r.claims[r.emitted[j].id];
      assert DeciderOk(d, r.deciders[d], r.creations, r.registered, r.claims);
    }
  }

  lemma {:induction false} FreshNumber(used: set<nat>) returns (n: nat)
    ensures n !in used && forall m :: m in used ==> m < n
  {
    if used == {} {
      n := 0;
    } else {
      var m :| m in used;
      var k := FreshNumber(used - {m});
      assert forall x :: x in used ==> x == m || x in used - {m};
      n := if m < k then k else m + 1;
    }
  }

  function DecideNow(d: nat, id: Id): seq<Action> {
    [Load(d, id, "deny", false), Delete(d, false), Handle(d, None), EmitRemoved(d)]
  }

  lemma RunOfFour(s: State, d: nat, id: Id)
    ensures Run(s, DecideNow(d, id))
      == Step(Step(Step(Step(s, Load(d, id, "deny", false)), Delete(d, false)), Handle(d, None)), EmitRemoved(d))
  {
    hide Step;
    var a := DecideNow(d, id);
    assert a[..3][..2] == a[..2] && a[..2][..1] == a[..1] && a[..1][..0] == [];
    assert Run(s, a[..1]) == Step(s, a[0]);
    assert Run(s, a[..2]) == Step(Run(s, a[..1]), a[1]);
    assert Run(s, a[..3]) == Step(Run(s, a[..2]), a[2]);
  }

  /** A decision taken now announces the removal first when the creation has not been announced. */
  lemma DecidedTooEarly(s: State, id: Id) returns (more: seq<Action>)
    requires Inv(s) && id in s.store && !s.creations[id].Announced? && s.creations[id].request.kind in s.registered
    ensures !CreatedFirst(Run(s, more).emitted, id)
  {
    var d := FreshNumber(s.deciders.Keys);
    more := DecideNow(d, id);
    RunOfFour(s, d, id);
    A.DecideIsItsSteps(s, d, id, "deny", A.Weather(false, false, None));
    hide Step, Run;
    assert s.store[id] == s.creations[id].request;
    var emitted := Run(s, more).emitted;
    assert emitted == s.emitted + [Removed(id, "deny", "")];
    var j := |s.emitted|;
    assert emitted[j].Removed? && emitted[j].id == id;
    forall i | 0 <= i < j ensures !(emitted[i].Created? && emitted[i].request.id == id) {
      assert emitted[i] == s.emitted[i];
    }
  }

  /**
    From any reachable state with the approval still on disk: every continuation
    announces its creation before its removal if and only if the creation has been
    announced already, or no handler is registered for its kind.
   */
  lemma {:induction false} CreatedFirstIff(s: State, actions: seq<Action>, id: Id)
    requires Initial(s) && id in Run(s, actions).store
    ensures var r := Run(s, actions);
      && id in r.creations
      && ((forall more :: CreatedFirst(Run(r, more).emitted, id)) <==>
            (r.creations[id].Announced? || r.creations[id].request.kind !in r.registered))
  {
    InitialInv(s);
    RunKeepsInv(s, actions);
    var r := Run(s, actions);
    assert id in r.creations;
    if r.creations[id].Announced? {
      forall more ensures CreatedFirst(Run(r, more).emitted, id) { AnnouncedComesFirst(r, id, more); }
    } else if r.creations[id].request.kind !in r.registered {
      forall more ensures CreatedFirst(Run(r, more).emitted, id) { UnknownKindNeverRemoved(r, id, more); }
    } else {
      var more := DecidedTooEarly(r, id);
    }
  }
}
