/**
  The approval objects as the daemon holds them, each call running alone: the
  store, the dispatcher, the expiry prune and the opening of an event stream.
 */
module Approvals {
  import opened AtomicFs
  import opened Basics
  import opened ApprovalProtocol
  import opened Sequences
  import Hub

  class Store {
    var files: map<Id, Request>

    ghost predicate Valid()
      reads this
    {
      forall id :: id in files ==> files[id].id == id
    }

    constructor ()
      ensures Valid() && files == map[]
    {
      files := map[];
    }

    /** Atomic write: the record appears with the rename, even if the directory sync then fails. */
    method Save(request: Request, fault: Fault) returns (ok: bool)
      requires Valid() && WriteOutcome(fault) != Crashed
      modifies this
      ensures Valid()
      ensures ok <==> WriteOutcome(fault) == Done
      ensures files == if PastRename(fault) then old(files)[request.id := request] else old(files)
    {
      if PastRename(fault) {
        files := files[request.id := request];
      }
      ok := WriteOutcome(fault) == Done;
    }

    method Remove(id: Id) returns (found: bool)
      requires Valid()
      modifies this
      ensures Valid()
      ensures found <==> id in old(files)
      ensures files == old(files) - {id}
    {
      found := id in files;
      files := files - {id};
    }

    /** Every readable record once, in no particular order. */
    method List(unreadable: set<Id>) returns (out: seq<Request>)
      requires Valid()
      ensures Distinct(Ids(out))
      ensures forall r :: r in out <==> r.id in files && r.id !in unreadable && files[r.id] == r
    {
      out := [];
      var todo := files.Keys;
      while todo != {}
        invariant todo <= files.Keys
        invariant Distinct(Ids(out))
        invariant forall r :: r in out <==>
          r.id in files && r.id !in todo && r.id !in unreadable && files[r.id] == r
      {
        var id :| id in todo;
        todo := todo - {id};
        if id in unreadable { continue; }
        assert Ids(out + [files[id]]) == Ids(out) + [id];
        assert forall i :: 0 <= i < |out| ==> Ids(out)[i] == out[i].id && out[i] in out;
        out := out + [files[id]];
      }
    }
  }

  /** What a decision may run into: the faults of the store and the answer of the kind's handler. */
  datatype Weather = Weather(readFails: bool, removeFails: bool, handlerError: Option<string>)

  /** The first drawn id not on disk; none once a draw fails. An id that cannot be looked up counts as taken. */
  function FirstFree(drawn: seq<Option<Id>>, statFails: set<Id>, files: map<Id, Request>): (id: Option<Id>)
    ensures id.Some? ==> id in drawn && id.value !in files && id.value !in statFails
    ensures id == None ==>
      None in drawn || forall i :: 0 <= i < |drawn| ==> drawn[i].value in files || drawn[i].value in statFails
  {
    if drawn == [] || drawn[0] == None then None
    else if drawn[0].value !in files && drawn[0].value !in statFails then drawn[0]
    else FirstFree(drawn[1..], statFails, files)
  }

  function StoredAfter(files: map<Id, Request>, r: Request, fault: Fault): map<Id, Request> {
    if PastRename(fault) then files[r.id := r] else files
  }

  ghost function HubAfter(clients: map<nat, seq<Event>>, r: Request, fault: Fault): map<nat, seq<Event>> {
    if WriteOutcome(fault) == Done then Hub.EmittedTo(clients, Created(r)) else clients
  }

  /** What a decision comes to when nothing else runs. */
  function Verdict(files: map<Id, Request>, handlers: set<string>, id: Id, w: Weather): ApprovalProtocol.Outcome {
    if w.readFails then StoreError
    else if id !in files then NotFound
    else if w.removeFails then StoreError
    else if files[id].kind !in handlers then UnknownKind
    else Returned(w.handlerError)
  }

  predicate Cleared(outcome: ApprovalProtocol.Outcome) { outcome.UnknownKind? || outcome.Returned? }

  lemma FinishedStays(s: State, d: nat, removeFails: bool, error: Option<string>)
    requires d in s.deciders && s.deciders[d].phase.Finished?
    ensures Step(s, Delete(d, removeFails)) == Step(s, Handle(d, error)) == Step(s, EmitRemoved(d)) == s
  {
  }

  lemma LoadAndDelete(s: State, d: nat, id: Id, decision: string, w: Weather)
    requires d !in s.deciders
    ensures var s' := Step(Step(s, Load(d, id, decision, w.readFails)), Delete(d, w.removeFails));
      var outcome := Verdict(s.store, s.registered, id, w);
      && d in s'.deciders && s'.registered == s.registered && s'.runs == s.runs && s'.hub == s.hub
      && s'.emitted == s.emitted
      && s'.store == (if Cleared(outcome) then s.store - {id} else s.store)
      && if Cleared(outcome) then s'.deciders[d] == Decider(id, decision, Some(s.store[id]), Claimed)
         else s'.deciders[d].phase == Finished(outcome)
  {
    var s1 := Step(s, Load(d, id, decision, w.readFails));
    if s1.deciders[d].phase.Finished? {
      FinishedStays(s1, d, w.removeFails, None);
    }
  }

  lemma EmitIsItsStep(s: State, d: nat)
    requires d in s.deciders && s.deciders[d].phase.Handled?
    ensures var s' := Step(s, EmitRemoved(d));
      var decider := s.deciders[d];
      && d in s'.deciders && s'.deciders[d].phase == Finished(Returned(decider.phase.error))
      && s'.store == s.store && s'.runs == s.runs
      && s'.hub == Hub.EmittedTo(s.hub, Removed(decider.id, decider.decision, ErrorText(decider.phase.error)))
      && s'.emitted == s.emitted + [Removed(decider.id, decider.decision, ErrorText(decider.phase.error))]
  {
    hide Hub.EmittedTo;
    assert Step(s, EmitRemoved(d)) == EmitRemovedStep(s, d);
  }

  lemma HandleIsItsStep(s: State, d: nat, error: Option<string>)
    requires d in s.deciders && s.deciders[d].phase.Claimed?
    ensures Step(s, Handle(d, error)) == HandleStep(s, d, error)
  {
  }

  lemma HandleAndEmit(s: State, d: nat, error: Option<string>)
    requires d in s.deciders && s.deciders[d].phase.Claimed? && s.deciders[d].request.Some?
    ensures var s' := Step(Step(s, Handle(d, error)), EmitRemoved(d));
      var decider := s.deciders[d];
      var known := decider.request.value.kind in s.registered;
      && d in s'.deciders && s'.deciders[d].phase == Finished(if known then Returned(error) else UnknownKind)
      && s'.store == s.store
      && s'.runs == (if known then s.runs + [decider.id] else s.runs)
      && s'.hub == (if known then Hub.EmittedTo(s.hub, Removed(decider.id, decider.decision, ErrorText(error)))
                    else s.hub)
      && s'.emitted == s.emitted + (if known then [Removed(decider.id, decider.decision, ErrorText(error))] else [])
  {
    hide Hub.EmittedTo, ErrorText, Step;
    var s1 := Step(s, Handle(d, error));
    HandleIsItsStep(s, d, error);
    if s1.deciders[d].phase.Finished? {
      FinishedStays(s1, d, false, error);
    } else {
      EmitIsItsStep(s1, d);
    }
  }

  /** The four steps of a decision, taken without interruption, do what the method does. */
  lemma {:induction false} DecideIsItsSteps(s: State, d: nat, id: Id, decision: string, w: Weather)
    requires d !in s.deciders
    ensures var s' := Step(Step(Step(Step(s, Load(d, id, decision, w.readFails)), Delete(d, w.removeFails)),
                                Handle(d, w.handlerError)), EmitRemoved(d));
      var outcome := Verdict(s.store, s.registered, id, w);
      && d in s'.deciders && s'.deciders[d].phase == Finished(outcome)
      && s'.store == (if Cleared(outcome) then s.store - {id} else s.store)
      && s'.runs == (if outcome.Returned? then s.runs + [id] else s.runs)
      && s'.hub == (if outcome.Returned? then Hub.EmittedTo(s.hub, Removed(id, decision, ErrorText(w.handlerError)))
                    else s.hub)
      && s'.emitted == s.emitted
           + (if outcome.Returned? then [Removed(id, decision, ErrorText(w.handlerError))] else [])
  {
    hide Step, Hub.EmittedTo;
    var s2 := Step(Step(s, Load(d, id, decision, w.readFails)), Delete(d, w.removeFails));
    LoadAndDelete(s, d, id, decision, w);
    if Cleared(Verdict(s.store, s.registered, id, w)) {
      HandleAndEmit(s2, d, w.handlerError);
    } else {
      FinishedStays(s2, d, false, w.handlerError);
    }
  }

  /** The part of a log after an old end, when one more entry comes in. */
  lemma NoteRun<T>(log: seq<T>, before: seq<T>, after: seq<T>, entry: T, noted: bool)
    requires log <= before && after == if noted then before + [entry] else before
    ensures log <= after && after[|log|..] == if noted then before[|log|..] + [entry] else before[|log|..]
    ensures forall e :: e in after[|log|..] <==> e in before[|log|..] || (noted && e == entry)
    ensures Distinct(before[|log|..]) && entry !in before[|log|..] ==> Distinct(after[|log|..])
  {
  }

  lemma NothingNoted<T>(log: seq<T>)
    ensures log[|log|..] == [] && Distinct(log[|log|..])
  {
  }

  /** The two steps of a creation, taken without interruption, do what the method does. */
  lemma {:induction false} CreateIsItsSteps(s: State, r: Request, fault: Fault)
    requires r.id !in s.creations && WriteOutcome(fault) != Crashed
    ensures var s' := Step(Step(s, Save(r, fault)), Announce(r.id));
      && s'.store == StoredAfter(s.store, r, fault)
      && s'.hub == HubAfter(s.hub, r, fault)
  {
    var s1 := Step(s, Save(r, fault));
    assert s1.creations[r.id] == if WriteOutcome(fault) == Done then ToAnnounce(r) else Unannounced(r);
  }

  /** The event tells subscribers what was decided and what the handler said: nothing, or its error text. */
  predicate Announces(e: Event, id: Id, decision: string, error: Option<string>) {
    && e.Removed? && e.id == id && e.decision == decision
    && (match error case None => e.error == "" case Some(text) => e.error == text)
  }

  /** One event for each handler run since the logs were as given, in the same order. */
  predicate AllAnnounced(ran: seq<(Id, string)>, log: seq<(Id, string)>, sent: seq<Event>, sentLog: seq<Event>,
                         weather: Id -> Weather)
  {
    && log <= ran && sentLog <= sent && |sent| - |sentLog| == |ran| - |log|
    && forall k :: |log| <= k < |ran| ==>
         Announces(sent[k - |log| + |sentLog|], ran[k].0, ran[k].1, weather(ran[k].0).handlerError)
  }

  lemma NothingAnnounced(log: seq<(Id, string)>, sentLog: seq<Event>, weather: Id -> Weather)
    ensures AllAnnounced(log, log, sentLog, sentLog, weather)
  {
  }

  lemma AnnouncedNext(ran: seq<(Id, string)>, log: seq<(Id, string)>, sent: seq<Event>, sentLog: seq<Event>,
                      weather: Id -> Weather, id: Id, e: Event)
    requires AllAnnounced(ran, log, sent, sentLog, weather) && Announces(e, id, "deny", weather(id).handlerError)
    ensures AllAnnounced(ran + [(id, "deny")], log, sent + [e], sentLog, weather)
  {
    hide Announces;
  }

  class Dispatcher {
    const store: Store
    const hub: Hub.EventHub<Event>
    var handlers: set<string>
    ghost var ran: seq<(Id, string)> // handler invocations: approval and decision

    ghost predicate Valid()
      reads this, store, hub
    {
      store.Valid() && hub.Valid()
    }

    constructor (store: Store, hub: Hub.EventHub<Event>, handlers: set<string>)
      requires store.Valid() && hub.Valid()
      ensures Valid() && this.store == store && this.hub == hub && this.handlers == handlers && ran == []
    {
      this.store, this.hub, this.handlers := store, hub, handlers;
      ran := [];
    }

    /** The first of the drawn ids that is not on disk; gives up after sixteen, or when a draw fails. */
    method NewUniqueId(drawn: seq<Option<Id>>, statFails: set<Id>) returns (id: Option<Id>)
      requires |drawn| == 16
      ensures id == FirstFree(drawn, statFails, store.files)
      ensures id.Some? ==> exists i ::
        && 0 <= i < 16 && drawn[i] == id && id.value !in store.files && id.value !in statFails
        && forall j :: 0 <= j < i ==> drawn[j].Some? && (drawn[j].value in store.files || drawn[j].value in statFails)
      ensures id == None ==>
        || (forall j :: 0 <= j < 16 ==> drawn[j].Some? && (drawn[j].value in store.files || drawn[j].value in statFails))
        || exists i ::
             && 0 <= i < 16 && drawn[i] == None
             && forall j :: 0 <= j < i ==> drawn[j].Some? && (drawn[j].value in store.files || drawn[j].value in statFails)
    {
      assert drawn[0..] == drawn;
      for i := 0 to 16
        invariant FirstFree(drawn[i..], statFails, store.files) == FirstFree(drawn, statFails, store.files)
        invariant forall j :: 0 <= j < i ==> drawn[j].Some? && (drawn[j].value in store.files || drawn[j].value in statFails)
      {
        assert drawn[i..][1..] == drawn[i + 1..];
        if drawn[i] == None { return None; }
        if drawn[i].value !in store.files && drawn[i].value !in statFails {
          return drawn[i];
        }
      }
      return None;
    }

    /** Saves, then announces; nothing is announced when the save reports an error, even past the rename. */
    method Create(kind: string, title: string, body: string, actions: seq<string>, payload: string,
                  ttl: int, now: int, drawn: seq<Option<Id>>, statFails: set<Id>, fault: Fault)
        returns (request: Option<Request>)
      requires Valid() && |drawn| == 16 && WriteOutcome(fault) != Crashed
      modifies store, hub
      ensures Valid()
      ensures match FirstFree(drawn, statFails, old(store.files))
        case None => request == None && store.files == old(store.files) && hub.clients == old(hub.clients)
        case Some(id) =>
          var r := Request(id, kind, title, body, actions, payload, now,
                           Some(now + (if ttl == 0 then 24 * 3600 else ttl)));
          && request == (if WriteOutcome(fault) == Done then Some(r) else None)
          && store.files == StoredAfter(old(store.files), r, fault)
          && hub.clients == HubAfter(old(hub.clients), r, fault)
      ensures request.Some? ==>
        && request.value.id !in old(store.files) && store.files == old(store.files)[request.value.id := request.value]
        && forall c :: c in hub.clients && c in old(hub.clients) && |old(hub.clients)[c]| < 64 ==>
             hub.clients[c] == old(hub.clients)[c] + [Created(request.value)]
      ensures request == None ==> hub.clients == old(hub.clients)
    {
      var life := if ttl == 0 then 24 * 3600 else ttl;
      var id := NewUniqueId(drawn, statFails);
      if id == None { return None; }
      var r := Request(id.value, kind, title, body, actions, payload, now, Some(now + life));
      var ok := store.Save(r, fault);
      if !ok { return None; }
      hub.Emit(Created(r));
      return Some(r);
    }

    /** Deletes before it handles, so that the record is gone whatever the handler does. */
    method Decide(id: Id, decision: string, w: Weather) returns (outcome: ApprovalProtocol.Outcome)
      requires Valid()
      modifies this, store, hub
      ensures Valid() && handlers == old(handlers)
      ensures outcome == Verdict(old(store.files), handlers, id, w)
      ensures store.files == if Cleared(outcome) then old(store.files) - {id} else old(store.files)
      ensures ran == if outcome.Returned? then old(ran) + [(id, decision)] else old(ran)
      ensures hub.clients ==
        if outcome.Returned? then Hub.EmittedTo(old(hub.clients), Removed(id, decision, ErrorText(w.handlerError)))
        else old(hub.clients)
      ensures outcome == NotFound <==> !w.readFails && id !in old(store.files)
      ensures outcome == StoreError <==> w.readFails || (id in old(store.files) && w.removeFails)
      ensures outcome.Returned? ==> outcome.error == w.handlerError && old(store.files)[id].kind in handlers
      ensures outcome.UnknownKind? ==> id in old(store.files) && old(store.files)[id].kind !in handlers
      ensures !outcome.Returned? ==> hub.sent == old(hub.sent)
      ensures outcome.Returned? ==>
        && |hub.sent| == |old(hub.sent)| + 1 && hub.sent == old(hub.sent) + [hub.sent[|old(hub.sent)|]]
        && Announces(hub.sent[|old(hub.sent)|], id, decision, w.handlerError)
        && hub.clients == Hub.EmittedTo(old(hub.clients), hub.sent[|old(hub.sent)|])
    {
      if w.readFails { return StoreError; }
      if id !in store.files { return NotFound; }
      var request := store.files[id];
      if w.removeFails { return StoreError; }
      var found := store.Remove(id);
      if !found { return NotFound; }
      if request.kind !in handlers { return UnknownKind; }
      ran := ran + [(id, decision)];
      hub.Emit(Removed(id, decision, ErrorText(w.handlerError)));
      return Returned(w.handlerError);
    }

    /** What the prune gets to deny: expired, and claimed without a store fault. */
    static predicate Overdue(r: Request, now: int, w: Weather) {
      r.expiresAt.Some? && r.expiresAt.value <= now && !w.readFails && !w.removeFails
    }

    /** One round of the prune's loop: a stored record that has expired is denied like by an operator. */
    method DenyExpired(r: Request, now: int, w: Weather) returns (denied: bool)
      requires Valid() && r.id in store.files && store.files[r.id] == r
      modifies this, store, hub
      ensures Valid() && handlers == old(handlers) && denied == Overdue(r, now, w)
      ensures store.files == if denied then old(store.files) - {r.id} else old(store.files)
      ensures ran == if denied && r.kind in handlers then old(ran) + [(r.id, "deny")] else old(ran)
      ensures !(denied && r.kind in handlers) ==> hub.sent == old(hub.sent)
      ensures denied && r.kind in handlers ==>
        && |hub.sent| == |old(hub.sent)| + 1 && hub.sent == old(hub.sent) + [hub.sent[|old(hub.sent)|]]
        && Announces(hub.sent[|old(hub.sent)|], r.id, "deny", w.handlerError)
    {
      hide Hub.EmittedTo, ErrorText, Announces;
      if r.expiresAt == None || r.expiresAt.value > now { return false; }
      var outcome := Decide(r.id, "deny", w);
      return Cleared(outcome);
    }

    /** The prune's loop over the records it listed. */
    method DenyEach(pending: seq<Request>, now: int, weather: Id -> Weather) returns (gone: set<Id>)
      requires Valid() && forall i, j :: 0 <= i < j < |pending| ==> pending[i].id != pending[j].id
      requires forall i :: 0 <= i < |pending| ==> pending[i].id in store.files && store.files[pending[i].id] == pending[i]
      modifies this, store, hub
      ensures Valid() && handlers == old(handlers)
      ensures forall id :: id in gone <==>
        exists i :: 0 <= i < |pending| && pending[i].id == id && Overdue(pending[i], now, weather(id))
      ensures store.files == old(store.files) - gone && gone <= old(store.files).Keys
      ensures old(ran) <= ran && Distinct(ran[|old(ran)|..])
      ensures forall id, decision :: (id, decision) in ran[|old(ran)|..] <==>
        id in gone && old(store.files)[id].kind in handlers && decision == "deny"
      ensures AllAnnounced(ran, old(ran), hub.sent, old(hub.sent), weather)
    {
      hide AllAnnounced, Announces, Overdue, Distinct;
      ghost var was, log, sentLog := store.files, ran, hub.sent;
      NothingAnnounced(log, sentLog, weather);
      NothingNoted(log);
      gone := {};
      for i := 0 to |pending|
        invariant Valid() && handlers == old(handlers)
        invariant forall id :: id in gone <==>
          exists j :: 0 <= j < i && pending[j].id == id && Overdue(pending[j], now, weather(id))
        invariant store.files == was - gone && gone <= was.Keys
        invariant log <= ran && Distinct(ran[|log|..])
        invariant forall id, decision :: (id, decision) in ran[|log|..] <==>
          id in gone && was[id].kind in handlers && decision == "deny"
        invariant AllAnnounced(ran, log, hub.sent, sentLog, weather)
      {
        var r := pending[i];
        ghost var before, sent := ran, hub.sent;
        var denied := DenyExpired(r, now, weather(r.id));
        if denied {
          gone := gone + {r.id};
          if r.kind in handlers { AnnouncedNext(before, log, sent, sentLog, weather, r.id, hub.sent[|sent|]); }
        }
        NoteRun(log, before, ran, (r.id, "deny"), denied && r.kind in handlers);
      }
    }

    /**
      Denies every expired approval and no other, each once, and those are then gone;
      an approval whose record cannot be listed, read or removed stays for next time.
     */
    method PruneExpired(now: int, listFails: bool, unreadable: set<Id>, weather: Id -> Weather)
        returns (ok: bool, ghost gone: set<Id>)
      requires Valid()
      modifies this, store, hub
      ensures Valid() && handlers == old(handlers)
      ensures ok <==> !listFails
      ensures listFails ==> gone == {} && hub.clients == old(hub.clients)
      ensures ok ==> forall id :: id in gone <==>
        && id in old(store.files) && id !in unreadable
        && old(store.files)[id].expiresAt.Some? && old(store.files)[id].expiresAt.value <= now
        && !weather(id).readFails && !weather(id).removeFails
      ensures gone <= old(store.files).Keys && store.files == old(store.files) - gone
      ensures old(ran) <= ran && Distinct(ran[|old(ran)|..])
      ensures forall id, decision :: (id, decision) in ran[|old(ran)|..] <==>
        id in gone && old(store.files)[id].kind in handlers && decision == "deny"
      ensures AllAnnounced(ran, old(ran), hub.sent, old(hub.sent), weather)
    {
      gone := {};
      if listFails {
        NothingAnnounced(ran, hub.sent, weather);
        NothingNoted(ran);
        return false, {};
      }
      hide AllAnnounced, Announces;
      var pending := store.List(unreadable);
      forall i, j | 0 <= i < j < |pending| ensures pending[i].id != pending[j].id {
        assert Ids(pending)[i] != Ids(pending)[j];
      }
      hide Distinct;
      forall i | 0 <= i < |pending|
        ensures pending[i].id in store.files && store.files[pending[i].id] == pending[i] && pending[i].id !in unreadable
      {
        assert pending[i] in pending;
      }
      forall id | id in store.files && id !in unreadable ensures store.files[id] in pending {
        assert store.files[id].id == id;
      }
      var denied := DenyEach(pending, now, weather);
      gone := denied;
      ok := true;
    }

    /** Opening a stream: subscribe first, then write out everything that can be listed and read. */
    method Connect(listFails: bool, unreadable: set<Id>) returns (ch: nat, written: seq<Event>)
      requires Valid()
      modifies hub
      ensures Valid()
      ensures ch !in old(hub.clients) && hub.clients == old(hub.clients)[ch := []]
      ensures forall r :: Created(r) in written <==>
        !listFails && r.id in store.files && r.id !in unreadable && store.files[r.id] == r
      ensures forall e :: e in written ==> e.Created?
      ensures forall i, j :: 0 <= i < j < |written| ==> written[i] != written[j]
    {
      ch := hub.Subscribe();
      written := [];
      if listFails { return; }
      var pending := store.List(unreadable);
      for i := 0 to |pending|
        invariant written == AsCreated(pending[..i])
      {
        assert AsCreated(pending[..i + 1]) == AsCreated(pending[..i]) + [Created(pending[i])];
        written := written + [Created(pending[i])];
      }
      assert written == AsCreated(pending);
      forall i, j | 0 <= i < j < |written| ensures written[i] != written[j] {
        assert Ids(pending)[i] != Ids(pending)[j];
      }
      forall r ensures Created(r) in written <==> r in pending {
        if r in pending {
          var i :| 0 <= i < |pending| && pending[i] == r;
          assert written[i] == Created(r);
        }
      }
    }
  }
}
