/**
  The approval protocol under every interleaving of creators, deciders (operators
  and the expiry prune alike) and connecting event streams. One step is one store
  or hub call.
 */
module ApprovalProtocol {
  import opened AtomicFs
  import opened Basics
  import opened Sequences
  import Hub

  type Id = string

  datatype Request = Request(id: Id, kind: string, title: string, body: string, actions: seq<string>,
                             payload: string, createdAt: int, expiresAt: Option<int>)

  datatype Event =
    | Created(request: Request)
    | Removed(id: Id, decision: string, error: string)

  /** A creation after its save: about to announce, announced, or stopped by a save that reported an error. */
  datatype Creation = ToAnnounce(request: Request) | Announced(request: Request) | Unannounced(request: Request)

  datatype Outcome = NotFound | StoreError | UnknownKind | Returned(error: Option<string>)

  datatype Phase = Loaded | Claimed | Handled(error: Option<string>) | Finished(outcome: Outcome)

  datatype Decider = Decider(id: Id, decision: string, request: Option<Request>, phase: Phase)

  /**
    A connected stream: subscribed, walking the directory listing `names`, or live.
    `since` is how many events had been emitted when it subscribed; `lossy` is set
    when its buffer overflowed or one of its store reads failed.
   */
  datatype Scan = Subscribed | Scanning(todo: seq<Id>, found: seq<Request>) | Live(found: seq<Request>)
  datatype Client = Client(scan: Scan, since: nat, names: seq<Id>, out: seq<Event>, lossy: bool)

  datatype State = State(
    store: map<Id, Request>, registered: set<string>,
    hub: map<nat, seq<Event>>, clients: map<nat, Client>,
    creations: map<Id, Creation>, deciders: map<nat, Decider>,
    // history
    claims: map<Id, nat>, runs: seq<Id>, emitted: seq<Event>)

  datatype Action =
    | Save(request: Request, fault: Fault)
    | Announce(id: Id)
    | Load(decider: nat, id: Id, decision: string, readFails: bool)
    | Delete(decider: nat, removeFails: bool)
    | Handle(decider: nat, error: Option<string>)
    | EmitRemoved(decider: nat)
    | Subscribe(client: nat)
    | ReadDir(client: nat, names: seq<Id>, readFails: bool)
    | LoadNext(client: nat, readFails: bool)
    | Rehydrate(client: nat)
    | Receive(client: nat)
    | Disconnect(client: nat)

  function ErrorText(error: Option<string>): string {
    match error case None => "" case Some(text) => text
  }

  /** Approval ids are never reused; every new decider and client gets a number of its own. */
  ghost predicate Enabled(s: State, a: Action) {
    match a
    case Save(request, fault) => request.id !in s.creations && WriteOutcome(fault) != Crashed
    case Announce(id) => id in s.creations && s.creations[id].ToAnnounce?
    case Load(d, _, _, _) => d !in s.deciders
    case Delete(d, _) => d in s.deciders && s.deciders[d].phase.Loaded?
    case Handle(d, _) => d in s.deciders && s.deciders[d].phase.Claimed?
    case EmitRemoved(d) => d in s.deciders && s.deciders[d].phase.Handled?
    case Subscribe(c) => c !in s.clients && c !in s.hub
    case ReadDir(c, names, readFails) =>
      && c in s.clients && s.clients[c].scan.Subscribed?
      && Distinct(names) && (!readFails ==> forall id :: id in names <==> id in s.store)
    case LoadNext(c, _) =>
      c in s.clients && s.clients[c].scan.Scanning? && s.clients[c].scan.todo != []
    case Rehydrate(c) =>
      c in s.clients && s.clients[c].scan.Scanning? && s.clients[c].scan.todo == []
    case Receive(c) => c in s.clients && c in s.hub && s.clients[c].scan.Live? && s.hub[c] != []
    case Disconnect(c) => c in s.clients
  }

  ghost function Emit(s: State, e: Event): State {
    s.(hub := Hub.EmittedTo(s.hub, e),
       emitted := s.emitted + [e],
       clients := map c | c in s.clients ::
         if c in s.hub && |s.hub[c]| >= Hub.BUFFER_SIZE then s.clients[c].(lossy := true) else s.clients[c])
  }

  ghost function WithDecider(s: State, d: nat, phase: Phase): State
    requires d in s.deciders
  {
    s.(deciders := s.deciders[d := s.deciders[d].(phase := phase)])
  }

  ghost function SaveStep(s: State, request: Request, fault: Fault): State {
    s.(store := if PastRename(fault) then s.store[request.id := request] else s.store,
       creations := s.creations[request.id :=
         if WriteOutcome(fault) == Done then ToAnnounce(request) else Unannounced(request)])
  }

  ghost function AnnounceStep(s: State, id: Id): State
    requires id in s.creations
  {
    var request := s.creations[id].request;
    Emit(s, Created(request)).(creations := s.creations[id := Announced(request)])
  }

  ghost function LoadStep(s: State, d: nat, id: Id, decision: string, readFails: bool): State {
    var decider :=
      if readFails then Decider(id, decision, None, Finished(StoreError))
      else if id in s.store then Decider(id, decision, Some(s.store[id]), Loaded)
      else Decider(id, decision, None, Finished(NotFound));
    s.(deciders := s.deciders[d := decider])
  }

  ghost function DeleteStep(s: State, d: nat, removeFails: bool): State
    requires d in s.deciders
  {
    var id := s.deciders[d].id;
    if removeFails then WithDecider(s, d, Finished(StoreError))
    else if id in s.store then
      WithDecider(s, d, Claimed).(store := s.store - {id}, claims := s.claims[id := d])
    else WithDecider(s, d, Finished(NotFound))
  }

  ghost function HandleStep(s: State, d: nat, error: Option<string>): State
    requires d in s.deciders
  {
    var decider := s.deciders[d];
    if decider.request.Some? && decider.request.value.kind in s.registered then
      WithDecider(s, d, Handled(error)).(runs := s.runs + [decider.id])
    else WithDecider(s, d, Finished(UnknownKind))
  }

  ghost function EmitRemovedStep(s: State, d: nat): State
    requires d in s.deciders && s.deciders[d].phase.Handled?
  {
    var decider := s.deciders[d];
    Emit(WithDecider(s, d, Finished(Returned(decider.phase.error))),
         Removed(decider.id, decider.decision, ErrorText(decider.phase.error)))
  }

  /** The steps of one stream: they touch nothing but its own buffer and record. */
  ghost function ClientStep(s: State, a: Action): State
    requires Enabled(s, a) && OfClient(a)
  {
    match a
    case Subscribe(c) =>
      s.(hub := s.hub[c := []],
         clients := s.clients[c := Client(Subscribed, |s.emitted|, [], [], false)])
    case ReadDir(c, names, readFails) =>
      var client := s.clients[c];
      var seen := if readFails then [] else names;
      s.(clients := s.clients[c :=
        client.(scan := Scanning(seen, []), names := seen, lossy := client.lossy || readFails)])
    case LoadNext(c, readFails) =>
      var client := s.clients[c];
      var id := client.scan.todo[0];
      var found := if !readFails && id in s.store then client.scan.found + [s.store[id]] else client.scan.found;
      s.(clients := s.clients[c :=
        client.(scan := Scanning(client.scan.todo[1..], found), lossy := client.lossy || readFails)])
    case Rehydrate(c) =>
      var client := s.clients[c];
      s.(clients := s.clients[c :=
        client.(scan := Live(client.scan.found), out := AsCreated(client.scan.found))])
    case Receive(c) =>
      s.(hub := s.hub[c := s.hub[c][1..]],
         clients := s.clients[c := s.clients[c].(out := s.clients[c].out + [s.hub[c][0]])])
    case Disconnect(c) => s.(hub := s.hub - {c}, clients := s.clients - {c})
  }

  predicate OfClient(a: Action) {
    a.Subscribe? || a.ReadDir? || a.LoadNext? || a.Rehydrate? || a.Receive? || a.Disconnect?
  }

  ghost function Step(s: State, a: Action): State {
    if !Enabled(s, a) then s
    else match a
      case Save(request, fault) => SaveStep(s, request, fault)
      case Announce(id) => AnnounceStep(s, id)
      case Load(d, id, decision, readFails) => LoadStep(s, d, id, decision, readFails)
      case Delete(d, removeFails) => DeleteStep(s, d, removeFails)
      case Handle(d, error) => HandleStep(s, d, error)
      case EmitRemoved(d) => EmitRemovedStep(s, d)
      case _ => ClientStep(s, a)
  }

  function AsCreated(requests: seq<Request>): seq<Event> {
    seq(|requests|, i requires 0 <= i < |requests| => Created(requests[i]))
  }

  ghost function Run(s: State, actions: seq<Action>): State {
    if actions == [] then s else Step(Run(s, actions[..|actions| - 1]), actions[|actions| - 1])
  }

  /** A fresh daemon: approvals left over from earlier runs are on disk, nothing is in flight. */
  ghost predicate Initial(s: State) {
    && s.hub == map[] && s.clients == map[] && s.deciders == map[] && s.claims == map[]
    && s.runs == [] && s.emitted == []
    && s.creations.Keys == s.store.Keys
    && forall id :: id in s.store ==> s.store[id].id == id && s.creations[id] == Unannounced(s.store[id])
  }

  // ---------- invariants ----------

  ghost predicate StoreInv(store: map<Id, Request>, creations: map<Id, Creation>, emitted: seq<Event>) {
    && (forall id :: id in creations ==> creations[id].request.id == id)
    && (forall id :: id in store ==> id in creations && creations[id].request == store[id])
    && (forall i :: 0 <= i < |emitted| && emitted[i].Created? ==>
          var r := emitted[i].request;
          r.id in creations && creations[r.id] == Announced(r))
    && (forall i, j :: 0 <= i < j < |emitted| && emitted[i].Created? && emitted[j].Created? ==>
          emitted[i].request.id != emitted[j].request.id)
    && (forall id :: id in creations && creations[id].Announced? ==> Created(creations[id].request) in emitted)
  }

  /** Where a decider has got to: past its delete, past its handler, finished with the handler's answer. */
  predicate Past(p: Phase) {
    p.Claimed? || p.Handled? || (p.Finished? && (p.outcome.UnknownKind? || p.outcome.Returned?))
  }
  predicate Ran(p: Phase) { p.Handled? || (p.Finished? && p.outcome.Returned?) }
  predicate Told(p: Phase) { p.Finished? && p.outcome.Returned? }

  /** A decider past its delete holds the claim, and from its load on it carries the saved request. */
  ghost predicate DeciderOk(d: nat, decider: Decider, creations: map<Id, Creation>, registered: set<string>,
                            claims: map<Id, nat>)
  {
    var p := decider.phase;
    && (Past(p) ==> decider.id in claims && claims[decider.id] == d)
    && (p.Loaded? || Past(p) ==>
          decider.id in creations && decider.request == Some(creations[decider.id].request))
    && (p == Finished(UnknownKind) ==> decider.request.Some? && decider.request.value.kind !in registered)
    && (Ran(p) ==> decider.request.Some? && decider.request.value.kind in registered)
  }

  /** A claimed approval is off the store, and its claimant is past the delete. */
  ghost predicate ClaimOk(id: Id, d: nat, store: map<Id, Request>, creations: map<Id, Creation>,
                          deciders: map<nat, Decider>)
  {
    && id !in store && id in creations
    && d in deciders && deciders[d].id == id && Past(deciders[d].phase)
  }

  ghost predicate DeciderInv(store: map<Id, Request>, creations: map<Id, Creation>, registered: set<string>,
                             deciders: map<nat, Decider>, claims: map<Id, nat>)
  {
    && (forall id :: id in claims ==> ClaimOk(id, claims[id], store, creations, deciders))
    && (forall d :: d in deciders ==> DeciderOk(d, deciders[d], creations, registered, claims))
  }

  predicate RunOk(d: nat, decider: Decider, runs: seq<Id>) {
    Past(decider.phase) ==> (decider.id in runs <==> Ran(decider.phase))
  }

  /** The handler has run exactly for the deciders that are past it, each time once. */
  ghost predicate RunInv(deciders: map<nat, Decider>, claims: map<Id, nat>, runs: seq<Id>) {
    && Distinct(runs)
    && (forall id :: id in runs ==> id in claims)
    && (forall d :: d in deciders ==> RunOk(d, deciders[d], runs))
  }

  function RemovedOf(d: Decider): Event
    requires Told(d.phase)
  {
    Removed(d.id, d.decision, ErrorText(d.phase.outcome.error))
  }

  ghost predicate RemovedOk(e: Event, deciders: map<nat, Decider>, claims: map<Id, nat>) {
    e.Removed? ==>
      && e.id in claims && claims[e.id] in deciders
      && Told(deciders[claims[e.id]].phase) && e == RemovedOf(deciders[claims[e.id]])
  }

  predicate ToldOk(d: nat, decider: Decider, emitted: seq<Event>) {
    Told(decider.phase) ==> RemovedOf(decider) in emitted
  }

  /** One removed event for every decider that finished with its handler's answer, and no other. */
  ghost predicate RemovedInv(deciders: map<nat, Decider>, claims: map<Id, nat>, emitted: seq<Event>) {
    && (forall i :: 0 <= i < |emitted| ==> RemovedOk(emitted[i], deciders, claims))
    && (forall i, j :: 0 <= i < j < |emitted| && emitted[i].Removed? && emitted[j].Removed? ==>
          emitted[i].id != emitted[j].id)
    && (forall d :: d in deciders ==> ToldOk(d, deciders[d], emitted))
  }

  function Ids(requests: seq<Request>): seq<Id> {
    seq(|requests|, i requires 0 <= i < |requests| => requests[i].id)
  }

  ghost predicate ClientInv(client: Client, buffer: seq<Event>,
                            store: map<Id, Request>, creations: map<Id, Creation>, emitted: seq<Event>)
  {
    && client.since <= |emitted|
    && (!client.scan.Live? ==> client.out == [])
    && (!client.lossy ==>
          match client.scan
          case Subscribed => buffer == emitted[client.since..]
          case Scanning(todo, found) =>
            && buffer == emitted[client.since..]
            && FoundInv(client.names, todo, found, store, creations, emitted[..client.since])
          case Live(found) =>
            && |client.out| >= |found|
            && client.out + buffer == AsCreated(found) + emitted[client.since..]
            && FoundInv(client.names, [], found, store, creations, emitted[..client.since]))
  }

  /** What the walk has found so far, and why whatever it did not list will still be announced. */
  ghost predicate FoundInv(names: seq<Id>, todo: seq<Id>, found: seq<Request>,
                           store: map<Id, Request>, creations: map<Id, Creation>, before: seq<Event>)
  {
    && Distinct(names)
    && |todo| <= |names| && todo == names[|names| - |todo|..]
    && Distinct(Ids(found))
    && (forall i :: 0 <= i < |found| ==>
          && found[i].id in names && found[i].id !in todo
          && found[i].id in creations && creations[found[i].id].request == found[i])
    && (forall id :: id in names && id !in todo && id in store ==> id in Ids(found))
    && (forall id :: id in names ==> id in creations)
    && (forall e :: e in before && e.Created? && e.request.id in store ==> e.request.id in names)
  }

  ghost predicate Inv(s: State) {
    && StoreInv(s.store, s.creations, s.emitted)
    && DeciderInv(s.store, s.creations, s.registered, s.deciders, s.claims)
    && RunInv(s.deciders, s.claims, s.runs)
    && RemovedInv(s.deciders, s.claims, s.emitted)
    && ClientsInv(s)
  }

  ghost predicate ClientsInv(s: State) {
    && s.hub.Keys == s.clients.Keys
    && forall c :: c in s.clients ==> ClientInv(s.clients[c], s.hub[c], s.store, s.creations, s.emitted)
  }

  lemma InitialInv(s: State)
    requires Initial(s)
    ensures Inv(s)
  {
  }

  // ---------- each action keeps the store and claim invariants ----------

  lemma SaveKeeps(s: State, request: Request, fault: Fault)
    requires request.id !in s.creations && StoreInv(s.store, s.creations, s.emitted)
    requires DeciderInv(s.store, s.creations, s.registered, s.deciders, s.claims)
    ensures var s' := SaveStep(s, request, fault);
      && StoreInv(s'.store, s'.creations, s'.emitted)
      && DeciderInv(s'.store, s'.creations, s'.registered, s'.deciders, s'.claims)
  {
    var s' := SaveStep(s, request, fault);
    forall id | id in s.claims ensures ClaimOk(id, s.claims[id], s'.store, s'.creations, s.deciders) {
      assert ClaimOk(id, s.claims[id], s.store, s.creations, s.deciders);
    }
    forall d | d in s.deciders ensures DeciderOk(d, s.deciders[d], s'.creations, s.registered, s.claims) {
      assert DeciderOk(d, s.deciders[d], s.creations, s.registered, s.claims);
    }
  }

  lemma AnnounceKeepsStore(s: State, id: Id)
    requires id in s.creations && s.creations[id].ToAnnounce? && StoreInv(s.store, s.creations, s.emitted)
    ensures var s' := AnnounceStep(s, id); StoreInv(s'.store, s'.creations, s'.emitted)
  {
    var s' := AnnounceStep(s, id);
    assert forall e :: e in s'.emitted <==> e in s.emitted || e == Created(s.creations[id].request);
  }

  lemma AnnounceKeepsDeciders(s: State, id: Id)
    requires id in s.creations && DeciderInv(s.store, s.creations, s.registered, s.deciders, s.claims)
    ensures var s' := AnnounceStep(s, id);
      DeciderInv(s'.store, s'.creations, s'.registered, s'.deciders, s'.claims)
  {
    var s' := AnnounceStep(s, id);
    forall x | x in s.claims ensures ClaimOk(x, s.claims[x], s.store, s'.creations, s.deciders) {
      assert ClaimOk(x, s.claims[x], s.store, s.creations, s.deciders);
    }
    forall d | d in s.deciders ensures DeciderOk(d, s.deciders[d], s'.creations, s.registered, s.claims) {
      assert DeciderOk(d, s.deciders[d], s.creations, s.registered, s.claims);
    }
  }

  lemma AnnounceKeepsRemoved(s: State, id: Id)
    requires id in s.creations && RemovedInv(s.deciders, s.claims, s.emitted)
    ensures var s' := AnnounceStep(s, id); RemovedInv(s'.deciders, s'.claims, s'.emitted)
  {
    var s' := AnnounceStep(s, id);
    forall d | d in s.deciders ensures ToldOk(d, s.deciders[d], s'.emitted) {
      assert ToldOk(d, s.deciders[d], s.emitted);
    }
  }

  lemma LoadKeepsDeciders(s: State, d: nat, id: Id, decision: string, readFails: bool)
    requires d !in s.deciders && DeciderInv(s.store, s.creations, s.registered, s.deciders, s.claims)
    requires StoreInv(s.store, s.creations, s.emitted)
    ensures var s' := LoadStep(s, d, id, decision, readFails);
      DeciderInv(s'.store, s'.creations, s'.registered, s'.deciders, s'.claims)
  {
  }

  lemma LoadKeepsRuns(s: State, d: nat, id: Id, decision: string, readFails: bool)
    requires d !in s.deciders && RunInv(s.deciders, s.claims, s.runs)
    ensures var s' := LoadStep(s, d, id, decision, readFails); RunInv(s'.deciders, s'.claims, s'.runs)
  {
  }

  lemma LoadKeepsRemoved(s: State, d: nat, id: Id, decision: string, readFails: bool)
    requires d !in s.deciders && RemovedInv(s.deciders, s.claims, s.emitted)
    ensures var s' := LoadStep(s, d, id, decision, readFails); RemovedInv(s'.deciders, s'.claims, s'.emitted)
  {
  }

  lemma DeleteKeepsClaimOk(s: State, d: nat, removeFails: bool, id: Id)
    requires d in s.deciders && s.deciders[d].phase.Loaded?
    requires DeciderInv(s.store, s.creations, s.registered, s.deciders, s.claims)
    requires StoreInv(s.store, s.creations, s.emitted)
    ensures var s' := DeleteStep(s, d, removeFails);
      id in s'.claims ==> ClaimOk(id, s'.claims[id], s'.store, s'.creations, s'.deciders)
  {
    assert DeciderOk(d, s.deciders[d], s.creations, s.registered, s.claims);
    if id in s.claims {
      assert ClaimOk(id, s.claims[id], s.store, s.creations, s.deciders);
    }
  }

  lemma DeleteKeepsDeciderOk(s: State, d: nat, removeFails: bool, x: nat)
    requires d in s.deciders && s.deciders[d].phase.Loaded? && x in s.deciders
    requires DeciderInv(s.store, s.creations, s.registered, s.deciders, s.claims)
    ensures var s' := DeleteStep(s, d, removeFails);
      x in s'.deciders && DeciderOk(x, s'.deciders[x], s'.creations, s'.registered, s'.claims)
  {
    assert DeciderOk(x, s.deciders[x], s.creations, s.registered, s.claims);
    if x != d && Past(s.deciders[x].phase) {
      assert ClaimOk(s.deciders[x].id, x, s.store, s.creations, s.deciders);
    }
  }

  lemma DeleteKeepsDeciders(s: State, d: nat, removeFails: bool)
    requires d in s.deciders && s.deciders[d].phase.Loaded?
    requires DeciderInv(s.store, s.creations, s.registered, s.deciders, s.claims)
    requires StoreInv(s.store, s.creations, s.emitted)
    ensures var s' := DeleteStep(s, d, removeFails);
      DeciderInv(s'.store, s'.creations, s'.registered, s'.deciders, s'.claims)
  {
    var s' := DeleteStep(s, d, removeFails);
    forall id | id in s'.claims ensures ClaimOk(id, s'.claims[id], s'.store, s'.creations, s'.deciders) {
      DeleteKeepsClaimOk(s, d, removeFails, id);
    }
    assert s'.deciders.Keys == s.deciders.Keys;
    forall x | x in s'.deciders ensures DeciderOk(x, s'.deciders[x], s'.creations, s'.registered, s'.claims) {
      DeleteKeepsDeciderOk(s, d, removeFails, x);
    }
    hide DeleteStep, StoreInv, ClaimOk, DeciderOk;
  }

  lemma DeleteKeepsRuns(s: State, d: nat, removeFails: bool)
    requires d in s.deciders && s.deciders[d].phase.Loaded? && RunInv(s.deciders, s.claims, s.runs)
    requires DeciderInv(s.store, s.creations, s.registered, s.deciders, s.claims)
    ensures var s' := DeleteStep(s, d, removeFails); RunInv(s'.deciders, s'.claims, s'.runs)
  {
    var s' := DeleteStep(s, d, removeFails);
    var id := s.deciders[d].id;
    if id in s.runs {
      assert ClaimOk(id, s.claims[id], s.store, s.creations, s.deciders);
    }
    forall x | x in s'.deciders ensures RunOk(x, s'.deciders[x], s.runs) {
      assert RunOk(x, s.deciders[x], s.runs);
    }
  }

  lemma DeleteKeepsRemoved(s: State, d: nat, removeFails: bool)
    requires d in s.deciders && s.deciders[d].phase.Loaded? && RemovedInv(s.deciders, s.claims, s.emitted)
    requires DeciderInv(s.store, s.creations, s.registered, s.deciders, s.claims)
    ensures var s' := DeleteStep(s, d, removeFails); RemovedInv(s'.deciders, s'.claims, s'.emitted)
  {
    var s' := DeleteStep(s, d, removeFails);
    forall i | 0 <= i < |s.emitted| ensures RemovedOk(s.emitted[i], s'.deciders, s'.claims) {
      assert RemovedOk(s.emitted[i], s.deciders, s.claims);
      if s.emitted[i].Removed? {
        assert ClaimOk(s.emitted[i].id, s.claims[s.emitted[i].id], s.store, s.creations, s.deciders);
      }
    }
    forall x | x in s'.deciders ensures ToldOk(x, s'.deciders[x], s.emitted) {
      assert ToldOk(x, s.deciders[x], s.emitted);
    }
  }

  lemma HandleKeepsDeciders(s: State, d: nat, error: Option<string>)
    requires d in s.deciders && s.deciders[d].phase.Claimed?
    requires DeciderInv(s.store, s.creations, s.registered, s.deciders, s.claims)
    ensures var s' := HandleStep(s, d, error);
      DeciderInv(s'.store, s'.creations, s'.registered, s'.deciders, s'.claims)
  {
    var s' := HandleStep(s, d, error);
    assert DeciderOk(d, s.deciders[d], s.creations, s.registered, s.claims);
    forall id | id in s.claims ensures ClaimOk(id, s.claims[id], s.store, s.creations, s'.deciders) {
      assert ClaimOk(id, s.claims[id], s.store, s.creations, s.deciders);
    }
    forall x | x in s'.deciders ensures DeciderOk(x, s'.deciders[x], s.creations, s.registered, s.claims) {
      assert DeciderOk(x, s.deciders[x], s.creations, s.registered, s.claims);
    }
  }

  lemma HandleKeepsRuns(s: State, d: nat, error: Option<string>)
    requires d in s.deciders && s.deciders[d].phase.Claimed? && RunInv(s.deciders, s.claims, s.runs)
    requires DeciderInv(s.store, s.creations, s.registered, s.deciders, s.claims)
    ensures var s' := HandleStep(s, d, error); RunInv(s'.deciders, s'.claims, s'.runs)
  {
    var s' := HandleStep(s, d, error);
    assert DeciderOk(d, s.deciders[d], s.creations, s.registered, s.claims);
    assert RunOk(d, s.deciders[d], s.runs);
    forall x | x in s'.deciders ensures RunOk(x, s'.deciders[x], s'.runs) {
      assert RunOk(x, s.deciders[x], s.runs);
      assert DeciderOk(x, s.deciders[x], s.creations, s.registered, s.claims);
    }
  }

  lemma HandleKeepsRemoved(s: State, d: nat, error: Option<string>)
    requires d in s.deciders && s.deciders[d].phase.Claimed? && RemovedInv(s.deciders, s.claims, s.emitted)
    ensures var s' := HandleStep(s, d, error); RemovedInv(s'.deciders, s'.claims, s'.emitted)
  {
    var s' := HandleStep(s, d, error);
    forall i | 0 <= i < |s.emitted| ensures RemovedOk(s.emitted[i], s'.deciders, s.claims) {
      assert RemovedOk(s.emitted[i], s.deciders, s.claims);
    }
    forall x | x in s'.deciders ensures ToldOk(x, s'.deciders[x], s.emitted) {
      assert ToldOk(x, s.deciders[x], s.emitted);
    }
  }

  lemma EmitRemovedKeepsDeciders(s: State, d: nat)
    requires d in s.deciders && s.deciders[d].phase.Handled?
    requires DeciderInv(s.store, s.creations, s.registered, s.deciders, s.claims)
    ensures var s' := EmitRemovedStep(s, d);
      DeciderInv(s'.store, s'.creations, s'.registered, s'.deciders, s'.claims)
  {
  }

  lemma EmitRemovedKeepsRuns(s: State, d: nat)
    requires d in s.deciders && s.deciders[d].phase.Handled? && RunInv(s.deciders, s.claims, s.runs)
    requires DeciderInv(s.store, s.creations, s.registered, s.deciders, s.claims)
    ensures var s' := EmitRemovedStep(s, d); RunInv(s'.deciders, s'.claims, s'.runs)
  {
  }

  lemma EmitRemovedKeepsRemoved(s: State, d: nat)
    requires d in s.deciders && s.deciders[d].phase.Handled? && RemovedInv(s.deciders, s.claims, s.emitted)
    requires DeciderInv(s.store, s.creations, s.registered, s.deciders, s.claims)
    ensures var s' := EmitRemovedStep(s, d); RemovedInv(s'.deciders, s'.claims, s'.emitted)
  {
    var s' := EmitRemovedStep(s, d);
    assert forall e :: e in s'.emitted <==> e in s.emitted || e == s'.emitted[|s.emitted|];
  }

  lemma EmitRemovedKeepsStore(s: State, d: nat)
    requires d in s.deciders && s.deciders[d].phase.Handled? && StoreInv(s.store, s.creations, s.emitted)
    ensures var s' := EmitRemovedStep(s, d); StoreInv(s'.store, s'.creations, s'.emitted)
  {
    var s' := EmitRemovedStep(s, d);
    assert forall e :: e in s'.emitted <==> e in s.emitted || e == s'.emitted[|s.emitted|];
  }

  lemma DeleteKeepsStore(s: State, d: nat, removeFails: bool)
    requires d in s.deciders && s.deciders[d].phase.Loaded? && StoreInv(s.store, s.creations, s.emitted)
    ensures var s' := DeleteStep(s, d, removeFails); StoreInv(s'.store, s'.creations, s'.emitted)
  {
  }

  // ---------- each action keeps every stream's invariant ----------

  lemma SaveKeepsClient(client: Client, buffer: seq<Event>, store: map<Id, Request>, creations: map<Id, Creation>,
                        emitted: seq<Event>, store': map<Id, Request>, creations': map<Id, Creation>, id: Id)
    requires ClientInv(client, buffer, store, creations, emitted) && StoreInv(store, creations, emitted)
    requires id !in creations && creations'.Keys == creations.Keys + {id}
    requires forall x :: x in creations ==> creations'[x] == creations[x]
    requires store'.Keys <= store.Keys + {id}
    ensures ClientInv(client, buffer, store', creations', emitted)
  {
  }

  lemma DeleteKeepsClient(client: Client, buffer: seq<Event>, store: map<Id, Request>, creations: map<Id, Creation>,
                          emitted: seq<Event>, store': map<Id, Request>)
    requires ClientInv(client, buffer, store, creations, emitted)
    requires store'.Keys <= store.Keys
    ensures ClientInv(client, buffer, store', creations, emitted)
  {
  }

  lemma EmitKeepsClient(client: Client, buffer: seq<Event>, store: map<Id, Request>, creations: map<Id, Creation>,
                        emitted: seq<Event>, creations': map<Id, Creation>, e: Event)
    requires ClientInv(client, buffer, store, creations, emitted)
    requires creations'.Keys == creations.Keys
    requires forall id :: id in creations ==> creations'[id].request == creations[id].request
    ensures ClientInv(if |buffer| >= Hub.BUFFER_SIZE then client.(lossy := true) else client,
                      Hub.Offered(buffer, e), store, creations', emitted + [e])
  {
    assert (emitted + [e])[client.since..] == emitted[client.since..] + [e];
    assert (emitted + [e])[..client.since] == emitted[..client.since];
    if client.scan.Live? && !client.lossy && |buffer| < Hub.BUFFER_SIZE {
      var found := client.scan.found;
      calc {
        client.out + (buffer + [e]);
        (client.out + buffer) + [e];
        (AsCreated(found) + emitted[client.since..]) + [e];
        AsCreated(found) + (emitted[client.since..] + [e]);
      }
    }
  }

  lemma ReadDirKeepsClient(client: Client, buffer: seq<Event>, store: map<Id, Request>, creations: map<Id, Creation>,
                           emitted: seq<Event>, names: seq<Id>)
    requires ClientInv(client, buffer, store, creations, emitted) && StoreInv(store, creations, emitted)
    requires client.scan.Subscribed? && Distinct(names) && forall id :: id in names <==> id in store
    ensures ClientInv(client.(scan := Scanning(names, []), names := names), buffer, store, creations, emitted)
  {
  }

  lemma LoadNextKeepsFound(names: seq<Id>, todo: seq<Id>, found: seq<Request>,
                           store: map<Id, Request>, creations: map<Id, Creation>, before: seq<Event>)
    requires FoundInv(names, todo, found, store, creations, before) && todo != []
    requires forall id :: id in store ==> id in creations && creations[id].request == store[id] && store[id].id == id
    ensures var id := todo[0];
      FoundInv(names, todo[1..], if id in store then found + [store[id]] else found, store, creations, before)
  {
    var id := todo[0];
    var k := |names| - |todo|;
    assert names[k] == id && todo[1..] == names[k + 1..];
    assert id !in todo[1..];
    assert forall x :: x in todo <==> x == id || x in todo[1..];
    if id in store {
      var found' := found + [store[id]];
      assert Ids(found') == Ids(found) + [id];
      assert forall i :: 0 <= i < |found| ==> Ids(found)[i] == found[i].id && found[i].id != id;
    }
  }

  lemma ReceiveKeepsClient(client: Client, buffer: seq<Event>, store: map<Id, Request>, creations: map<Id, Creation>,
                           emitted: seq<Event>)
    requires ClientInv(client, buffer, store, creations, emitted) && client.scan.Live? && buffer != []
    ensures ClientInv(client.(out := client.out + [buffer[0]]), buffer[1..], store, creations, emitted)
  {
    assert client.out + [buffer[0]] + buffer[1..] == client.out + buffer;
  }

  lemma ScanKeepsClient(s: State, a: Action, c: nat)
    requires Enabled(s, a) && OfClient(a) && !a.Subscribe? && !a.Disconnect? && a.client == c
    requires c in s.clients && c in s.hub && StoreInv(s.store, s.creations, s.emitted)
    requires ClientInv(s.clients[c], s.hub[c], s.store, s.creations, s.emitted)
    ensures var s' := ClientStep(s, a);
      c in s'.clients && c in s'.hub && ClientInv(s'.clients[c], s'.hub[c], s.store, s.creations, s.emitted)
  {
    var client := s.clients[c];
    match a
    case ReadDir(_, names, readFails) =>
      if !readFails { ReadDirKeepsClient(client, s.hub[c], s.store, s.creations, s.emitted, names); }
    case LoadNext(_, readFails) =>
      if !readFails && !client.lossy {
        LoadNextKeepsFound(client.names, client.scan.todo, client.scan.found, s.store, s.creations,
                           s.emitted[..client.since]);
      }
    case Rehydrate(_) =>
    case Receive(_) =>
      ReceiveKeepsClient(client, s.hub[c], s.store, s.creations, s.emitted);
  }

  lemma SaveKeepsClients(s: State, request: Request, fault: Fault)
    requires ClientsInv(s) && StoreInv(s.store, s.creations, s.emitted) && request.id !in s.creations
    ensures ClientsInv(SaveStep(s, request, fault))
  {
    var s' := SaveStep(s, request, fault);
    forall c | c in s.clients ensures ClientInv(s.clients[c], s.hub[c], s'.store, s'.creations, s.emitted) {
      SaveKeepsClient(s.clients[c], s.hub[c], s.store, s.creations, s.emitted, s'.store, s'.creations, request.id);
    }
  }

  lemma DeleteKeepsClients(s: State, d: nat, removeFails: bool)
    requires ClientsInv(s) && d in s.deciders
    ensures ClientsInv(DeleteStep(s, d, removeFails))
  {
    var s' := DeleteStep(s, d, removeFails);
    forall c | c in s.clients ensures ClientInv(s.clients[c], s.hub[c], s'.store, s.creations, s.emitted) {
      DeleteKeepsClient(s.clients[c], s.hub[c], s.store, s.creations, s.emitted, s'.store);
    }
  }

  lemma EmitKeepsClients(s: State, e: Event)
    requires ClientsInv(s)
    ensures ClientsInv(Emit(s, e))
  {
    forall c | c in s.clients
      ensures ClientInv(Emit(s, e).clients[c], Emit(s, e).hub[c], s.store, s.creations, s.emitted + [e])
    {
      EmitKeepsClient(s.clients[c], s.hub[c], s.store, s.creations, s.emitted, s.creations, e);
    }
  }

  lemma AnnounceKeepsClients(s: State, id: Id)
    requires ClientsInv(s) && id in s.creations
    ensures ClientsInv(AnnounceStep(s, id))
  {
    var s' := AnnounceStep(s, id);
    var e := Created(s.creations[id].request);
    forall c | c in s.clients ensures ClientInv(s'.clients[c], s'.hub[c], s.store, s'.creations, s'.emitted) {
      EmitKeepsClient(s.clients[c], s.hub[c], s.store, s.creations, s.emitted, s'.creations, e);
    }
  }

  lemma SubscribeKeepsClient(s: State, c: nat)
    ensures ClientInv(Client(Subscribed, |s.emitted|, [], [], false), [], s.store, s.creations, s.emitted)
  {
    assert s.emitted[|s.emitted|..] == [];
  }

  /** The steps of a stream leave the records and buffers of all the others alone. */
  lemma OthersUntouched(s: State, a: Action, c: nat)
    requires Enabled(s, a) && OfClient(a) && c != a.client
    ensures var s' := ClientStep(s, a);
      && (c in s'.clients <==> c in s.clients) && (c in s'.hub <==> c in s.hub)
      && (c in s.clients ==> s'.clients[c] == s.clients[c]) && (c in s.hub ==> s'.hub[c] == s.hub[c])
  {
  }

  lemma OnlyStreamsChange(s: State, a: Action)
    requires Enabled(s, a) && OfClient(a)
    ensures var s' := ClientStep(s, a);
      s'.store == s.store && s'.creations == s.creations && s'.emitted == s.emitted
  {
  }

  lemma ClientStepKeepsClients(s: State, a: Action)
    requires ClientsInv(s) && StoreInv(s.store, s.creations, s.emitted) && Enabled(s, a) && OfClient(a)
    ensures ClientsInv(ClientStep(s, a))
  {
    var s' := ClientStep(s, a);
    var c := a.client;
    OnlyStreamsChange(s, a);
    if a.Subscribe? {
      SubscribeKeepsClient(s, c);
      assert s'.clients[c] == Client(Subscribed, |s.emitted|, [], [], false) && s'.hub[c] == [];
    } else if a.Disconnect? {
      assert c !in s'.clients && c !in s'.hub;
    } else {
      ScanKeepsClient(s, a, c);
    }
    forall x | x != c
      ensures x in s'.clients <==> x in s'.hub
      ensures x in s'.clients ==> ClientInv(s'.clients[x], s'.hub[x], s'.store, s'.creations, s'.emitted)
    {
      OthersUntouched(s, a, x);
      hide ClientStep, ClientInv;
    }
    hide ClientStep, ClientInv, StoreInv;
    assert s'.hub.Keys == s'.clients.Keys;
  }

  // ---------- every run ----------

  lemma StepKeepsInv(s: State, a: Action)
    requires Inv(s)
    ensures Inv(Step(s, a))
  {
    hide StoreInv, DeciderInv, RunInv, RemovedInv, ClientInv;
    if Enabled(s, a) {
      match a
      case Save(request, fault) =>
        SaveKeeps(s, request, fault);
        SaveKeepsClients(s, request, fault);
      case Announce(id) =>
        AnnounceKeepsStore(s, id);
        AnnounceKeepsDeciders(s, id);
        AnnounceKeepsRemoved(s, id);
        AnnounceKeepsClients(s, id);
      case Load(d, id, decision, readFails) =>
        LoadKeepsDeciders(s, d, id, decision, readFails);
        LoadKeepsRuns(s, d, id, decision, readFails);
        LoadKeepsRemoved(s, d, id, decision, readFails);
      case Delete(d, removeFails) =>
        DeleteKeepsStore(s, d, removeFails);
        DeleteKeepsDeciders(s, d, removeFails);
        DeleteKeepsRuns(s, d, removeFails);
        DeleteKeepsRemoved(s, d, removeFails);
        DeleteKeepsClients(s, d, removeFails);
      case Handle(d, error) =>
        HandleKeepsDeciders(s, d, error);
        HandleKeepsRuns(s, d, error);
        HandleKeepsRemoved(s, d, error);
      case EmitRemoved(d) =>
        EmitRemovedKeepsStore(s, d);
        EmitRemovedKeepsDeciders(s, d);
        EmitRemovedKeepsRuns(s, d);
        EmitRemovedKeepsRemoved(s, d);
        var told := WithDecider(s, d, Finished(Returned(s.deciders[d].phase.error)));
        EmitKeepsClients(told, Removed(s.deciders[d].id, s.deciders[d].decision, ErrorText(s.deciders[d].phase.error)));
      case _ =>
        ClientStepKeepsClients(s, a);
    }
  }

  lemma {:induction false} RunKeepsInv(s: State, actions: seq<Action>)
    requires Inv(s)
    ensures Inv(Run(s, actions))
  {
    if actions != [] {
      RunKeepsInv(s, actions[..|actions| - 1]);
      StepKeepsInv(Run(s, actions[..|actions| - 1]), actions[|actions| - 1]);
    }
  }
}
