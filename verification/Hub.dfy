/**
  Fan-out of events to connected clients: each client has a buffered channel, and
  an event that finds a buffer full is dropped for that client.
 */
module Hub {
  const BUFFER_SIZE: nat := 64

  function Offered<E>(buffer: seq<E>, e: E): seq<E> {
    if |buffer| < BUFFER_SIZE then buffer + [e] else buffer
  }

  function EmittedTo<E>(clients: map<nat, seq<E>>, e: E): map<nat, seq<E>> {
    map c | c in clients :: Offered(clients[c], e)
  }

  class EventHub<E(==)> {
    var clients: map<nat, seq<E>>
    var created: nat // channels made so far; the next one gets this number
    ghost var sent: seq<E> // everything emitted

    ghost predicate Valid()
      reads this
    {
      forall c :: c in clients ==> c < created && |clients[c]| <= BUFFER_SIZE
    }

    constructor ()
      ensures Valid() && clients == map[] && sent == []
    {
      clients, created, sent := map[], 0, [];
    }

    method Subscribe() returns (ch: nat)
      requires Valid()
      modifies this
      ensures Valid()
      ensures ch !in old(clients) && clients == old(clients)[ch := []] && sent == old(sent)
    {
      ch := created;
      clients, created := clients[ch := []], created + 1;
    }

    method Unsubscribe(ch: nat)
      requires Valid()
      modifies this
      ensures Valid()
      ensures clients == old(clients) - {ch} && sent == old(sent)
    {
      if ch in clients {
        clients := clients - {ch};
      }
    }

    method Emit(e: E)
      requires Valid()
      modifies this
      ensures Valid()
      ensures clients == EmittedTo(old(clients), e)
      ensures sent == old(sent) + [e] && clients.Keys == old(clients).Keys
      ensures forall c :: c in clients ==>
        clients[c] == if |old(clients)[c]| < 64 then old(clients)[c] + [e] else old(clients)[c]
    {
      var todo := clients.Keys;
      while todo != {}
        invariant todo <= clients.Keys == old(clients).Keys
        invariant forall c :: c in clients ==>
          clients[c] == if c in todo then old(clients)[c] else Offered(old(clients)[c], e)
        invariant created == old(created) && sent == old(sent)
      {
        var c :| c in todo;
        if |clients[c]| < BUFFER_SIZE {
          clients := clients[c := clients[c] + [e]];
        }
        todo := todo - {c};
      }
      sent := sent + [e];
    }

    method Receive(ch: nat) returns (e: E)
      requires Valid() && ch in clients && clients[ch] != []
      modifies this
      ensures Valid()
      ensures e == old(clients)[ch][0] && clients == old(clients)[ch := old(clients)[ch][1..]]
      ensures sent == old(sent)
    {
      e := clients[ch][0];
      clients := clients[ch := clients[ch][1..]];
    }
  }
}
