/** Waiting for the completion of a mutation without request IDs: one mutation at a time, a channel that may
    drop messages, and no further mutation once a completion is in doubt. */
module Completions {
  import opened Paths

  type Request = nat

  /** Noise stands for every event that is no completion: subscriptions, heartbeats, errors. */
  datatype Event = Noise | Completion(request: Request, action: string, ok: bool)

  datatype Result = Refused | Finished(event: Event) | Rejected(event: Event) | InDoubt

  // ----- What a publication does to a client -----

  type ClientId = nat

  datatype Message<T> = Message(user: string, target: Option<ClientId>, body: T)

  datatype Subscriber<T> = Subscriber(user: string, inbox: seq<T>)

  predicate Addressed<T>(id: ClientId, c: Subscriber<T>, m: Message<T>) {
    c.user == m.user && (m.target.None? || m.target == Some(id))
  }

  /** What a publication does to one client: a full buffer drops it. */
  function Receives<T>(id: ClientId, c: Subscriber<T>, m: Message<T>, bufferSize: nat): Subscriber<T> {
    if Addressed(id, c, m) && |c.inbox| < bufferSize then c.(inbox := c.inbox + [m.body]) else c
  }

  /** The buffer of a client after a publication. */
  function Inbox<T>(id: ClientId, user: string, inbox: seq<T>, m: Message<T>, bufferSize: nat): seq<T> {
    Receives(id, Subscriber(user, inbox), m, bufferSize).inbox
  }

  // ----- Which requests may still complete -----

  function Announced(channel: seq<Event>): set<Request> {
    set e | e in channel && e.Completion? :: e.request
  }

  /** Requests whose completion is still to come or to be read. */
  function Outstanding(inFlight: set<Request>, channel: seq<Event>): set<Request> {
    inFlight + Announced(channel)
  }

  /** No request is announced twice. */
  ghost predicate Once(inFlight: set<Request>, channel: seq<Event>) {
    inFlight !! Announced(channel) &&
    forall i, j :: 0 <= i < j < |channel| && channel[i].Completion? && channel[j].Completion? ==> channel[i].request != channel[j].request
  }

  lemma Delivered(inFlight: set<Request>, channel: seq<Event>, e: Event)
    requires Once(inFlight, channel) && e.Completion? && e.request in inFlight
    ensures Once(inFlight - {e.request}, channel + [e])
    ensures Outstanding(inFlight - {e.request}, channel + [e]) == Outstanding(inFlight, channel)
  {
    assert Announced(channel + [e]) == Announced(channel) + {e.request};
    forall i | 0 <= i < |channel| && channel[i].Completion? ensures channel[i].request != e.request {
      assert channel[i] in channel;
    }
  }

  lemma NoiseDelivered(inFlight: set<Request>, channel: seq<Event>)
    requires Once(inFlight, channel)
    ensures Once(inFlight, channel + [Noise]) && Outstanding(inFlight, channel + [Noise]) == Outstanding(inFlight, channel)
  {
    assert Announced(channel + [Noise]) == Announced(channel);
  }

  lemma Dropped(inFlight: set<Request>, channel: seq<Event>, r: Request)
    requires Once(inFlight, channel)
    ensures Once(inFlight - {r}, channel) && Outstanding(inFlight - {r}, channel) <= Outstanding(inFlight, channel)
  {
  }

  /** Reading the head: a completion read is no longer outstanding. */
  lemma Read(inFlight: set<Request>, channel: seq<Event>)
    requires Once(inFlight, channel) && channel != []
    ensures Once(inFlight, channel[1..])
    ensures channel[0].Completion? ==>
      channel[0].request in Outstanding(inFlight, channel) &&
      Outstanding(inFlight, channel[1..]) == Outstanding(inFlight, channel) - {channel[0].request}
    ensures channel[0].Noise? ==> Outstanding(inFlight, channel[1..]) == Outstanding(inFlight, channel)
  {
    var rest := channel[1..];
    assert channel == [channel[0]] + rest;
    assert Announced(channel) == Announced(rest) + (if channel[0].Completion? then {channel[0].request} else {});
    if channel[0].Completion? {
      assert channel[0] in channel;
      forall e | e in rest && e.Completion? ensures e.request != channel[0].request {
        var k :| 0 <= k < |rest| && rest[k] == e;
        assert channel[k + 1] == e;
      }
    }
  }

  /** Nothing that a wait for the action takes for its completion. */
  predicate PassedOver(seen: seq<Event>, action: string) {
    forall i :: 0 <= i < |seen| ==> seen[i].Noise? || seen[i].action != action
  }

  class Server {
    /** Requests the other side has accepted and not yet published. */
    var inFlight: set<Request>
    /** The buffered events of this client. */
    var channel: seq<Event>
    const client: ClientId
    const user: string
    const capacity: nat
    var nextRequest: Request
    var uncertain: bool

    /** While nothing is in doubt and no mutation is waiting, no completion is outstanding. */
    ghost predicate Valid()
      reads this
    {
      && Once(inFlight, channel)
      && (forall r :: r in Outstanding(inFlight, channel) ==> r < nextRequest)
      && (!uncertain ==> Outstanding(inFlight, channel) == {})
    }

    /** A mutation is waiting, and only its own completion is outstanding. */
    ghost predicate Waiting(r: Request)
      reads this
    {
      Once(inFlight, channel) && r < nextRequest && Outstanding(inFlight, channel) <= {r}
    }

    constructor (client: ClientId, user: string, capacity: nat)
      ensures Valid() && !uncertain && this.client == client && this.user == user && this.capacity == capacity
    {
      this.client, this.user, this.capacity := client, user, capacity;
      inFlight, channel, nextRequest, uncertain := {}, [], 0, false;
    }

    /** Handlers finish and publish, once each, and the broker does with every publication what Deliver does:
        it appends to the buffer of whom it is addressed to, or drops what does not fit. A completion addressed to
        this client comes from one of its own requests; other clients' completions and other users' events are
        published as well. */
    method Interfere()
      requires Once(inFlight, channel)
      modifies this`inFlight, this`channel
      ensures Once(inFlight, channel) && Outstanding(inFlight, channel) <= Outstanding(old(inFlight), old(channel))
      ensures old(channel) <= channel
    {
      var steps: nat := *;
      while steps > 0
        invariant Once(inFlight, channel) && Outstanding(inFlight, channel) <= Outstanding(old(inFlight), old(channel))
        invariant old(channel) <= channel
      {
        steps := steps - 1;
        var quiet: bool := *;
        if quiet || inFlight == {} {
          var m: Message<Event> := *;
          NoiseDelivered(inFlight, channel);
          if m.body.Noise? || !Addressed(client, Subscriber(user, channel), m) {
            channel := Inbox(client, user, channel, m, capacity);
          }
        } else {
          var r :| r in inFlight;
          var action: string, ok: bool := *, *;
          Delivered(inFlight, channel, Completion(r, action, ok));
          Dropped(inFlight, channel, r);
          inFlight := inFlight - {r};
          channel := Inbox(client, user, channel, Message(user, Some(client), Completion(r, action, ok)), capacity);
        }
      }
    }

    /** The request: it may be accepted, and it may be accepted although an error comes back. */
    method Send() returns (sent: Request, ok: bool)
      requires Once(inFlight, channel) && forall r :: r in Outstanding(inFlight, channel) ==> r < nextRequest
      modifies this`inFlight, this`nextRequest
      ensures sent == old(nextRequest) && nextRequest == sent + 1
      ensures Once(inFlight, channel) && Outstanding(inFlight, channel) <= Outstanding(old(inFlight), channel) + {sent}
    {
      sent := nextRequest;
      nextRequest := nextRequest + 1;
      var accepted: bool := *;
      if accepted {
        assert sent !in Outstanding(inFlight, channel);
        inFlight := inFlight + {sent};
      }
      ok := *;
    }

    method InvalidateCompletion()
      modifies this`uncertain
      ensures uncertain
    {
      uncertain := true;
    }

    /** waitForMutation, after `sent`. Whatever completion it consumes is that of the request it waits for, and the
        first one that it sees of this action; without one it leaves the completion in doubt. `seen` is what it has
        read. */
    method WaitForMutation(action: string, ghost sent: Request) returns (result: Result, ghost seen: seq<Event>)
      requires !uncertain && Waiting(sent)
      modifies this`inFlight, this`channel, this`uncertain
      ensures Once(inFlight, channel) && Outstanding(inFlight, channel) <= {sent}
      ensures result.Finished? || result.Rejected? ==>
        !uncertain && Outstanding(inFlight, channel) == {} &&
        result.event.Completion? && result.event.request == sent && result.event.action == action &&
        (result.Finished? <==> result.event.ok)
      ensures !result.Finished? && !result.Rejected? ==> result == InDoubt && uncertain && PassedOver(seen, action)
      ensures result.Finished? || result.Rejected? ==>
        |seen| > 0 && seen[|seen| - 1] == result.event && PassedOver(seen[..|seen| - 1], action)
      ensures old(channel) <= seen + channel
    {
      var ticks: nat := *;
      seen := [];
      while ticks > 0
        invariant !uncertain && Waiting(sent) && PassedOver(seen, action) && old(channel) <= seen + channel
      {
        ticks := ticks - 1;
        Interfere();
        var interrupted: bool := *;
        if interrupted || channel == [] { continue; }
        var event := channel[0];
        Read(inFlight, channel);
        assert seen + channel == (seen + [event]) + channel[1..];
        channel, seen := channel[1..], seen + [event];
        if event.Noise? || event.action != action { continue; }
        if !event.ok { return Rejected(event), seen; }
        return Finished(event), seen;
      }
      // Cancelled, timed out, or the stream has ended.
      InvalidateCompletion();
      result := InDoubt;
    }

    /** The serialised section of create and delete. A completion it returns was produced by its own request,
        and once a completion is in doubt nothing is sent any more. */
    method Mutate(action: string) returns (result: Result, sent: Option<Request>, accepted: bool)
      requires Valid()
      modifies this
      ensures Valid()
      ensures old(uncertain) ==> result == Refused && sent == None && nextRequest == old(nextRequest) && inFlight == old(inFlight)
      ensures old(uncertain) ==> uncertain
      ensures result.Finished? || result.Rejected? ==>
        accepted && sent == Some(old(nextRequest)) && result.event.Completion? && result.event.request == sent.value && result.event.action == action
      ensures !old(uncertain) && !result.Finished? && !result.Rejected? ==> uncertain
    {
      if uncertain { return Refused, None, false; }
      var request;
      request, accepted := Send();
      sent := Some(request);
      if !accepted {
        InvalidateCompletion();
        return InDoubt, sent, false;
      }
      ghost var seen;
      result, seen := WaitForMutation(action, request);
    }
  }

  // ----- The broker -----

  /** The events loop of the broker, one turn at a time. */
  class SSEBroker<T(==)> {
    var clients: map<ClientId, Subscriber<T>>
    const bufferSize: nat
    /** Channels that have been closed. */
    ghost var shut: set<ClientId>

    ghost predicate Valid()
      reads this
    {
      clients.Keys !! shut && forall id :: id in clients ==> |clients[id].inbox| <= bufferSize
    }

    constructor (bufferSize: nat)
      requires bufferSize > 0
      ensures Valid() && clients == map[] && this.bufferSize == bufferSize
    {
      this.bufferSize := bufferSize;
      clients, shut := map[], {};
    }

    /** A new client gets its first message before any other. */
    method Add(id: ClientId, user: string, initial: T)
      requires Valid() && id !in clients && id !in shut && bufferSize > 0
      modifies this`clients
      ensures Valid() && clients == old(clients)[id := Subscriber(user, [initial])]
    {
      clients := clients[id := Subscriber(user, [initial])];
    }

    /** close(c.ch). No channel is closed twice. */
    method CloseChannel(id: ClientId)
      requires id !in shut
      modifies this`shut
      ensures shut == old(shut) + {id}
    {
      shut := shut + {id};
    }

    method Remove(id: ClientId)
      requires Valid()
      modifies this
      ensures Valid() && clients == old(clients) - {id} && shut == if id in old(clients) then old(shut) + {id} else old(shut)
    {
      if id in clients {
        clients := clients - {id};
        CloseChannel(id);
      }
    }

    /** A publication reaches exactly the clients it is addressed to, in order, and is dropped for those whose
        buffer is full; nobody else sees it. */
    method Deliver(m: Message<T>)
      requires Valid()
      modifies this`clients
      ensures Valid() && clients.Keys == old(clients).Keys
      ensures forall id :: id in clients ==> clients[id] == Receives(id, old(clients)[id], m, bufferSize)
      ensures forall id :: id in clients ==> clients[id].user == old(clients)[id].user
      ensures forall id :: id in clients && clients[id].user != m.user ==> clients[id].inbox == old(clients)[id].inbox
      ensures forall id :: id in clients && m.target.Some? && id != m.target.value ==> clients[id].inbox == old(clients)[id].inbox
      ensures forall id :: id in clients && clients[id].user == m.user && (m.target.None? || id == m.target.value) ==>
        clients[id].inbox ==
          if |old(clients)[id].inbox| < bufferSize then old(clients)[id].inbox + [m.body] else old(clients)[id].inbox
    {
      if m.target.Some? {
        var id := m.target.value;
        if id in clients && clients[id].user == m.user && |clients[id].inbox| < bufferSize {
          clients := clients[id := clients[id].(inbox := clients[id].inbox + [m.body])];
        }
        return;
      }
      var todo := clients.Keys;
      while todo != {}
        invariant Valid() && todo <= clients.Keys == old(clients).Keys
        invariant forall id :: id in todo ==> clients[id] == old(clients)[id]
        invariant forall id :: id in clients && id !in todo ==> clients[id] == Receives(id, old(clients)[id], m, bufferSize)
        decreases |todo|
      {
        var id :| id in todo;
        todo := todo - {id};
        if clients[id].user == m.user && |clients[id].inbox| < bufferSize {
          clients := clients[id := clients[id].(inbox := clients[id].inbox + [m.body])];
        }
      }
    }

    /** The deferred clean-up of the loop. */
    method Stop()
      requires Valid()
      modifies this
      ensures Valid() && clients == map[] && shut == old(shut) + old(clients).Keys
    {
      var todo := clients.Keys;
      while todo != {}
        invariant todo <= clients.Keys && clients == old(clients)
        invariant shut == old(shut) + (clients.Keys - todo)
        decreases |todo|
      {
        var id :| id in todo;
        todo := todo - {id};
        CloseChannel(id);
      }
      clients := map[];
    }
  }
}
