/**
 The lobby server's rendezvous state machine. One socket announces itself under an
 endpoint id; a second socket connects to that id; the lobby then binds the two as peers,
 tells both, forgets the id and relays every further message between them. Closing a bound
 socket closes its peer.

 The lobby is an immutable value: the endpoint registry, the `bound_to_peer`/`peer` fields
 the server keeps on each socket, and the log of `send`/`close` calls it has made.
 */
module Lobby {
  import opened Wrappers
  import opened Effects

  type EndpointId = string

  /** What a duplicate announcer is sent before it is closed: `{"error":"endpoint-already-announced"}`. */
  const ENDPOINT_ALREADY_ANNOUNCED: string := "{\"error\":\"endpoint-already-announced\"}"

  /** What both sockets of a new pairing are sent: `{"event":"connected"}`. */
  const CONNECTED: string := "{\"event\":\"connected\"}"

  /** The `ReferenceError` thrown by the endpoint getter for an id nobody announced. */
  datatype LobbyError = UnknownEndpoint(id: EndpointId)

  /** The fields the server sets on a socket when it pairs it. */
  datatype SocketFields = SocketFields(boundToPeer: bool, peer: Option<SocketId>)

  /** A parsed inbound command: its `command` field and the `endpoint_id` it carries. */
  datatype Request = Request(command: string, endpointId: EndpointId)

  datatype State = State(
    registry: map<EndpointId, SocketId>,   // announced, not yet paired endpoints
    sockets: map<SocketId, SocketFields>,  // sockets the server has written fields on
    log: seq<Effect>)                      // every send/close, oldest first

  /** A freshly created lobby: nothing announced, nothing bound, nothing sent. */
  const Initial: State := State(map[], map[], [])

  /** The fields of `s`; a socket the server never touched is unbound with no peer. */
  function Fields(l: State, s: SocketId): SocketFields
  {
    if s in l.sockets then l.sockets[s] else SocketFields(false, None)
  }

  predicate Bound(l: State, s: SocketId)
  {
    Fields(l, s).boundToPeer
  }

  function PeerOf(l: State, s: SocketId): Option<SocketId>
  {
    Fields(l, s).peer
  }

  /** A socket flagged `bound_to_peer` always has a `peer` to cascade a close to. */
  predicate Valid(l: State)
  {
    forall s | s in l.sockets :: l.sockets[s].boundToPeer ==> l.sockets[s].peer.Some?
  }

  /**
   Bindings come in pairs: a bound socket's peer is another socket, bound back to it.
   */
  predicate BindingSymmetric(l: State)
  {
    forall s | s in l.sockets && l.sockets[s].boundToPeer ::
      && l.sockets[s].peer.Some?
      && var p := l.sockets[s].peer.value;
        p != s && Bound(l, p) && PeerOf(l, p) == Some(s)
  }

  /** The effects `after` has logged since `before`. */
  function NewEffects(before: State, after: State): seq<Effect>
    requires before.log <= after.log
  {
    after.log[|before.log|..]
  }

  /** The endpoint getter: the socket announced under `id`, or `ReferenceError` if none is. */
  function Endpoint(l: State, id: EndpointId): (r: Result<SocketId, LobbyError>)
    ensures r.Success? <==> id in l.registry
    ensures r.Success? ==> r.value == l.registry[id]
    ensures r.Failure? ==> r.error == UnknownEndpoint(id)
  {
    if id in l.registry then Success(l.registry[id]) else Failure(UnknownEndpoint(id))
  }

  /**
   `on_announce_message(s, {endpoint_id: id})`. A new id becomes resolvable to `s` with no
   reply and no other id is disturbed; an id already announced earns `s` one error message
   followed by one close.
   */
  function OnAnnounceMessage(l: State, s: SocketId, id: EndpointId): (r: State)
    ensures l.log <= r.log
    ensures id !in l.registry ==> Endpoint(r, id) == Success(s) && NewEffects(l, r) == []
    ensures id !in l.registry ==>
      forall other :: other != id ==> Endpoint(r, other) == Endpoint(l, other)
    ensures id in l.registry ==>
      var d := NewEffects(l, r);
      && SentTo(d, s) == [ENDPOINT_ALREADY_ANNOUNCED]
      && Closes(d, s) == 1
      && SendPrecedesClose(d, s)
      && (forall x :: x != s ==> SentTo(d, x) == [] && Closes(d, x) == 0)
    ensures r.sockets == l.sockets
    ensures Valid(l) ==> Valid(r)
  {
    if id in l.registry then
      var d := [Send(s, ENDPOINT_ALREADY_ANNOUNCED), Close(s)];
      assert d == [d[0]] + [d[1]];
      assert forall x :: SentTo(d, x) == SentTo([d[0]], x) + SentTo([d[1]], x) by {
        forall x { SentToAppend([d[0]], [d[1]], x); }
      }
      assert forall x :: Closes(d, x) == Closes([d[0]], x) + Closes([d[1]], x) by {
        forall x { ClosesAppend([d[0]], [d[1]], x); }
      }
      assert forall x :: SentTo([d[0]], x) == (if x == s then [ENDPOINT_ALREADY_ANNOUNCED] else []) && Closes([d[0]], x) == 0 by {
        forall x { SingleEffect(d[0], x); }
      }
      assert forall x :: SentTo([d[1]], x) == [] && Closes([d[1]], x) == (if x == s then 1 else 0) by {
        forall x { SingleEffect(d[1], x); }
      }
      var r := l.(log := l.log + d);
      assert NewEffects(l, r) == d;
      r
    else
      l.(registry := l.registry[id := s])
  }

  /**
   What `on_connect_message` does once the getter has produced `endpoint` for `id`: bind
   the two sockets to each other, send `connected` to each, and free `id`.
   */
  function Pair(l: State, endpoint: SocketId, client: SocketId, id: EndpointId): (r: State)
    ensures l.log <= r.log
    ensures Bound(r, endpoint) && PeerOf(r, endpoint) == Some(client)
    ensures Bound(r, client) && PeerOf(r, client) == Some(endpoint)
    ensures forall x :: x != endpoint && x != client ==> Fields(r, x) == Fields(l, x)
    ensures endpoint != client ==>
      var d := NewEffects(l, r);
      && SentTo(d, endpoint) == [CONNECTED]
      && SentTo(d, client) == [CONNECTED]
      && (forall x :: x != endpoint && x != client ==> SentTo(d, x) == [])
    ensures forall x :: Closes(NewEffects(l, r), x) == 0
    ensures Endpoint(r, id).Failure?
    ensures forall other :: other != id ==> Endpoint(r, other) == Endpoint(l, other)
    ensures Valid(l) ==> Valid(r)
  {
    var d := [Send(endpoint, CONNECTED), Send(client, CONNECTED)];
    assert d == [d[0]] + [d[1]];
    assert forall x :: SentTo(d, x) == SentTo([d[0]], x) + SentTo([d[1]], x) by {
      forall x { SentToAppend([d[0]], [d[1]], x); }
    }
    assert forall x :: Closes(d, x) == Closes([d[0]], x) + Closes([d[1]], x) by {
      forall x { ClosesAppend([d[0]], [d[1]], x); }
    }
    assert forall x :: SentTo([d[0]], x) == (if x == endpoint then [CONNECTED] else []) && Closes([d[0]], x) == 0 by {
      forall x { SingleEffect(d[0], x); }
    }
    assert forall x :: SentTo([d[1]], x) == (if x == client then [CONNECTED] else []) && Closes([d[1]], x) == 0 by {
      forall x { SingleEffect(d[1], x); }
    }
    var sockets := l.sockets[endpoint := SocketFields(true, Some(client))][client := SocketFields(true, Some(endpoint))];
    var r := State(l.registry - {id}, sockets, l.log + d);
    assert NewEffects(l, r) == d;
    r
  }

  /** Pairing two distinct unbound sockets keeps every binding symmetric. */
  lemma PairKeepsBindingSymmetric(l: State, endpoint: SocketId, client: SocketId, id: EndpointId)
    requires BindingSymmetric(l) && endpoint != client
    requires !Bound(l, endpoint) && !Bound(l, client)
    ensures BindingSymmetric(Pair(l, endpoint, client, id))
  {
    var r := Pair(l, endpoint, client, id);
    forall s | s in r.sockets && r.sockets[s].boundToPeer
      ensures r.sockets[s].peer.Some?
      ensures var p := r.sockets[s].peer.value; p != s && Bound(r, p) && PeerOf(r, p) == Some(s)
    {
      if s != endpoint && s != client {
        assert Fields(r, s) == Fields(l, s);
        var p := l.sockets[s].peer.value;
        assert p != endpoint && p != client;
        assert Fields(r, p) == Fields(l, p);
      }
    }
  }

  /**
   `on_connect_message(client, {endpoint_id: id})`: look the id up with the endpoint getter
   and pair `client` with the socket it returns. A failed lookup propagates the getter's error.
   */
  function OnConnectMessage(l: State, client: SocketId, id: EndpointId): (r: Result<State, LobbyError>)
    ensures Endpoint(l, id).Success? ==> r == Success(Pair(l, Endpoint(l, id).value, client, id))
    ensures r.Success? ==> Valid(l) ==> Valid(r.value)
    ensures r.Success? ==> l.log <= r.value.log
  {
    match Endpoint(l, id)
    case Failure(e) => Failure(e)
    case Success(endpoint) => Success(Pair(l, endpoint, client, id))
  }

  /**
   The relay handler installed on a paired socket `from`: `message` goes, unmodified and
   once, to its peer, and nothing else happens.
   */
  function Relay(l: State, from: SocketId, message: string): (r: State)
    requires Valid(l) && Bound(l, from)
    ensures l.log <= r.log
    ensures var d := NewEffects(l, r);
      var to := PeerOf(l, from).value;
      && SentTo(d, to) == [message]
      && (forall x :: x != to ==> SentTo(d, x) == [])
      && (forall x :: Closes(d, x) == 0)
    ensures r.registry == l.registry && r.sockets == l.sockets
  {
    var to := PeerOf(l, from).value;
    var d := [Send(to, message)];
    assert forall x :: SentTo(d, x) == (if x == to then [message] else []) && Closes(d, x) == 0 by {
      forall x { SingleEffect(d[0], x); }
    }
    var r := l.(log := l.log + d);
    assert NewEffects(l, r) == d;
    r
  }

  /**
   `on_message(s, message)`: route an `announce` to the announce handler and a `connect` to
   the connect handler, each with the request's endpoint id; close `s`, without a reply,
   for any other command.
   */
  function OnMessage(l: State, s: SocketId, req: Request): (r: Result<State, LobbyError>)
    ensures req.command == "announce" ==> r == Success(OnAnnounceMessage(l, s, req.endpointId))
    ensures req.command == "connect" ==> r == OnConnectMessage(l, s, req.endpointId)
    ensures req.command != "announce" && req.command != "connect" ==>
      && r.Success?
      && r.value.registry == l.registry
      && r.value.sockets == l.sockets
      && l.log <= r.value.log
      && var d := NewEffects(l, r.value);
        && Closes(d, s) == 1
        && (forall x :: x != s ==> Closes(d, x) == 0)
        && (forall x :: SentTo(d, x) == [])
    ensures r.Success? ==> Valid(l) ==> Valid(r.value)
    ensures r.Success? ==> l.log <= r.value.log
  {
    if req.command == "announce" then
      Success(OnAnnounceMessage(l, s, req.endpointId))
    else if req.command == "connect" then
      OnConnectMessage(l, s, req.endpointId)
    else
      var d := [Close(s)];
      assert forall x :: Closes(d, x) == (if x == s then 1 else 0) && SentTo(d, x) == [] by {
        forall x { SingleEffect(d[0], x); }
      }
      var r := l.(log := l.log + d);
      assert NewEffects(l, r) == d;
      Success(r)
  }

  /**
   `on_socket_close(s)`: when `s` is bound, close its peer once; when it is not, do nothing,
   whatever `peer` happens to hold.
   */
  function OnSocketClose(l: State, s: SocketId): (r: State)
    requires Valid(l)
    ensures l.log <= r.log
    ensures !Bound(l, s) ==> NewEffects(l, r) == []
    ensures Bound(l, s) ==>
      var d := NewEffects(l, r);
      var peer := PeerOf(l, s).value;
      && Closes(d, peer) == 1
      && (forall x :: x != peer ==> Closes(d, x) == 0)
      && (forall x :: SentTo(d, x) == [])
    ensures r.sockets == l.sockets
    ensures Valid(r)
  {
    if Bound(l, s) then
      var peer := PeerOf(l, s).value;
      var d := [Close(peer)];
      assert forall x :: Closes(d, x) == (if x == peer then 1 else 0) && SentTo(d, x) == [] by {
        forall x { SingleEffect(d[0], x); }
      }
      var r := l.(log := l.log + d);
      assert NewEffects(l, r) == d;
      r
    else
      l
  }
}
