/**
 The connection wiring of the lobby, as the transitions its event handlers trigger. A new
 connection gets a one-shot command handler (`once('message')`) that passes its first
 message to `on_message`, and a close handler that calls `on_socket_close`. Pairing adds
 a relay handler on both sockets. `Run` plays a sequence of such events; an error thrown by
 a handler stops the run.
 */
module Trace {
  import opened Wrappers
  import opened Effects
  import opened Lobby

  datatype Event =
    | Command(sock: SocketId, req: Request)    // for the one-shot handler calling on_message
    | PeerData(sock: SocketId, payload: string) // for the relay handler, if installed
    | Disconnect(sock: SocketId)               // handled by on_socket_close

  /** The lobby, and the sockets whose one-shot command handler has already fired. */
  datatype Machine = Machine(lobby: State, spent: set<SocketId>)

  /** A freshly created lobby with no connection seen yet. */
  const Start: Machine := Machine(Initial, {})

  /** Does `e` announce under `id`? */
  predicate AnnouncesId(e: Event, id: EndpointId)
  {
    e.Command? && e.req == Request("announce", id)
  }

  /** Does `e` carry `id` in a command? */
  predicate MentionsId(e: Event, id: EndpointId)
  {
    e.Command? && e.req.endpointId == id
  }

  /**
   What holds of every machine reachable from `Start`. Bindings are symmetric. Only
   sockets that have used their command are bound or registered. A registered socket is
   not yet bound, and it is registered under one id only.
   */
  predicate Inv(m: Machine)
  {
    var l := m.lobby;
    && Valid(l)
    && BindingSymmetric(l)
    && (forall s | s in l.sockets && l.sockets[s].boundToPeer :: s in m.spent)
    && (forall id | id in l.registry :: l.registry[id] in m.spent && !Bound(l, l.registry[id]))
    && (forall id1, id2 | id1 in l.registry && id2 in l.registry && id1 != id2 ::
          l.registry[id1] != l.registry[id2])
  }

  lemma StartInv()
    ensures Inv(Start)
  {
  }

  /** The first command of a socket keeps the invariant, whichever handler it reaches. */
  lemma CommandPreservesInv(m: Machine, s: SocketId, req: Request)
    requires Inv(m) && s !in m.spent
    requires OnMessage(m.lobby, s, req).Success?
    ensures Inv(Machine(OnMessage(m.lobby, s, req).value, m.spent + {s}))
    ensures forall x :: Bound(m.lobby, x) ==>
      Fields(OnMessage(m.lobby, s, req).value, x) == Fields(m.lobby, x)
  {
    var l := m.lobby;
    var r := OnMessage(l, s, req).value;
    assert !Bound(l, s);
    assert forall id | id in l.registry :: l.registry[id] != s;
    if req.command == "connect" {
      var id := req.endpointId;
      var e := l.registry[id];
      assert r == Pair(l, e, s, id);
      PairKeepsBindingSymmetric(l, e, s, id);
      assert forall id' | id' in r.registry :: id' in l.registry && id' != id && r.registry[id'] == l.registry[id'];
      assert forall id' | id' in r.registry :: r.registry[id'] != e && r.registry[id'] != s;
    }
  }

  /**
   One event. A socket's command handler fires once; later commands on it reach no
   handler. A relay handler exists only on a paired socket, so data on an unpaired socket
   changes nothing. The sockets already bound keep their binding.
   */
  function Step(m: Machine, e: Event): (r: Result<Machine, LobbyError>)
    requires Inv(m)
    ensures r.Success? ==> Inv(r.value) && m.lobby.log <= r.value.lobby.log
    ensures r.Success? ==> forall x :: Bound(m.lobby, x) ==> Fields(r.value.lobby, x) == Fields(m.lobby, x)
    ensures e.Command? && e.sock in m.spent ==> r == Success(m)
    ensures e.Command? && e.sock !in m.spent && OnMessage(m.lobby, e.sock, e.req).Success? ==>
      r == Success(Machine(OnMessage(m.lobby, e.sock, e.req).value, m.spent + {e.sock}))
    ensures e.PeerData? && Bound(m.lobby, e.sock) ==>
      r == Success(m.(lobby := Relay(m.lobby, e.sock, e.payload)))
    ensures e.PeerData? && !Bound(m.lobby, e.sock) ==> r == Success(m)
    ensures e.Disconnect? ==> r == Success(m.(lobby := OnSocketClose(m.lobby, e.sock)))
  {
    match e
    case Command(s, req) =>
      if s in m.spent then Success(m)
      else
        (match OnMessage(m.lobby, s, req)
         case Failure(err) => Failure(err)
         case Success(l) =>
           CommandPreservesInv(m, s, req);
           Success(Machine(l, m.spent + {s})))
    case PeerData(s, p) =>
      if Bound(m.lobby, s) then Success(m.(lobby := Relay(m.lobby, s, p))) else Success(m)
    case Disconnect(s) => Success(m.(lobby := OnSocketClose(m.lobby, s)))
  }

  /**
   Plays `events` in order. The effect log only grows, the invariant holds throughout, and
   a socket bound at the start keeps its binding to the end.
   */
  function Run(m: Machine, events: seq<Event>): (r: Result<Machine, LobbyError>)
    requires Inv(m)
    ensures r.Success? ==> Inv(r.value) && m.lobby.log <= r.value.lobby.log
    ensures r.Success? ==> forall x :: Bound(m.lobby, x) ==> Fields(r.value.lobby, x) == Fields(m.lobby, x)
    decreases |events|
  {
    if events == [] then Success(m)
    else
      match Step(m, events[0])
      case Failure(e) => Failure(e)
      case Success(next) => Run(next, events[1..])
  }

  /**
   In any lobby reached from a fresh one, a bound socket's peer is bound back to it. Once
   bound, a socket keeps that peer, so its relay target never changes.
   */
  lemma ReachableBindingsAreSymmetricAndStable(events: seq<Event>, more: seq<Event>, s: SocketId)
    requires Run(Start, events).Success?
    requires Run(Run(Start, events).value, more).Success?
    ensures var l := Run(Start, events).value.lobby;
      Bound(l, s) ==>
        && PeerOf(l, s).Some? && PeerOf(l, s).value != s
        && Bound(l, PeerOf(l, s).value) && PeerOf(l, PeerOf(l, s).value) == Some(s)
        && Fields(Run(Run(Start, events).value, more).value.lobby, s) == Fields(l, s)
  {
  }

  /** An id that no event announces stays unresolvable from a state where it is unresolvable. */
  lemma {:induction false} UnannouncedStaysUnresolvable(m: Machine, events: seq<Event>, id: EndpointId)
    requires Inv(m) && Endpoint(m.lobby, id).Failure?
    requires forall i | 0 <= i < |events| :: !AnnouncesId(events[i], id)
    requires Run(m, events).Success?
    ensures Endpoint(Run(m, events).value.lobby, id).Failure?
    decreases |events|
  {
    if events != [] {
      var next := Step(m, events[0]).value;
      assert Endpoint(next.lobby, id).Failure? by {
        match events[0]
        case Command(s, req) =>
          if s !in m.spent {
            if req.command == "announce" {
              assert req.endpointId != id;
            } else if req.command == "connect" {
              assert Endpoint(m.lobby, req.endpointId).Success?;
            }
          }
        case PeerData(_, _) =>
        case Disconnect(_) =>
      }
      UnannouncedStaysUnresolvable(next, events[1..], id);
    }
  }

  /** In a fresh lobby, an id nobody announced makes the endpoint getter throw. */
  lemma NeverAnnouncedFails(events: seq<Event>, id: EndpointId)
    requires forall i | 0 <= i < |events| :: !AnnouncesId(events[i], id)
    requires Run(Start, events).Success?
    ensures Endpoint(Run(Start, events).value.lobby, id) == Failure(UnknownEndpoint(id))
  {
    UnannouncedStaysUnresolvable(Start, events, id);
  }

  /** Events that never name `id` leave what `id` resolves to untouched. */
  lemma {:induction false} UnmentionedIdUnchanged(m: Machine, events: seq<Event>, id: EndpointId)
    requires Inv(m)
    requires forall i | 0 <= i < |events| :: !MentionsId(events[i], id)
    requires Run(m, events).Success?
    ensures Endpoint(Run(m, events).value.lobby, id) == Endpoint(m.lobby, id)
    decreases |events|
  {
    if events != [] {
      var next := Step(m, events[0]).value;
      assert Endpoint(next.lobby, id) == Endpoint(m.lobby, id) by {
        match events[0]
        case Command(s, req) =>
          if s !in m.spent {
            assert req.endpointId != id;
            if req.command == "connect" {
              assert Endpoint(m.lobby, req.endpointId).Success?;
            }
          }
        case PeerData(_, _) =>
        case Disconnect(_) =>
      }
      UnmentionedIdUnchanged(next, events[1..], id);
    }
  }

  /**
   Three sockets: `s1` announces `a`, `s2` announces `b`, `s3` connects to `a`. Then `s1`
   and `s3` each hear `connected` exactly once, `a` is gone and `b` still resolves to `s2`.
   */
  lemma RendezvousScenario(a: EndpointId, b: EndpointId, s1: SocketId, s2: SocketId, s3: SocketId)
    requires a != b && s1 != s2 && s1 != s3 && s2 != s3
    ensures var r := Run(Start, [Command(s1, Request("announce", a)),
                                 Command(s2, Request("announce", b)),
                                 Command(s3, Request("connect", a))]);
      && r.Success?
      && SentTo(r.value.lobby.log, s1) == [CONNECTED]
      && SentTo(r.value.lobby.log, s3) == [CONNECTED]
      && Endpoint(r.value.lobby, a).Failure?
      && Endpoint(r.value.lobby, b) == Success(s2)
  {
    var events := [Command(s1, Request("announce", a)),
                   Command(s2, Request("announce", b)),
                   Command(s3, Request("connect", a))];
    var m1 := Machine(OnAnnounceMessage(Initial, s1, a), {s1});
    var m2 := Machine(OnAnnounceMessage(m1.lobby, s2, b), {s1, s2});
    assert Endpoint(m2.lobby, a) == Success(s1);
    var m3 := Machine(Pair(m2.lobby, s1, s3, a), {s1, s2, s3});
    assert m2.lobby.log == [];
    assert NewEffects(m2.lobby, m3.lobby) == m3.lobby.log;
    assert Start.spent == {} && Start.lobby == Initial;
    assert OnMessage(Initial, s1, Request("announce", a)) == Success(m1.lobby);
    assert Start.spent + {s1} == m1.spent && m1.spent + {s2} == m2.spent && m2.spent + {s3} == m3.spent;
    assert Step(Start, events[0]) == Success(m1);
    assert Step(m1, events[1]) == Success(m2);
    assert Step(m2, events[2]) == Success(m3);
    assert Run(m2, events[2..]) == Success(m3) by {
      assert events[2..][1..] == [];
    }
    assert Run(m1, events[1..]) == Success(m3) by {
      assert events[1..][1..] == events[2..];
    }
    assert Run(Start, events) == Success(m3);
  }

  /** A socket's second command reaches no handler: announcing again under `b` registers nothing. */
  lemma SecondCommandIgnored(a: EndpointId, b: EndpointId, s: SocketId)
    requires a != b
    ensures var r := Run(Start, [Command(s, Request("announce", a)), Command(s, Request("announce", b))]);
      && r.Success?
      && Endpoint(r.value.lobby, a) == Success(s)
      && Endpoint(r.value.lobby, b).Failure?
  {
    var events := [Command(s, Request("announce", a)), Command(s, Request("announce", b))];
    var m1 := Machine(OnAnnounceMessage(Initial, s, a), {s});
    assert Start.spent + {s} == m1.spent;
    assert Step(Start, events[0]) == Success(m1);
    assert Step(m1, events[1]) == Success(m1);
    assert Run(m1, events[1..]) == Success(m1) by {
      assert events[1..][1..] == [];
    }
  }
}
