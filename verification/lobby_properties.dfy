/**
 Properties of the lobby that relate several handler calls, one per behaviour the
 LobbyServer test suite pins down.
 */
module LobbyProperties {
  import opened Wrappers
  import opened Effects
  import opened Lobby

  /** Two sockets announcing two different ids can each be found under their own id. */
  lemma AnnouncedIdsResolve(l: State, a: EndpointId, b: EndpointId, sa: SocketId, sb: SocketId)
    requires a != b && a !in l.registry && b !in l.registry
    ensures var r := OnAnnounceMessage(OnAnnounceMessage(l, sa, a), sb, b);
      Endpoint(r, a) == Success(sa) && Endpoint(r, b) == Success(sb)
  {
  }

  /**
   A second announce of an id already taken sends the new socket exactly one
   `endpoint-already-announced` error and then closes it exactly once.
   */
  lemma DuplicateAnnounceRejected(l: State, id: EndpointId, sa: SocketId, sb: SocketId)
    requires id !in l.registry
    ensures var r := OnAnnounceMessage(OnAnnounceMessage(l, sa, id), sb, id);
      && l.log <= r.log
      && SentTo(NewEffects(l, r), sb) == [ENDPOINT_ALREADY_ANNOUNCED]
      && Closes(NewEffects(l, r), sb) == 1
      && SendPrecedesClose(NewEffects(l, r), sb)
  {
  }

  /**
   Connecting a second socket to an announced id binds the two to each other, sends each
   exactly one `connected` event, and closes nothing.
   */
  lemma ConnectPairsWithAnnouncedEndpoint(l: State, client: SocketId, id: EndpointId)
    requires id in l.registry && l.registry[id] != client
    ensures OnConnectMessage(l, client, id).Success?
    ensures var endpoint := l.registry[id];
      var r := OnConnectMessage(l, client, id).value;
      && Bound(r, endpoint) && PeerOf(r, endpoint) == Some(client)
      && Bound(r, client) && PeerOf(r, client) == Some(endpoint)
      && SentTo(NewEffects(l, r), endpoint) == [CONNECTED]
      && SentTo(NewEffects(l, r), client) == [CONNECTED]
      && Closes(NewEffects(l, r), endpoint) == 0
      && Closes(NewEffects(l, r), client) == 0
  {
  }

  /**
   Once paired, a message arriving on either socket reaches the other, verbatim and
   exactly once.
   */
  lemma PairedSocketsRelayBothWays(l: State, endpoint: SocketId, client: SocketId, id: EndpointId, message: string)
    requires Valid(l)
    ensures var p := Pair(l, endpoint, client, id);
      && SentTo(NewEffects(p, Relay(p, endpoint, message)), client) == [message]
      && SentTo(NewEffects(p, Relay(p, client, message)), endpoint) == [message]
  {
  }

  /** An id that resolved before a successful connect no longer resolves after it. */
  lemma ConnectFreesId(l: State, client: SocketId, id: EndpointId)
    requires Endpoint(l, id).Success?
    ensures OnConnectMessage(l, client, id).Success?
    ensures Endpoint(OnConnectMessage(l, client, id).value, id).Failure?
  {
  }

  /**
   Closing `s` while it is unbound leaves the socket in its `peer` field open; after
   `bound_to_peer` is set, closing `s` again closes that peer, exactly once over both calls.
   */
  lemma CloseCascadesOnlyWhenBound(l: State, s: SocketId, peer: SocketId)
    requires Valid(l) && Fields(l, s) == SocketFields(false, Some(peer))
    ensures var first := OnSocketClose(l, s);
      var rebound := first.(sockets := first.sockets[s := SocketFields(true, Some(peer))]);
      var second := OnSocketClose(rebound, s);
      && Closes(NewEffects(l, first), peer) == 0
      && l.log <= second.log
      && Closes(NewEffects(l, second), peer) == 1
  {
  }
}
