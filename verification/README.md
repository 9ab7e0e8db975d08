# Lobby server rendezvous model

A Dafny model of the lobby server of proxy-progs and of its client stub. The lobby lets two
peers meet by a shared endpoint id. One socket *announces* an id. A second socket
*connects* to that id. The lobby then binds the two sockets as peers, sends `connected`
to both, frees the id and relays every later message between them. Closing a bound socket
closes its peer.

`src/LobbyServer` is not part of this model. Its behaviour is the one the sinon assertions of `tests/LobbyServer.js` pin down, so the model
is an abstract transition system that satisfies those assertions.

- `wrappers.dfy`: `Option` (a reference that may be `null`) and `Result` (a value or a thrown error).
- `effects.dfy`: the append-only log of `send(payload)` and `close()` calls. It also holds
  `SentTo` (the payloads a socket received, in order), `Closes` (how often a socket was
  closed) and `SendPrecedesClose`.
- `lobby.dfy`: the lobby state and one pure function per handler. The state is the endpoint
  registry, the `bound_to_peer`/`peer` fields per socket, and the effect log. The handlers
  are `on_announce_message`, the `endpoint` getter, `on_connect_message` (split into the
  lookup and `Pair`), the relay handler, `on_message` and `on_socket_close`.
- `lobby_properties.dfy`: one lemma per test that relates several handler calls.
- `trace.dfy`: the socket wiring as events (command, relayed data, close). A `Machine` pairs
  the lobby with the set of sockets whose one-shot command handler has fired. `Run` plays a
  sequence of events against it. The invariant `Inv` holds of every reachable machine and
  includes symmetric bindings. Lemmas over whole event sequences follow.
- `client.dfy`: the `Client` record of `src/Client.js` and its `goAnnounced` transition.

Outgoing messages are the exact strings the tests compare against:
`{"error":"endpoint-already-announced"}` and `{"event":"connected"}`. Relayed messages are
opaque strings and are forwarded unchanged. An inbound command is a `Request(command,
endpointId)`, i.e. the already-parsed `command` and `endpoint_id` fields.

The test at tests/LobbyServer.js:380 says `client_socket.peer` should be the endpoint
socket, but the assertion re-checks `endpoint.socket.peer`. The model follows the stated
intent, and `Pair` proves both directions of the binding.

## Model

| member | source | states |
|---|---|---|
| `Lobby.Endpoint` | tests/LobbyServer.js:269-280 | The getter succeeds exactly when the id is registered and then yields the announcing socket; otherwise it fails with the unknown-endpoint (`ReferenceError`) error for that id |
| `Lobby.OnAnnounceMessage` | tests/LobbyServer.js:246-309 | A new id becomes resolvable to the announcing socket, with no reply and no other id disturbed. An id already registered gets the new socket exactly one `endpoint-already-announced` send and exactly one close, the send first. No other socket is sent anything or closed. Socket fields are untouched and the log only grows |
| `Lobby.Pair` | tests/LobbyServer.js:333-381 | Both sockets are bound, each with the other as peer, and no other socket's fields change. For two distinct sockets, each is sent exactly one `connected` and nobody else is sent anything. Nothing is closed. The id no longer resolves and every other id resolves as before |
| `Lobby.PairKeepsBindingSymmetric` | tests/LobbyServer.js:376-380 | Pairing two distinct unbound sockets keeps every binding symmetric: each bound socket's peer is another socket, bound back to it |
| `Lobby.OnConnectMessage` | tests/LobbyServer.js:343-352 | When the getter resolves the id, the connect handler pairs the client with exactly the socket the getter returned, under that id |
| `Lobby.Relay` | tests/LobbyServer.js:407-420 | A message on a paired socket is sent verbatim, exactly once, to its peer. Nothing is sent to anyone else, nothing is closed, and registry and socket fields are unchanged |
| `Lobby.OnMessage` | tests/LobbyServer.js:153-227 | `announce` routes to the announce handler and `connect` to the connect handler, each with the request's endpoint id. Any other command closes that socket exactly once, with no send and no other close, and leaves registry and fields unchanged |
| `Lobby.OnSocketClose` | tests/LobbyServer.js:487-508 | An unbound socket's close sends nothing, closes nothing and leaves socket fields unchanged, whatever its `peer` field holds. A bound socket's close closes its peer exactly once, sends nothing and leaves socket fields unchanged |
| `LobbyProperties.AnnouncedIdsResolve` | tests/LobbyServer.js:246-267 | After two sockets announce two distinct fresh ids, each id resolves to the socket that announced it |
| `LobbyProperties.DuplicateAnnounceRejected` | tests/LobbyServer.js:282-309 | Announcing an id a second time sends the second socket exactly one `endpoint-already-announced` and closes it exactly once, with the send before the close |
| `LobbyProperties.ConnectPairsWithAnnouncedEndpoint` | tests/LobbyServer.js:333-381 | Connecting to an announced id succeeds and binds endpoint and client symmetrically. Each is sent exactly one `connected`, and neither is closed |
| `LobbyProperties.PairedSocketsRelayBothWays` | tests/LobbyServer.js:383-427 | After pairing, a message from the endpoint reaches the client verbatim exactly once, and a message from the client reaches the endpoint the same way |
| `LobbyProperties.ConnectFreesId` | tests/LobbyServer.js:429-468 | An id that resolved before a successful connect fails to resolve after it |
| `LobbyProperties.CloseCascadesOnlyWhenBound` | tests/LobbyServer.js:487-508 | Closing an unbound socket does not close the socket in its `peer` field. After `bound_to_peer` is set, closing it again closes that peer, exactly once across both calls |
| `Trace.Step` | tests/LobbyServer.js:74-129 | A socket's first command goes to `on_message` with that socket and request, and later commands on it change nothing, because the command handler is registered with `once`. Data on a paired socket goes to the relay handler; data on an unpaired one changes nothing. A close goes to `on_socket_close` for that socket. Every step keeps the invariant, the log only grows, and sockets already bound keep their fields |
| `Trace.Run` | tests/LobbyServer.js:74-129 | Over any sequence of events, the effect log only grows, the invariant holds (including symmetric bindings) and every socket bound at the start keeps its binding |
| `Trace.CommandPreservesInv` | tests/LobbyServer.js:153-227 | A socket's first command keeps the invariant, whichever handler it reaches: bindings stay symmetric, only sockets that used their command are bound or registered, a registered socket is unbound and under one id only. Already-bound sockets keep their fields |
| `Trace.ReachableBindingsAreSymmetricAndStable` | tests/LobbyServer.js:376-380 | In every lobby reached from a fresh one, a bound socket's peer is a different socket, bound back to it. A bound socket keeps that peer through any further events, so its relay target never changes |
| `Trace.UnannouncedStaysUnresolvable` | tests/LobbyServer.js:269-280 | From a state where an id does not resolve, events that never announce it leave it unresolvable |
| `Trace.NeverAnnouncedFails` | tests/LobbyServer.js:269-280 | In a fresh lobby, after any events that never announce an id, the getter fails for that id with the unknown-endpoint error |
| `Trace.UnmentionedIdUnchanged` | tests/LobbyServer.js:429-445 | Events that never name an id (announcing or pairing other ids, relaying, closing) leave what that id resolves to unchanged |
| `Trace.RendezvousScenario` | tests/LobbyServer.js:312-468 | `s1` announces `a`, `s2` announces `b`, `s3` connects to `a`. Then `s1` and `s3` each receive `connected` exactly once, `a` no longer resolves and `b` still resolves to `s2` |
| `Trace.SecondCommandIgnored` | tests/LobbyServer.js:84-98 | A socket that announces `a` and then announces `b` is registered under `a` only, because its one-shot command handler has already fired |
| `ClientStub.Label` | src/Client.js:5-20 | The stored state string is `"initial"` exactly for the initial phase and `"announced"` exactly for the announced phase |
| `ClientStub.NewClient` | src/Client.js:3-8 | A new client has state `"initial"`, is not connected to a peer and has no peer |
| `ClientStub.GoAnnounced` | src/Client.js:18-21 | The state becomes `"announced"`; `connected_to_peer` and `peer` are unchanged |

## Left out

- WebSocket server construction and listening on port 5555 (tests/LobbyServer.js:31-50): transport glue.
- Handler registration (`once('message')`, `on('close')`, `on('message')` for relaying) is
  modelled only as the transitions those handlers trigger (`Trace.Step`), not as callbacks.
  A relayed message and a command are separate events.
- Trace.Step: the command handler is registered with `once` (tests/LobbyServer.js:86-87), and
  no re-arming is shown, so each socket's command handler fires once and later commands are
  ignored. If the server re-armed it, one socket could announce under two ids and then be
  paired twice. The bindings would then not be symmetric, so the symmetry invariant would not
  hold.
- JSON parsing and `JSON.stringify`: commands arrive parsed. A malformed or field-less
  message is not modelled.
- Lobby.OnConnectMessage: the tests assert that the getter is called exactly once. A pure model
  has no call count, so the contract instead says that the outcome is the pairing with the
  getter's result.
- Lobby.OnConnectMessage: connecting to an id nobody announced propagates the getter's error. No
  contract is given for it because the tests stub the getter in every connect test.
- Lobby.OnAnnounceMessage: whether a duplicate announce leaves the first registration intact is not
  asserted, so the contract says nothing about the registry in that case. The model keeps the
  first registration.
- Lobby.OnSocketClose: whether closing an announced but unpaired socket frees its id is not
  asserted, so the contract says nothing about the registry. The model leaves the registry
  as it is.
- Trace.Run: a handler error stops the run. What the server does after an uncaught error
  is not modelled.
- The client's no-op `socket` object (src/Client.js:9-15): it has no behaviour.
- Log suppression and the test-framework scaffolding: not behaviour of the lobby.
