/**
 The observable effects the lobby has on sockets: `send(payload)` and `close()` calls,
 recorded in an append-only log so that "called exactly once" and "called after" can be
 stated about it.
 */
module Effects {

  /** Identity of one client connection (a WebSocket on the server side). */
  type SocketId = nat

  datatype Effect =
    | Send(sock: SocketId, payload: string)  // socket.send(payload)
    | Close(sock: SocketId)                  // socket.close()

  /** The payloads, in order, that `effects` sends to socket `s`. */
  function SentTo(effects: seq<Effect>, s: SocketId): seq<string>
  {
    if effects == [] then []
    else
      var rest := SentTo(effects[1..], s);
      match effects[0]
      case Send(t, p) => if t == s then [p] + rest else rest
      case Close(_) => rest
  }

  /** How many times `effects` closes socket `s`. */
  function Closes(effects: seq<Effect>, s: SocketId): nat
  {
    if effects == [] then 0
    else (if effects[0] == Close(s) then 1 else 0) + Closes(effects[1..], s)
  }

  /** Every send to `s` in `effects` comes before every close of `s`. */
  predicate SendPrecedesClose(effects: seq<Effect>, s: SocketId)
  {
    forall i, j | 0 <= i < |effects| && 0 <= j < |effects| ::
      effects[i].Send? && effects[i].sock == s && effects[j] == Close(s) ==> i < j
  }

  /** The payloads sent to a socket by two log segments are those of the first, then the second. */
  lemma {:induction false} SentToAppend(a: seq<Effect>, b: seq<Effect>, s: SocketId)
    ensures SentTo(a + b, s) == SentTo(a, s) + SentTo(b, s)
    decreases |a|
  {
    if a == [] {
      assert a + b == b;
    } else {
      assert (a + b)[1..] == a[1..] + b;
      SentToAppend(a[1..], b, s);
    }
  }

  /** Close counts add up over concatenated log segments. */
  lemma {:induction false} ClosesAppend(a: seq<Effect>, b: seq<Effect>, s: SocketId)
    ensures Closes(a + b, s) == Closes(a, s) + Closes(b, s)
    decreases |a|
  {
    if a == [] {
      assert a + b == b;
    } else {
      assert (a + b)[1..] == a[1..] + b;
      ClosesAppend(a[1..], b, s);
    }
  }

  /** What a one-effect log sends and closes. */
  lemma SingleEffect(e: Effect, s: SocketId)
    ensures SentTo([e], s) == (if e.Send? && e.sock == s then [e.payload] else [])
    ensures Closes([e], s) == (if e == Close(s) then 1 else 0)
  {
    assert [e][1..] == [];
  }
}
