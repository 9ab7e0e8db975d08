/**
 The client-side stub: a record tracking where the client is in its lifecycle, whether it
 is connected to a peer, and which peer. Its only transition moves it to `announced`.
 */
module ClientStub {
  import opened Wrappers
  import opened Effects

  /** The lifecycle states the client knows about. */
  datatype Phase = Initial | Announced

  /** The string the client stores in its `state` field for each phase. */
  function Label(p: Phase): (name: string)
    ensures name == "initial" <==> p == Initial
    ensures name == "announced" <==> p == Announced
  {
    match p
    case Initial => "initial"
    case Announced => "announced"
  }

  datatype Client = Client(state: Phase, connectedToPeer: bool, peer: Option<SocketId>)

  /** A newly constructed client: state `initial`, not connected, no peer. */
  function NewClient(): (c: Client)
    ensures Label(c.state) == "initial"
    ensures !c.connectedToPeer
    ensures c.peer == None
  {
    Client(Initial, false, None)
  }

  /** `goAnnounced`: only the state changes, to `announced`. */
  function GoAnnounced(c: Client): (r: Client)
    ensures Label(r.state) == "announced"
    ensures r.connectedToPeer == c.connectedToPeer && r.peer == c.peer
  {
    c.(state := Announced)
  }
}
