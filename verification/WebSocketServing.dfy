/**
 A connection as the event loop serves it: what the methods of `Socket` do over whole runs is what
 `WebSocketSession.Run` says.
 */
module WebSocketServing {
  import opened WebSocketDelivered
  import opened WebSocketDelivery
  import opened WebSocketSession
  import opened WebSocketSocket
  import opened WebSocketStream

  /** The session that a socket is in, when these messages have been collected. */
  ghost function SessionOf(socket: Socket, collected: seq<Group>): Session
    reads socket
  {
    Session(socket.Contents(), socket.recvBuffer, collected)
  }

  lemma {:induction false} FailedForGood(events: seq<Event>)
    ensures Run(Failed, events) == Failed
    decreases |events|
  {
    if events != [] {
      FailedForGood(events[1..]);
    }
  }

  lemma PayloadsAppend(a: seq<Group>, b: seq<Group>)
    ensures Payloads(a + b) == Payloads(a) + Payloads(b)
  {
  }

  /** Serves one event. */
  method ServeNext(socket: Socket, e: Event, ghost collected: seq<Group>)
    returns (open: bool, delivered: seq<Payload>, ghost groups: seq<Group>)
    requires socket.Valid() && (e.Arrive? ==> e.chunk != [])
    modifies socket
    ensures socket.Valid() && delivered == Payloads(groups)
    ensures Next(old(SessionOf(socket, collected)), e) ==
      if open then SessionOf(socket, collected + groups) else Failed
  {
    groups, delivered := [], [];
    match e
    case Arrive(chunk) =>
      assert collected + [] == collected;
      open := socket.SeekRecvBuffer(chunk);
    case Collect =>
      groups := Drain(socket.Contents().done).groups;
      open := true;
      delivered := socket.ReadAllBinaryRequest();
  }

  /** Serves events until there are no more or the input is malformed; the messages delivered are those collected. */
  method Serve(socket: Socket, events: seq<Event>) returns (open: bool, delivered: seq<Payload>)
    requires socket.Valid() && forall e <- events :: e.Arrive? ==> e.chunk != []
    modifies socket
    ensures socket.Valid()
    ensures match Run(old(SessionOf(socket, [])), events)
      case Failed => !open
      case Session(reader, carry, collected) =>
        && open && delivered == Payloads(collected)
        && socket.Contents() == reader && socket.recvBuffer == carry
  {
    ghost var all := Run(SessionOf(socket, []), events);
    ghost var collected: seq<Group> := [];
    delivered := [];
    for i := 0 to |events|
      invariant socket.Valid() && delivered == Payloads(collected)
      invariant Run(SessionOf(socket, collected), events[i..]) == all
    {
      assert events[i..][1..] == events[i + 1..];
      var ps;
      ghost var groups;
      open, ps, groups := ServeNext(socket, events[i], collected);
      if !open {
        FailedForGood(events[i + 1..]);
        return false, delivered;
      }
      PayloadsAppend(collected, groups);
      collected := collected + groups;
      delivered := delivered + ps;
    }
    open := true;
  }

  /** A new connection hands over every fragmented message once, whole and in order. */
  method ServeFragmented(ghost messages: seq<Fragmented>, events: seq<Event>) returns (delivered: seq<Payload>)
    requires forall e <- events :: e.Arrive? ==> e.chunk != []
    requires Arriving(events) == EncodeAll(AllFragments(messages))
    ensures delivered == AllMeant(messages)
  {
    var socket := new Socket();
    var open;
    open, delivered := Serve(socket, events);
    FragmentedMessagesAreDelivered(messages, events);
    var later := socket.ReadAllBinaryRequest();
    PayloadsAppend(Run(OPENED, events).collected, Drain(Run(OPENED, events).reader.done).groups);
    delivered := delivered + later;
  }
}
