/**
 How complete messages leave the receive queue: TEpollWebSocket::readAllBinaryRequest in
 src/tepollwebsocket.cpp, which TWebSocket::readRequest in src/twebsocket.cpp repeats.
 */
module WebSocketDelivery {
  import opened Bytes
  import opened WebSocketFrame
  import opened WebSocketReader

  datatype Payload = Payload(opCode: nat, data: seq<byte>)

  /** Does a message end with this frame? */
  predicate Ends(f: Frame) {
    f.IsFinal() && f.state == Completed
  }

  /** The index of the first frame that ends a message, or the length of the queue. */
  function FirstFinal(frames: seq<Frame>): (k: nat)
    ensures k <= |frames|
  {
    if frames == [] || Ends(frames[0]) then 0 else 1 + FirstFinal(frames[1..])
  }

  lemma {:induction false} FirstFinalIs(frames: seq<Frame>)
    ensures forall i | 0 <= i < FirstFinal(frames) :: !Ends(frames[i])
    ensures FirstFinal(frames) < |frames| ==> Ends(frames[FirstFinal(frames)])
  {
    if frames != [] && !Ends(frames[0]) {
      FirstFinalIs(frames[1..]);
    }
  }

  /** Frames that are handed over as one message, and the opcode it is delivered under. */
  datatype Group = Group(opCode: nat, frames: seq<Frame>)

  /** The frames taken, message by message, and what stays in the queue. */
  datatype Drained = Drained(groups: seq<Group>, rest: seq<Frame>)

  /** The first n frames make up a message, and the later ones are drained like this. */
  function FirstTaken(frames: seq<Frame>, n: nat, later: Drained): Drained
    requires 0 < n <= |frames|
  {
    Drained([Group(frames[0].OpCode(), frames[..n])] + later.groups, later.rest)
  }

  function Drain(frames: seq<Frame>): (d: Drained)
    decreases |frames|
  {
    var n := FirstFinal(frames) + 1;
    if n > |frames| then Drained([], frames) else FirstTaken(frames, n, Drain(frames[n..]))
  }

  function Join(frames: seq<Frame>): seq<byte> {
    if frames == [] then [] else Join(frames[..|frames| - 1]) + frames[|frames| - 1].payload
  }

  /** What is handed to the application for the frames of a message. */
  function Assemble(group: Group): Payload {
    Payload(group.opCode, Join(group.frames))
  }

  function Payloads(groups: seq<Group>): (ps: seq<Payload>)
    ensures |ps| == |groups|
  {
    seq(|groups|, i requires 0 <= i < |groups| => Assemble(groups[i]))
  }

  function Concat(groups: seq<Group>): seq<Frame> {
    if groups == [] then [] else groups[0].frames + Concat(groups[1..])
  }

  lemma ConcatFirst(first: Group, groups: seq<Group>)
    ensures Concat([first] + groups) == first.frames + Concat(groups)
  {
    assert ([first] + groups)[1..] == groups;
  }

  /** Nothing is lost, repeated or reordered: the groups and the rest make up the queue. */
  lemma {:induction false} DrainKeepsFrames(frames: seq<Frame>)
    ensures Concat(Drain(frames).groups) + Drain(frames).rest == frames
    decreases |frames|
  {
    var n := FirstFinal(frames) + 1;
    if n <= |frames| {
      DrainKeepsFrames(frames[n..]);
      FirstTakenKeepsFrames(frames, n, Drain(frames[n..]));
    }
  }

  /** One more message in front. */
  lemma FirstTakenKeepsFrames(frames: seq<Frame>, n: nat, later: Drained)
    requires 0 < n <= |frames| && Concat(later.groups) + later.rest == frames[n..]
    ensures var d := FirstTaken(frames, n, later);
      Concat(d.groups) + d.rest == frames
  {
    ConcatFirst(Group(frames[0].OpCode(), frames[..n]), later.groups);
    ConcatAssociative(frames[..n], Concat(later.groups), later.rest);
    assert frames == frames[..n] + frames[n..];
  }

  lemma ConcatAssociative(x: seq<Frame>, y: seq<Frame>, z: seq<Frame>)
    ensures (x + y) + z == x + (y + z)
  {
  }

  /** A message is taken as soon as its last frame is there: nothing in the rest ends one. */
  lemma {:induction false} DrainLeavesNoMessage(frames: seq<Frame>)
    ensures forall f <- Drain(frames).rest :: !Ends(f)
    decreases |frames|
  {
    var k := FirstFinal(frames);
    FirstFinalIs(frames);
    if k < |frames| {
      DrainLeavesNoMessage(frames[k + 1..]);
    }
  }

  lemma BackKeepsQueueOk(front: seq<Frame>, back: seq<Frame>)
    requires QueueOk(front + back)
    ensures QueueOk(back)
  {
    DataFramesAppend(front, back);
    var d, n := DataFrames(back), |DataFrames(front)|;
    forall i | 1 <= i < |d|
      ensures d[i].IsContinuation() ==> !d[i - 1].IsFinal()
    {
      assert d[i] == DataFrames(front + back)[n + i] && d[i - 1] == DataFrames(front + back)[n + i - 1];
    }
    forall f | f in back
      ensures Filed(f)
    {
      assert f in front + back;
    }
  }

  /** What draining leaves satisfies the queue invariant. */
  lemma DrainKeepsQueueOk(done: seq<Frame>)
    requires QueueOk(done)
    ensures QueueOk(Drain(done).rest)
  {
    DrainKeepsFrames(done);
    BackKeepsQueueOk(Concat(Drain(done).groups), Drain(done).rest);
  }

  lemma OneMoreBehind(done: seq<Frame>, f: Frame, n: nat)
    requires 0 < n <= |done|
    ensures (done + [f])[..n] == done[..n] && (done + [f])[n..] == done[n..] + [f] && (done + [f])[0] == done[0]
  {
  }

  /** An unfinished frame at the back stays where it is. */
  lemma {:induction false} DrainUnfinished(done: seq<Frame>, f: Frame)
    requires !Ends(f)
    ensures Drain(done + [f]).groups == Drain(done).groups && Drain(done + [f]).rest == Drain(done).rest + [f]
    decreases |done|
  {
    var n := FirstFinal(done) + 1;
    FirstFinalUnfinished(done, f);
    if n <= |done| {
      DrainUnfinished(done[n..], f);
      OneMoreBehind(done, f, n);
    }
  }

  lemma {:induction false} FirstFinalUnfinished(done: seq<Frame>, f: Frame)
    requires !Ends(f)
    ensures FirstFinal(done + [f]) == FirstFinal(done) + if FirstFinal(done) == |done| then 1 else 0
    decreases |done|
  {
    if done == [] {
      assert [f][1..] == [];
    } else {
      assert (done + [f])[1..] == done[1..] + [f];
      FirstFinalUnfinished(done[1..], f);
    }
  }
}
