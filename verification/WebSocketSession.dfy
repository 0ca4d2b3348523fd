/**
 Whole runs of a connection: chunks of bytes arrive and the application collects its messages, in any
 interleaving.
 */
module WebSocketSession {
  import opened Bytes
  import opened WebSocketDelivery
  import opened WebSocketFrame
  import opened WebSocketReader
  import opened WebSocketStream

  datatype Event = Arrive(chunk: seq<byte>) | Collect

  /** The reader, its left-over bytes, and the messages collected so far. */
  datatype Session = Failed | Session(reader: Reader, carry: seq<byte>, collected: seq<Group>)

  const OPENED := Session(START, [], [])

  function Next(s: Session, e: Event): (s': Session)
    requires s.Session? ==> CurrentOk(s.reader.current)
    ensures s'.Session? ==> CurrentOk(s'.reader.current)
  {
    match s
    case Failed => Failed
    case Session(reader, carry, collected) =>
      match e
      case Arrive(chunk) =>
        (match Feed(reader, carry + chunk)
         case Fault(_) => Failed
         case Progress(reader', rest) => Session(reader', rest, collected))
      case Collect =>
        var d := Drain(reader.done);
        Session(Reader(d.rest, reader.current), carry, collected + d.groups)
  }

  function Run(s: Session, events: seq<Event>): (s': Session)
    requires s.Session? ==> CurrentOk(s.reader.current)
    ensures s'.Session? ==> CurrentOk(s'.reader.current)
    decreases |events|
  {
    if events == [] then s else Run(Next(s, events[0]), events[1..])
  }

  /** All bytes that arrive in the events. */
  function Arriving(events: seq<Event>): seq<byte> {
    if events == [] then []
    else (if events[0].Arrive? then events[0].chunk else []) + Arriving(events[1..])
  }

  /** Collected and queued frames, oldest first. */
  function Frames(s: Session): seq<Frame>
    requires s.Session?
  {
    Concat(s.collected) + s.reader.done
  }

  // ---------- what every run keeps ----------

  lemma {:induction false} ConcatAppend(a: seq<Group>, b: seq<Group>)
    ensures Concat(a + b) == Concat(a) + Concat(b)
  {
    if a == [] {
      assert a + b == b;
    } else {
      assert (a + b)[1..] == a[1..] + b;
      ConcatAppend(a[1..], b);
      ConcatAssociative(a[0].frames, Concat(a[1..]), Concat(b));
    }
  }

  /** Collecting moves frames out of the queue and changes nothing else. */
  lemma CollectKeepsFrames(collected: seq<Group>, done: seq<Frame>)
    ensures Concat(collected + Drain(done).groups) + Drain(done).rest == Concat(collected) + done
  {
    var groups, rest := Drain(done).groups, Drain(done).rest;
    DrainKeepsFrames(done);
    ConcatAppend(collected, groups);
    ConcatAssociative(Concat(collected), Concat(groups), rest);
  }

  /** A frame that is a message of its own, as decoding completes it. */
  predicate Plain(f: Frame) {
    f.Acceptable() && f.IsFinal() && !f.IsContinuation()
  }

  /** After holds the frames of before and the given ones besides, data frames at the back. */
  predicate Adds(before: seq<Frame>, fs: seq<Frame>, after: seq<Frame>) {
    && multiset(after) == multiset(before) + multiset(MarkAll(fs))
    && DataFrames(after) == DataFrames(before) + DataFrames(MarkAll(fs))
  }

  lemma MarkAllAppend(f: seq<Frame>, g: seq<Frame>)
    ensures MarkAll(f + g) == MarkAll(f) + MarkAll(g)
    ensures multiset(MarkAll(f + g)) == multiset(MarkAll(f)) + multiset(MarkAll(g))
    ensures DataFrames(MarkAll(f + g)) == DataFrames(MarkAll(f)) + DataFrames(MarkAll(g))
  {
    assert MarkAll(f + g) == MarkAll(f) + MarkAll(g);
    DataFramesAppend(MarkAll(f), MarkAll(g));
  }

  lemma AddsNothing(fs: seq<Frame>)
    ensures Adds(fs, [], fs)
  {
    assert MarkAll([]) == [];
  }

  lemma AddsTransitive(a: seq<Frame>, f: seq<Frame>, b: seq<Frame>, g: seq<Frame>, c: seq<Frame>)
    requires Adds(a, f, b) && Adds(b, g, c)
    ensures Adds(a, f + g, c)
  {
    MarkAllAppend(f, g);
    SumAssociative(multiset(a), multiset(MarkAll(f)), multiset(MarkAll(g)));
    ConcatAssociative(DataFrames(a), DataFrames(MarkAll(f)), DataFrames(MarkAll(g)));
  }

  lemma AddsBehind(front: seq<Frame>, a: seq<Frame>, f: seq<Frame>, b: seq<Frame>)
    requires Adds(a, f, b)
    ensures Adds(front + a, f, front + b)
  {
    SumAssociative(multiset(front), multiset(a), multiset(MarkAll(f)));
    DataFramesAppend(front, a);
    DataFramesAppend(front, b);
    ConcatAssociative(DataFrames(front), DataFrames(a), DataFrames(MarkAll(f)));
  }

  lemma SumAssociative(x: multiset<Frame>, y: multiset<Frame>, z: multiset<Frame>)
    ensures (x + y) + z == x + (y + z)
  {
  }

  /** Plain frames are filed whatever the queue holds. */
  lemma {:induction false} PlainFramesAreFiled(done: seq<Frame>, fs: seq<Frame>)
    requires forall f <- fs :: Plain(f)
    ensures Adds(done, fs, CommitAll(done, fs))
    decreases |fs|
  {
    if fs == [] {
      AddsNothing(done);
    } else {
      var done' := Commit(done, fs[0]);
      PlainFrameIsFiled(done, fs[0]);
      PlainFramesAreFiled(done', fs[1..]);
      AddsTransitive(done, [fs[0]], done', fs[1..], CommitAll(done', fs[1..]));
      assert fs == [fs[0]] + fs[1..];
    }
  }

  lemma PlainFrameIsFiled(done: seq<Frame>, f: Frame)
    requires Plain(f)
    ensures Adds(done, [f], Commit(done, f))
  {
    CommitKeeps(done, f);
    assert MarkAll([f]) == [Mark(f)];
    assert [Mark(f)][1..] == [];
  }

  lemma ArrivalAdds(s: Session, chunk: seq<byte>)
    requires s.Session? && CurrentOk(s.reader.current)
    requires Decode(s.reader.current, s.carry + chunk).Read?
    requires forall f <- Decode(s.reader.current, s.carry + chunk).frames :: Plain(f)
    ensures var s' := Next(s, Arrive(chunk));
      s'.Session? && Adds(Frames(s), Decode(s.reader.current, s.carry + chunk).frames, Frames(s'))
  {
    var fs := Decode(s.reader.current, s.carry + chunk).frames;
    PlainFramesAreFiled(s.reader.done, fs);
    AddsBehind(Concat(s.collected), s.reader.done, fs, CommitAll(s.reader.done, fs));
  }

  /** If all the bytes still to come decode to plain frames, the run adds exactly these. */
  lemma {:induction false} RunAdds(s: Session, events: seq<Event>, fs: seq<Frame>)
    requires s.Session? && CurrentOk(s.reader.current)
    requires Decode(s.reader.current, s.carry + Arriving(events)) == Read(fs, FRESH, [])
    requires Decode(s.reader.current, s.carry) == Read([], s.reader.current, s.carry)
    requires forall f <- fs :: Plain(f)
    ensures var s' := Run(s, events);
      s'.Session? && Adds(Frames(s), fs, Frames(s')) && s'.reader.current == FRESH && s'.carry == []
    decreases |events|, 0
  {
    if events == [] {
      assert s.carry + Arriving(events) == s.carry;
      AddsNothing(Frames(s));
    } else {
      match events[0]
      case Collect =>
        CollectKeepsFrames(s.collected, s.reader.done);
        assert Arriving(events) == Arriving(events[1..]);
        RunAdds(Next(s, Collect), events[1..], fs);
      case Arrive(chunk) =>
        RunAddsArrival(s, chunk, events[1..], fs);
        assert events == [Arrive(chunk)] + events[1..];
    }
  }

  lemma {:induction false} RunAddsArrival(s: Session, chunk: seq<byte>, events: seq<Event>, fs: seq<Frame>)
    requires s.Session? && CurrentOk(s.reader.current)
    requires Decode(s.reader.current, s.carry + (chunk + Arriving(events))) == Read(fs, FRESH, [])
    requires forall f <- fs :: Plain(f)
    ensures var s' := Run(Next(s, Arrive(chunk)), events);
      s'.Session? && Adds(Frames(s), fs, Frames(s')) && s'.reader.current == FRESH && s'.carry == []
    decreases |events|, 1
  {
    var first, gs := ArrivalDecodes(s, chunk, Arriving(events), fs);
    var s1 := Next(s, Arrive(chunk));
    RunAdds(s1, events, gs);
    AddsTransitive(Frames(s), first, Frames(s1), gs, Frames(Run(s1, events)));
  }

  /** A chunk completes the first frames of what is to come, and leaves the others to be decoded. */
  lemma ArrivalSplits(s: Session, chunk: seq<byte>, later: seq<byte>, fs: seq<Frame>)
    returns (first: seq<Frame>, gs: seq<Frame>)
    requires s.Session? && CurrentOk(s.reader.current)
    requires Decode(s.reader.current, s.carry + (chunk + later)) == Read(fs, FRESH, [])
    ensures fs == first + gs
    ensures Decode(s.reader.current, s.carry + chunk).Read? && Decode(s.reader.current, s.carry + chunk).frames == first
    ensures var s' := Next(s, Arrive(chunk));
      && s'.Session? && s'.collected == s.collected && s'.reader.done == CommitAll(s.reader.done, first)
      && Decode(s'.reader.current, s'.carry + later) == Read(gs, FRESH, [])
      && Decode(s'.reader.current, s'.carry) == Read([], s'.reader.current, s'.carry)
  {
    var now := s.carry + chunk;
    assert s.carry + (chunk + later) == now + later;
    DecodeAppend(s.reader.current, now, later);
    var d := Decode(s.reader.current, now);
    first, gs := d.frames, Decode(d.current, d.rest + later).frames;
    LeftOverIsIncompleteHeader(s.reader.current, now);
  }

  /** An arrival adds the first frames of what is to come, and leaves the others to be decoded. */
  lemma ArrivalDecodes(s: Session, chunk: seq<byte>, later: seq<byte>, fs: seq<Frame>)
    returns (first: seq<Frame>, gs: seq<Frame>)
    requires s.Session? && CurrentOk(s.reader.current)
    requires Decode(s.reader.current, s.carry + (chunk + later)) == Read(fs, FRESH, [])
    requires forall f <- fs :: Plain(f)
    ensures fs == first + gs && (forall f <- gs :: Plain(f))
    ensures var s' := Next(s, Arrive(chunk));
      && s'.Session? && Adds(Frames(s), first, Frames(s'))
      && Decode(s'.reader.current, s'.carry + later) == Read(gs, FRESH, [])
      && Decode(s'.reader.current, s'.carry) == Read([], s'.reader.current, s'.carry)
  {
    first, gs := ArrivalSplits(s, chunk, later, fs);
    assert forall f <- first :: f in fs;
    assert forall f <- gs :: f in fs;
    ArrivalAdds(s, chunk);
  }

  /**
   For a stream of unfragmented frames, no interleaving of arrivals and collections loses, repeats or
   changes a frame, or takes data frames out of order.
   */
  lemma EveryRunKeepsUnfragmentedStream(ms: seq<Sendable>, events: seq<Event>)
    requires Arriving(events) == EncodeAll(ms) && Unfragmented(ms)
    ensures var s := Run(OPENED, events);
      && s.Session? && s.reader.current == FRESH && s.carry == []
      && multiset(Frames(s)) == multiset(ReceivedAll(ms))
      && DataFrames(Frames(s)) == DataFrames(ReceivedAll(ms))
  {
    DecodeEncodedStream(ms);
    assert [] + Arriving(events) == EncodeAll(ms);
    var s, fs := Run(OPENED, events), UnmarkedAll(ms);
    RunAdds(OPENED, events, fs);
    assert Frames(OPENED) == [];
    AddsToNothing(fs, Frames(s));
    assert MarkAll(fs) == ReceivedAll(ms);
  }

  lemma AddsToNothing(fs: seq<Frame>, all: seq<Frame>)
    requires Adds([], fs, all)
    ensures multiset(all) == multiset(MarkAll(fs)) && DataFrames(all) == DataFrames(MarkAll(fs))
  {
  }

  /** Each frame of such a stream is collected as a message of its own. */
  lemma {:induction false} FinalFramesAreCollectedSingly(frames: seq<Frame>)
    requires forall f <- frames :: Ends(f)
    ensures Drain(frames).rest == [] && |Drain(frames).groups| == |frames|
    ensures forall i | 0 <= i < |frames| :: Drain(frames).groups[i] == Group(frames[i].OpCode(), [frames[i]])
  {
    if frames != [] {
      assert FirstFinal(frames) == 0;
      FinalFramesAreCollectedSingly(frames[1..]);
      assert frames[..1] == [frames[0]];
    }
  }
}
