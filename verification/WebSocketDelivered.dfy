/**
 Which streams of frames are delivered as the messages that were sent, whatever chunks they arrive in and
 whenever messages are collected.
 */
module WebSocketDelivered {
  import opened Bytes
  import opened WebSocketDelivery
  import opened WebSocketFrame
  import opened WebSocketMessages
  import opened WebSocketMixtures
  import opened WebSocketPureRuns
  import opened WebSocketReader
  import opened WebSocketSession
  import opened WebSocketStream

  // ---------- which runs deliver what was sent ----------

  lemma NothingIsGood()
    ensures Good([], [], [])
  {
    assert Concat([]) + [] == [];
    AddsNothing([]);
  }

  lemma LegalUnmarked(ms: seq<Sendable>)
    ensures MarkAll(UnmarkedAll(ms)) == ReceivedAll(ms)
    ensures Legal(UnmarkedAll(ms)) <==> Legal(ReceivedAll(ms))
  {
    assert MarkAll(UnmarkedAll(ms)) == ReceivedAll(ms);
    DataFramesOfMarked(UnmarkedAll(ms));
    var d, e := DataFrames(UnmarkedAll(ms)), DataFrames(ReceivedAll(ms));
    assert forall i | 0 <= i < |d| :: e[i] == Mark(d[i]);
  }

  lemma SendablesComplete(ms: seq<Sendable>)
    ensures forall f <- UnmarkedAll(ms) :: Completes(f)
  {
    forall f | f in UnmarkedAll(ms)
      ensures Completes(f)
    {
      var i :| 0 <= i < |ms| && UnmarkedAll(ms)[i] == f;
      assert Received(ms[i]).Acceptable();
    }
  }

  lemma StreamComes(ms: seq<Sendable>, events: seq<Event>)
    requires Arriving(events) == EncodeAll(ms)
    ensures Coming(OPENED, events, UnmarkedAll(ms))
  {
    DecodeEncodedStream(ms);
    SendablesComplete(ms);
    assert [] + Arriving(events) == EncodeAll(ms);
  }

  /** The frames of a legal stream, as decoding completes them, are all still to come when the connection opens. */
  lemma {:induction false} WholeStream(ms: seq<Sendable>, events: seq<Event>)
    requires Arriving(events) == EncodeAll(ms) && Legal(ReceivedAll(ms))
    ensures Coming(OPENED, events, UnmarkedAll(ms)) && Good(OPENED.collected, OPENED.reader.done, [])
    ensures Legal(UnmarkedAll(ms)) && MarkAll(UnmarkedAll(ms)) == ReceivedAll(ms)
  {
    StreamComes(ms, events);
    LegalUnmarked(ms);
    NothingIsGood();
  }

  lemma {:induction false} SpoiledSession(s: Session, fs: seq<Frame>)
    requires s.Session? && Spoiled(s.collected, s.reader.done, fs)
    ensures !DeliveredAsSent(Deliverable(s), MarkAll(fs))
  {
    SpoiledIsNotDelivered(s.collected, s.reader.done, fs);
  }

  lemma NothingBefore(fs: seq<Frame>)
    ensures [] + fs == fs
  {
  }

  lemma {:induction false} UndisturbedRun(s: Session, events: seq<Event>, fs: seq<Frame>)
    requires Coming(s, events, fs) && Good(s.collected, s.reader.done, [])
    requires Legal(fs) && Undisturbed(s, events)
    ensures var s' := Run(s, events);
      && s'.Session? && Good(Deliverable(s'), Drain(s'.reader.done).rest, fs)
      && DeliveredAsSent(Deliverable(s'), MarkAll(fs))
  {
    NothingBefore(fs);
    RunGood(s, events, [], fs, fs);
    GoodSession(Run(s, events), fs);
  }

  lemma {:induction false} GoodSession(s: Session, fs: seq<Frame>)
    requires s.Session? && Good(s.collected, s.reader.done, fs)
    ensures Good(Deliverable(s), Drain(s.reader.done).rest, fs) && DeliveredAsSent(Deliverable(s), MarkAll(fs))
  {
    CollectGood(s.collected, s.reader.done, fs);
    GoodIsDelivered(s.collected, s.reader.done, fs);
  }

  lemma {:induction false} UndisturbedIsDelivered(ms: seq<Sendable>, events: seq<Event>)
    requires Arriving(events) == EncodeAll(ms) && Legal(ReceivedAll(ms)) && Undisturbed(OPENED, events)
    ensures var s := Run(OPENED, events);
      && s.Session? && Good(Deliverable(s), Drain(s.reader.done).rest, UnmarkedAll(ms))
      && DeliveredAsSent(Deliverable(s), ReceivedAll(ms))
  {
    WholeStream(ms, events);
    UndisturbedRun(OPENED, events, UnmarkedAll(ms));
  }

  lemma {:induction false} DisturbedIsSpoiled(s: Session, events: seq<Event>, fs: seq<Frame>)
    requires Coming(s, events, fs) && Good(s.collected, s.reader.done, [])
    requires Legal(fs) && !Undisturbed(s, events)
    ensures var s' := Run(s, events);
      s'.Session? && Spoiled(s'.collected, s'.reader.done, fs)
  {
    NothingBefore(fs);
    RunDisturbed(s, events, [], fs, fs);
  }

  lemma {:induction false} DisturbedRun(s: Session, events: seq<Event>, fs: seq<Frame>)
    requires Coming(s, events, fs) && Good(s.collected, s.reader.done, [])
    requires Legal(fs) && !Undisturbed(s, events)
    ensures var s' := Run(s, events);
      s'.Session? && !DeliveredAsSent(Deliverable(s'), MarkAll(fs))
  {
    DisturbedIsSpoiled(s, events, fs);
    SpoiledSession(Run(s, events), fs);
  }

  lemma {:induction false} DisturbedIsNotDelivered(ms: seq<Sendable>, events: seq<Event>)
    requires Arriving(events) == EncodeAll(ms) && Legal(ReceivedAll(ms)) && !Undisturbed(OPENED, events)
    ensures var s := Run(OPENED, events);
      s.Session? && !DeliveredAsSent(Deliverable(s), ReceivedAll(ms))
  {
    WholeStream(ms, events);
    DisturbedRun(OPENED, events, UnmarkedAll(ms));
  }

  /**
   For every legally fragmented stream and every interleaving of its arrival, in any chunks, with the collection
   of messages: the application gets the messages that were sent exactly if no control frame was filed while
   the first data frame of the queue was an unfinished one.
   */
  lemma DeliveredAsSentExactlyIfUndisturbed(ms: seq<Sendable>, events: seq<Event>)
    requires Arriving(events) == EncodeAll(ms) && Legal(ReceivedAll(ms))
    ensures Run(OPENED, events).Session?
    ensures DeliveredAsSent(Deliverable(Run(OPENED, events)), ReceivedAll(ms)) <==> Undisturbed(OPENED, events)
  {
    if Undisturbed(OPENED, events) {
      UndisturbedIsDelivered(ms, events);
    } else {
      DisturbedIsNotDelivered(ms, events);
    }
  }

  // ---------- streams that arrive before anything is collected ----------

  /** Every control frame comes before the data frames, or behind one that is a message of its own. */
  predicate ControlInPlace(fs: seq<Frame>) {
    forall i | 0 <= i < |fs| :: fs[i].IsControl() ==> HeadIsFinal(fs[..i])
  }

  lemma {:induction false} FiledAppend(done: seq<Frame>, a: seq<Frame>, b: seq<Frame>)
    ensures FiledUndisturbed(done, a + b) <==> FiledUndisturbed(done, a) && FiledUndisturbed(CommitAll(done, a), b)
    decreases |a|
  {
    if a == [] {
      assert a + b == b;
    } else {
      assert (a + b)[1..] == a[1..] + b;
      FiledAppend(Commit(done, a[0]), a[1..], b);
    }
  }

  lemma FiledLast(done: seq<Frame>, fs: seq<Frame>, f: Frame)
    ensures FiledUndisturbed(done, fs + [f]) <==>
      FiledUndisturbed(done, fs) && (f.IsControl() ==> HeadIsFinal(CommitAll(done, fs)))
  {
    FiledAppend(done, fs, [f]);
    assert [f][1..] == [];
  }

  /** The first data frame of a queue is that of the frames filed. */
  predicate SameHead(queue: seq<Frame>, fs: seq<Frame>) {
    var d, e := DataFrames(queue), DataFrames(fs);
    if e == [] then d == [] else d != [] && d[0] == Mark(e[0])
  }

  lemma SameHeadAfter(queue: seq<Frame>, fs: seq<Frame>, f: Frame)
    requires SameHead(queue, fs) && f.Acceptable() && (f.IsContinuation() ==> MessageOpen(fs))
    ensures SameHead(Commit(queue, f), fs + [f])
  {
    CommitKeeps(queue, f);
    DataFramesLast(fs, f);
  }

  lemma {:induction false} HeadStays(fs: seq<Frame>)
    requires Legal(fs) && forall f <- fs :: f.Acceptable()
    ensures SameHead(CommitAll([], fs), fs)
  {
    if fs != [] {
      var init, f := fs[..|fs| - 1], fs[|fs| - 1];
      assert fs == init + [f];
      LegalFront(init, [f]);
      HeadStays(init);
      if !f.IsControl() {
        ContinuesOpen(init, f);
      }
      SameHeadAfter(CommitAll([], init), init, f);
      CommitAllLast(init, f);
    }
  }

  lemma {:induction false} UndisturbedExactlyIfInPlace(fs: seq<Frame>)
    requires Legal(fs) && forall f <- fs :: f.Acceptable()
    ensures FiledUndisturbed([], fs) <==> ControlInPlace(fs)
  {
    if fs != [] {
      var init, f := fs[..|fs| - 1], fs[|fs| - 1];
      assert fs == init + [f];
      LegalFront(init, [f]);
      HeadStays(init);
      UndisturbedExactlyIfInPlace(init);
      FiledLast([], init, f);
      InPlaceLast(init, f);
    }
  }

  lemma InPlaceLast(init: seq<Frame>, f: Frame)
    ensures ControlInPlace(init + [f]) <==> ControlInPlace(init) && (f.IsControl() ==> HeadIsFinal(init))
  {
    var fs := init + [f];
    assert forall i | 0 <= i < |init| :: fs[..i] == init[..i] && fs[i] == init[i];
    assert fs[..|init|] == init && fs[|init|] == f;
  }

  lemma MarkingKeepsPlaces(fs: seq<Frame>)
    ensures ControlInPlace(MarkAll(fs)) <==> ControlInPlace(fs)
  {
    forall i | 0 <= i < |fs|
      ensures HeadIsFinal(MarkAll(fs)[..i]) <==> HeadIsFinal(fs[..i])
    {
      assert MarkAll(fs)[..i] == MarkAll(fs[..i]);
      DataFramesOfMarked(fs[..i]);
    }
  }

  /** While nothing is collected, chunks file the frames they bring. */
  lemma {:induction false} ArrivalsFile(s: Session, events: seq<Event>, fs: seq<Frame>)
    requires Coming(s, events, fs) && forall e <- events :: e.Arrive?
    ensures Undisturbed(s, events) <==> FiledUndisturbed(s.reader.done, fs)
    decreases |events|
  {
    if events == [] {
      NothingComes(s, fs);
    } else {
      assert events[0] in events;
      var first, gs := ChunkComes(s, events, fs);
      FiledAppend(s.reader.done, first, gs);
      ArrivalsFile(Next(s, events[0]), events[1..], gs);
    }
  }

  /**
   If a legal stream arrives, in any chunks, before anything is collected, the condition is one on the stream
   alone.
   */
  lemma DeliveredAtOnceExactlyIfInPlace(ms: seq<Sendable>, events: seq<Event>)
    requires Arriving(events) == EncodeAll(ms) && Legal(ReceivedAll(ms)) && forall e <- events :: e.Arrive?
    ensures var s := Run(OPENED, events);
      s.Session? && (DeliveredAsSent(Deliverable(s), ReceivedAll(ms)) <==> ControlInPlace(ReceivedAll(ms)))
  {
    WholeStream(ms, events);
    DeliveredAsSentExactlyIfUndisturbed(ms, events);
    ArrivalsFile(OPENED, events, UnmarkedAll(ms));
    MarkingKeepsPlaces(UnmarkedAll(ms));
    UndisturbedExactlyIfInPlace(UnmarkedAll(ms));
  }

  // ---------- streams that are always delivered ----------

  /** No control frames, or nothing but final frames. */
  predicate Calm(done: seq<Frame>, fs: seq<Frame>) {
    || (forall f <- fs :: !f.IsControl())
    || ((forall f <- done :: f.IsFinal()) && forall f <- fs :: f.IsFinal())
  }

  lemma {:induction false} FinalHead(done: seq<Frame>)
    requires forall f <- done :: f.IsFinal()
    ensures HeadIsFinal(done)
  {
    if done != [] && done[0].IsControl() {
      FinalHead(done[1..]);
    }
  }

  lemma CommitKeepsFinal(done: seq<Frame>, f: Frame)
    requires f.IsFinal() && forall g <- done :: g.IsFinal()
    ensures forall g <- Commit(done, f) :: g.IsFinal()
  {
    CommitKeeps(done, f);
    forall g | g in Commit(done, f)
      ensures g.IsFinal()
    {
      assert g in multiset(Commit(done, f));
    }
  }

  lemma CalmFrame(done: seq<Frame>, f: Frame, fs: seq<Frame>)
    requires Calm(done, [f] + fs)
    ensures Calm(Commit(done, f), fs) && (f.IsControl() ==> HeadIsFinal(done))
  {
    assert f in [f] + fs && forall g <- fs :: g in [f] + fs;
    if (forall g <- done :: g.IsFinal()) && forall g <- [f] + fs :: g.IsFinal() {
      FinalHead(done);
      CommitKeepsFinal(done, f);
    }
  }

  lemma {:induction false} CalmFiling(done: seq<Frame>, fs: seq<Frame>, gs: seq<Frame>)
    requires Calm(done, fs + gs)
    ensures FiledUndisturbed(done, fs) && Calm(CommitAll(done, fs), gs)
    decreases |fs|
  {
    if fs == [] {
      assert fs + gs == gs;
    } else {
      assert fs + gs == [fs[0]] + (fs[1..] + gs);
      CalmFrame(done, fs[0], fs[1..] + gs);
      CalmFiling(Commit(done, fs[0]), fs[1..], gs);
    }
  }

  lemma CalmCollecting(done: seq<Frame>, fs: seq<Frame>)
    requires Calm(done, fs)
    ensures Calm(Drain(done).rest, fs)
  {
    DrainKeepsFrames(done);
    assert forall f <- Drain(done).rest :: f in done;
  }

  lemma {:induction false} CalmRun(s: Session, events: seq<Event>, fs: seq<Frame>)
    requires Coming(s, events, fs) && Calm(s.reader.done, fs)
    ensures Undisturbed(s, events)
    decreases |events|
  {
    if events != [] {
      match events[0]
      case Collect =>
        CollectComes(s, events, fs);
        CalmCollecting(s.reader.done, fs);
        CalmRun(Next(s, events[0]), events[1..], fs);
      case Arrive(chunk) =>
        var first, gs := ChunkComes(s, events, fs);
        CalmFiling(s.reader.done, first, gs);
        CalmRun(Next(s, events[0]), events[1..], gs);
    }
  }

  lemma MarkingKeepsCalm(ms: seq<Sendable>)
    requires Calm([], ReceivedAll(ms))
    ensures Calm([], UnmarkedAll(ms))
  {
    var fs, gs := UnmarkedAll(ms), ReceivedAll(ms);
    forall f | f in fs
      ensures Mark(f) in gs
    {
      var i :| 0 <= i < |ms| && fs[i] == f;
      assert gs[i] == Mark(f);
    }
    assert forall f :: Mark(f).IsControl() == f.IsControl() && Mark(f).IsFinal() == f.IsFinal();
  }

  /** A legal stream without control frames, or without unfinished ones, is always delivered as it was sent. */
  lemma CalmIsDelivered(ms: seq<Sendable>, events: seq<Event>)
    requires Arriving(events) == EncodeAll(ms) && Legal(ReceivedAll(ms)) && Calm([], ReceivedAll(ms))
    ensures var s := Run(OPENED, events);
      && s.Session? && Good(Deliverable(s), Drain(s.reader.done).rest, UnmarkedAll(ms))
      && DeliveredAsSent(Deliverable(s), ReceivedAll(ms))
  {
    WholeStream(ms, events);
    MarkingKeepsCalm(ms);
    CalmRun(OPENED, events, UnmarkedAll(ms));
    UndisturbedIsDelivered(ms, events);
  }

  // ---------- fragmented messages ----------

  /** The frames of one message: the first is no continuation, the others are, and the last is final. */
  predicate Fragments(m: seq<Sendable>) {
    && m != []
    && forall i | 0 <= i < |m| ::
        var f := Received(m[i]);
        !f.IsControl() && (f.IsContinuation() <==> i > 0) && (f.IsFinal() <==> i == |m| - 1)
  }

  type Fragmented = m: seq<Sendable> | Fragments(m)
    witness [Message(0x81, Unmasked, [])]

  function AllFragments(messages: seq<Fragmented>): seq<Sendable> {
    if messages == [] then [] else messages[0] + AllFragments(messages[1..])
  }

  function Body(m: seq<Sendable>): seq<byte> {
    if m == [] then [] else m[0].payload + Body(m[1..])
  }

  /** What the sender of a message means by it. */
  function Meant(m: Fragmented): Payload {
    Payload(Received(m[0]).OpCode(), Body(m))
  }

  lemma {:induction false} BodyLast(m: seq<Sendable>, last: Sendable)
    ensures Body(m + [last]) == Body(m) + last.payload
  {
    if m == [] {
      assert m + [last] == [last] && [last][1..] == [];
    } else {
      assert (m + [last])[1..] == m[1..] + [last];
      BodyLast(m[1..], last);
    }
  }

  lemma {:induction false} JoinIsBody(m: seq<Sendable>)
    ensures Join(ReceivedAll(m)) == Body(m)
  {
    if m != [] {
      var init, last := m[..|m| - 1], m[|m| - 1];
      assert m == init + [last];
      assert ReceivedAll(m)[..|m| - 1] == ReceivedAll(init);
      JoinIsBody(init);
      BodyLast(init, last);
    }
  }

  function GroupOf(m: Fragmented): Group {
    Group(Received(m[0]).OpCode(), ReceivedAll(m))
  }

  lemma GroupOfIsPure(m: Fragmented)
    ensures PureGroup(GroupOf(m)) && GroupOf(m).opCode < 8 && Assemble(GroupOf(m)) == Meant(m)
  {
    JoinIsBody(m);
    var fs := ReceivedAll(m);
    assert forall i | 0 <= i < |m| :: fs[i] == Received(m[i]);
    OpCodes(fs[0]);
  }

  lemma ReceivedAllAppend(a: seq<Sendable>, b: seq<Sendable>)
    ensures ReceivedAll(a + b) == ReceivedAll(a) + ReceivedAll(b)
  {
  }

  function AllGroups(messages: seq<Fragmented>): (groups: seq<Group>)
    ensures |groups| == |messages|
  {
    seq(|messages|, i requires 0 <= i < |messages| => GroupOf(messages[i]))
  }

  lemma AllGroupsFirst(messages: seq<Fragmented>)
    requires messages != []
    ensures AllGroups(messages) == [GroupOf(messages[0])] + AllGroups(messages[1..])
  {
  }

  /** Fragmented messages one after the other make up a legal stream, and are what draining takes out of it. */
  lemma {:induction false} FragmentsAreDrained(messages: seq<Fragmented>)
    ensures var fs := ReceivedAll(AllFragments(messages));
      && ControlFree(fs) && Legal(fs) && (fs != [] ==> !fs[0].IsContinuation())
      && Drain(fs).groups == AllGroups(messages)
  {
    if messages != [] {
      var m, later := messages[0], AllFragments(messages[1..]);
      FragmentsAreDrained(messages[1..]);
      ReceivedAllAppend(m, later);
      GroupOfIsPure(m);
      MessageInFront(GroupOf(m), ReceivedAll(later));
      FragmentsInFront(m, later);
      AllGroupsFirst(messages);
    }
  }

  lemma FragmentsInFront(m: Fragmented, later: seq<Sendable>)
    requires ControlFree(ReceivedAll(later)) && Legal(ReceivedAll(later))
    ensures var fs := ReceivedAll(m) + ReceivedAll(later);
      ControlFree(fs) && Legal(fs) && !fs[0].IsContinuation()
  {
    var a, b := ReceivedAll(m), ReceivedAll(later);
    assert forall i | 0 <= i < |m| :: a[i] == Received(m[i]);
    DataFramesOfFree(b);
    DataFramesOfFree(a + b);
  }

  lemma {:induction false} OnlyData(groups: seq<Group>)
    requires PureGroups(groups) && Concat(ControlGroups(groups)) == []
    ensures DataGroups(groups) == groups
  {
    if groups != [] {
      assert PureGroup(groups[0]);
      OnlyData(groups[1..]);
    }
  }

  lemma {:induction false} NoControlFrames(fs: seq<Frame>)
    requires ControlFree(fs)
    ensures ControlFrames(fs) == []
  {
    if fs != [] {
      NoControlFrames(fs[1..]);
    }
  }

  /** Data frames of legally fragmented messages are delivered as if the whole stream was drained at once. */
  lemma DataIsDelivered(ms: seq<Sendable>, events: seq<Event>)
    requires Arriving(events) == EncodeAll(ms) && Legal(ReceivedAll(ms)) && ControlFree(ReceivedAll(ms))
    ensures var s := Run(OPENED, events);
      s.Session? && Deliverable(s) == Drain(ReceivedAll(ms)).groups
  {
    var fs := ReceivedAll(ms);
    assert forall f <- fs :: !f.IsControl();
    CalmIsDelivered(ms, events);
    DataFramesOfFree(fs);
    NoControlFrames(fs);
    NoControlGroups(Deliverable(Run(OPENED, events)));
  }

  lemma NoControlGroups(groups: seq<Group>)
    requires PureGroups(groups) && multiset(Concat(ControlGroups(groups))) == multiset([])
    ensures DataGroups(groups) == groups
  {
    assert |multiset(Concat(ControlGroups(groups)))| == |Concat(ControlGroups(groups))|;
    OnlyData(groups);
  }

  function AllMeant(messages: seq<Fragmented>): (ps: seq<Payload>)
    ensures |ps| == |messages|
  {
    seq(|messages|, i requires 0 <= i < |messages| => Meant(messages[i]))
  }

  lemma FragmentsMean(messages: seq<Fragmented>)
    ensures var fs := ReceivedAll(AllFragments(messages));
      Legal(fs) && ControlFree(fs) && Payloads(Drain(fs).groups) == AllMeant(messages)
  {
    FragmentsAreDrained(messages);
    forall i | 0 <= i < |messages|
      ensures Assemble(GroupOf(messages[i])) == Meant(messages[i])
    {
      GroupOfIsPure(messages[i]);
    }
  }

  /**
   However the frames of fragmented messages are cut into chunks, and whenever messages are collected, the
   application gets each message once, whole, in order, under the opcode of its first frame, and nothing else.
   */
  lemma {:induction false} FragmentedMessagesAreDelivered(messages: seq<Fragmented>, events: seq<Event>)
    requires Arriving(events) == EncodeAll(AllFragments(messages))
    ensures Run(OPENED, events).Session?
    ensures Payloads(Deliverable(Run(OPENED, events))) == AllMeant(messages)
  {
    FragmentsMean(messages);
    DataIsDelivered(AllFragments(messages), events);
  }

  // ---------- messages of one frame ----------

  lemma {:induction false} DataFramesAmong(fs: seq<Frame>)
    ensures forall f <- DataFrames(fs) :: f in fs
  {
    if fs != [] {
      DataFramesAmong(fs[1..]);
    }
  }

  lemma UnfragmentedIsLegal(ms: seq<Sendable>)
    requires Unfragmented(ms)
    ensures Legal(ReceivedAll(ms)) && Calm([], ReceivedAll(ms))
    ensures forall f <- ReceivedAll(ms) :: Ends(f) && !f.IsContinuation()
  {
    var fs := ReceivedAll(ms);
    forall f | f in fs
      ensures Ends(f) && !f.IsContinuation()
    {
      var i :| 0 <= i < |ms| && fs[i] == f;
      assert ms[i] in ms;
    }
    DataFramesAmong(fs);
    var d := DataFrames(fs);
    assert forall i | 0 <= i < |d| :: d[i] in fs;
  }

  lemma {:induction false} InConcat(groups: seq<Group>, i: nat, f: Frame)
    requires i < |groups| && f in groups[i].frames
    ensures f in Concat(groups)
  {
    if i > 0 {
      InConcat(groups[1..], i - 1, f);
    }
  }

  /** Where every frame ends a message, pure groups are single frames and nothing is left over. */
  lemma FinalGroupsAreSingle(groups: seq<Group>, rest: seq<Frame>)
    requires PureGroups(groups) && (forall f <- Concat(groups) + rest :: Ends(f)) && forall f <- rest :: !Ends(f)
    ensures (forall g <- groups :: |g.frames| == 1) && rest == []
  {
    forall g | g in groups
      ensures |g.frames| == 1
    {
      var i :| 0 <= i < |groups| && groups[i] == g;
      assert PureGroup(g);
      InConcat(groups, i, g.frames[0]);
    }
    if rest != [] {
      assert rest[0] in Concat(groups) + rest;
    }
  }

  /** Each frame as a message of its own. */
  function Singles(fs: seq<Frame>): (groups: seq<Group>)
    ensures |groups| == |fs|
  {
    seq(|fs|, i requires 0 <= i < |fs| => Group(fs[i].OpCode(), [fs[i]]))
  }

  lemma FinalsAreDrainedSingly(fs: seq<Frame>)
    requires forall f <- fs :: Ends(f)
    ensures Drain(DataFrames(fs)).groups == Singles(DataFrames(fs))
  {
    DataFramesAmong(fs);
    FinalFramesAreCollectedSingly(DataFrames(fs));
  }

  lemma GoodFrames(groups: seq<Group>, rest: seq<Frame>, ms: seq<Sendable>)
    requires Good(groups, rest, UnmarkedAll(ms))
    ensures forall f <- Concat(groups) + rest :: f in ReceivedAll(ms)
  {
    AddsToNothing(UnmarkedAll(ms), Concat(groups) + rest);
    assert MarkAll(UnmarkedAll(ms)) == ReceivedAll(ms);
    forall f | f in Concat(groups) + rest
      ensures f in ReceivedAll(ms)
    {
      assert f in multiset(Concat(groups) + rest);
    }
  }

  lemma GoodFinalsAreSingle(groups: seq<Group>, rest: seq<Frame>, ms: seq<Sendable>)
    requires Good(groups, rest, UnmarkedAll(ms)) && Unfragmented(ms) && forall f <- rest :: !Ends(f)
    ensures (forall g <- groups :: |g.frames| == 1) && rest == []
  {
    UnfragmentedIsLegal(ms);
    GoodFrames(groups, rest, ms);
    FinalGroupsAreSingle(groups, rest);
  }

  /**
   For a stream of unfragmented frames, control frames among them, and every interleaving of arrivals and
   collections: each frame is a message of its own, data messages come in order, and none is left over.
   */
  lemma {:induction false} UnfragmentedIsDeliveredSingly(ms: seq<Sendable>, events: seq<Event>)
    requires Arriving(events) == EncodeAll(ms) && Unfragmented(ms)
    ensures var s := Run(OPENED, events);
      && s.Session? && DeliveredAsSent(Deliverable(s), ReceivedAll(ms))
      && (forall g <- Deliverable(s) :: |g.frames| == 1) && Drain(s.reader.done).rest == []
      && DataGroups(Deliverable(s)) == Singles(DataFrames(ReceivedAll(ms)))
  {
    UnfragmentedIsLegal(ms);
    CalmIsDelivered(ms, events);
    FinalsAreDrainedSingly(ReceivedAll(ms));
    var s := Run(OPENED, events);
    DrainLeavesNoMessage(s.reader.done);
    GoodFinalsAreSingle(Deliverable(s), Drain(s.reader.done).rest, ms);
  }

  // ---------- inputs that show where the limit is ----------

  /** A text message in two fragments, one in a single frame, and a ping. */
  const HALF: Sendable := Message(0x01, Unmasked, [0x61])
  const REST: Sendable := Message(0x80, Unmasked, [0x62])
  const WHOLE: Sendable := Message(0x81, Unmasked, [0x63])
  const PING: Sendable := Message(0x89, Unmasked, [0x70])

  lemma DataFramesFirst(f: Frame, fs: seq<Frame>)
    ensures DataFrames([f] + fs) == (if f.IsControl() then [] else [f]) + DataFrames(fs)
  {
    assert ([f] + fs)[1..] == fs;
  }

  lemma DataAroundControl(w: Frame, a: Frame, p: Frame, b: Frame)
    requires !w.IsControl() && !a.IsControl() && p.IsControl() && !b.IsControl()
    ensures DataFrames([a, b, p]) == [a, b] && DataFrames([w, a, p, b]) == [w, a, b]
  {
    assert [a, b, p] == [a, b] + [p] && [w, a, p, b] == [w, a] + [p] + [b];
    DataFramesLast([a, b], p);
    DataFramesLast([w, a], p);
    DataFramesLast([w, a] + [p], b);
    DataFramesOfFree([a, b]);
    DataFramesOfFree([w, a]);
  }

  lemma LegalStreams()
    ensures Legal(ReceivedAll([HALF, REST, PING])) && Legal(ReceivedAll([WHOLE, HALF, PING, REST]))
  {
    var w, a, p, b := Received(WHOLE), Received(HALF), Received(PING), Received(REST);
    DataAroundControl(w, a, p, b);
    assert ReceivedAll([HALF, REST, PING]) == [a, b, p] && ReceivedAll([WHOLE, HALF, PING, REST]) == [w, a, p, b];
  }

  lemma OpenAndClosed()
    ensures !MessageOpen(ReceivedAll([HALF, REST])) && !HeadIsFinal(ReceivedAll([HALF, REST]))
    ensures MessageOpen(ReceivedAll([WHOLE, HALF])) && HeadIsFinal(ReceivedAll([WHOLE, HALF]))
  {
    var w, a, b := Received(WHOLE), Received(HALF), Received(REST);
    assert ReceivedAll([HALF, REST]) == [a] + ([b] + []) && ReceivedAll([WHOLE, HALF]) == [w] + ([a] + []);
    DataFramesFirst(b, []);
    DataFramesFirst(a, [b] + []);
    DataFramesFirst(a, []);
    DataFramesFirst(w, [a] + []);
  }

  lemma HalfAndPingAreFiled()
    ensures CommitAll([], UnmarkedAll([HALF, PING])) == [Received(HALF), Received(PING)]
  {
    var a, p := Unmarked(HALF), Unmarked(PING);
    assert UnmarkedAll([HALF, PING]) == [] + [a] + [p];
    CommitAllLast([], a);
    CommitAllLast([] + [a], p);
    assert CommitAll([], [] + [a]) == [Mark(a)];
  }

  /** A message of two frames. */
  lemma PairIsDrained(f: Frame, g: Frame)
    requires !Ends(f) && Ends(g)
    ensures Drain([f, g]).groups == [Group(f.OpCode(), [f, g])]
    ensures Join([f, g]) == f.payload + g.payload
  {
    var queue := [f, g];
    FirstFinalAt(queue, 1);
    assert queue[..2] == queue && queue[2..] == [];
    assert queue[..1] == [f] && [f][..0] == [];
    assert Join([f]) == [] + f.payload == f.payload;
  }

  lemma HalfIsOpen()
    ensures !Ends(Received(HALF)) && Ends(Received(PING)) && Received(HALF).OpCode() == 1
  {
  }

  /** The payload of a ping behind an unfinished fragment is handed over as the end of the text message. */
  lemma PingIsDeliveredInsideMessage()
    ensures var s := Run(OPENED, [Arrive(EncodeAll([HALF, PING])), Collect]);
      && s.Session? && s.collected == [Group(1, [Received(HALF), Received(PING)])]
      && Payloads(s.collected) == [Payload(1, [0x61, 0x70])]
  {
    ArrivesAndIsCollected([HALF, PING]);
    HalfAndPingAreFiled();
    HalfIsOpen();
    PairIsDrained(Received(HALF), Received(PING));
    assert [0x61] + [0x70] == [0x61 as byte, 0x70];
  }

  /** One event after the other. */
  lemma TwoEvents(s: Session, e: Event, f: Event)
    requires s.Session? ==> CurrentOk(s.reader.current)
    ensures Run(s, [e, f]) == Next(Next(s, e), f)
  {
    assert [e, f][1..] == [f] && [f][1..] == [];
    assert Run(Next(s, e), [f]) == Run(Next(Next(s, e), f), []);
  }

  lemma ArrivesWhole(ms: seq<Sendable>)
    ensures Next(OPENED, Arrive(EncodeAll(ms))) == Session(Reader(CommitAll([], UnmarkedAll(ms)), FRESH), [], [])
  {
    DecodeEncodedStream(ms);
    NoBytesBefore(EncodeAll(ms));
    assert Feed(START, EncodeAll(ms)) == Progress(Reader(CommitAll([], UnmarkedAll(ms)), FRESH), []);
    assert OPENED.carry + EncodeAll(ms) == EncodeAll(ms);
  }

  lemma NoBytesBefore(data: seq<byte>)
    ensures [] + data == data
  {
  }

  lemma ArrivesAndIsCollected(ms: seq<Sendable>)
    ensures Run(OPENED, [Arrive(EncodeAll(ms)), Collect]).Session?
    ensures Run(OPENED, [Arrive(EncodeAll(ms)), Collect]).collected == Drain(CommitAll([], UnmarkedAll(ms))).groups
  {
    TwoEvents(OPENED, Arrive(EncodeAll(ms)), Collect);
    ArrivesWhole(ms);
  }

  lemma PingOutOfPlace()
    ensures !ControlInPlace(ReceivedAll([HALF, REST, PING]))
  {
    OpenAndClosed();
    assert ReceivedAll([HALF, REST, PING])[..2] == ReceivedAll([HALF, REST]);
    assert ReceivedAll([HALF, REST, PING])[2] == Received(PING);
  }

  lemma PingInPlace()
    ensures ControlInPlace(ReceivedAll([WHOLE, HALF, PING, REST]))
  {
    OpenAndClosed();
    assert ReceivedAll([WHOLE, HALF, PING, REST])[..2] == ReceivedAll([WHOLE, HALF]);
  }

  /** A ping does harm behind the whole message too, as long as the message has not been collected. */
  lemma PingBehindMessageDoesHarm(events: seq<Event>)
    requires Arriving(events) == EncodeAll([HALF, REST, PING]) && forall e <- events :: e.Arrive?
    ensures var ms, s := [HALF, REST, PING], Run(OPENED, events);
      && Legal(ReceivedAll(ms)) && !MessageOpen(ReceivedAll([HALF, REST]))
      && s.Session? && !DeliveredAsSent(Deliverable(s), ReceivedAll(ms))
  {
    LegalStreams();
    OpenAndClosed();
    PingOutOfPlace();
    DeliveredAtOnceExactlyIfInPlace([HALF, REST, PING], events);
  }

  /** A ping inside a message behind another one in the queue does none. */
  lemma PingInsideLaterMessageIsHarmless(events: seq<Event>)
    requires Arriving(events) == EncodeAll([WHOLE, HALF, PING, REST]) && forall e <- events :: e.Arrive?
    ensures var ms, s := [WHOLE, HALF, PING, REST], Run(OPENED, events);
      && Legal(ReceivedAll(ms)) && MessageOpen(ReceivedAll([WHOLE, HALF]))
      && s.Session? && DeliveredAsSent(Deliverable(s), ReceivedAll(ms))
  {
    LegalStreams();
    OpenAndClosed();
    PingInPlace();
    DeliveredAtOnceExactlyIfInPlace([WHOLE, HALF, PING, REST], events);
  }
}
