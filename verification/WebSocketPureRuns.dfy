/**
 Runs in which no control frame gets among the frames of a message: they deliver what was sent.
 */
module WebSocketPureRuns {
  import opened WebSocketDelivery
  import opened WebSocketFrame
  import opened WebSocketMessages
  import opened WebSocketReader
  import opened WebSocketSession
  import opened WebSocketStream

  // ---------- groups and queues without mixtures ----------

  /** A control frame, or the data frames of one message. */
  predicate PureGroup(g: Group) {
    var n := |g.frames| - 1;
    && n >= 0 && g.opCode == g.frames[0].OpCode() && Ends(g.frames[n])
    && if g.opCode < 8 then ControlFree(g.frames) && forall i | 0 <= i < n :: !Ends(g.frames[i]) else n == 0
  }

  predicate PureGroups(groups: seq<Group>) {
    forall i | 0 <= i < |groups| :: PureGroup(groups[i])
  }

  /** A queue that is drained into pure groups. */
  predicate PureQueue(queue: seq<Frame>)
    decreases |queue|
  {
    queue == [] ||
    var n := FirstFinal(queue) + 1;
    if n > |queue| then ControlFree(queue)
    else PureGroup(Group(queue[0].OpCode(), queue[..n])) && PureQueue(queue[n..])
  }

  lemma OpCodes(f: Frame)
    ensures f.IsControl() <==> f.OpCode() >= 8
  {
  }

  /** Draining a pure queue gives pure groups, and leaves data frames only. */
  lemma {:induction false} DrainPure(queue: seq<Frame>)
    requires PureQueue(queue)
    ensures PureGroups(Drain(queue).groups) && ControlFree(Drain(queue).rest) && PureQueue(Drain(queue).rest)
    decreases |queue|
  {
    var n := FirstFinal(queue) + 1;
    if n <= |queue| {
      DrainPure(queue[n..]);
    }
  }

  /** A data frame behind a pure queue. */
  lemma {:induction false} DataBehindPure(queue: seq<Frame>, f: Frame)
    requires PureQueue(queue) && !f.IsControl() && f.state == Completed
    ensures PureQueue(queue + [f])
    decreases |queue|
  {
    var all, n := queue + [f], FirstFinal(queue) + 1;
    if queue == [] {
      assert all == [f];
      SinglePure(f);
    } else if n <= |queue| {
      FirstFinalStays(queue, [f]);
      OneMoreBehind(queue, f, n);
      DataBehindPure(queue[n..], f);
    } else {
      LastInGroup(queue, f);
    }
  }

  lemma SinglePure(f: Frame)
    requires f.IsControl() ==> Ends(f)
    ensures PureQueue([f])
  {
    if Ends(f) {
      assert [f][..1] == [f] && [f][1..] == [];
      OpCodes(f);
    }
  }

  lemma {:induction false} FirstFinalStays(queue: seq<Frame>, more: seq<Frame>)
    requires FirstFinal(queue) < |queue|
    ensures FirstFinal(queue + more) == FirstFinal(queue)
    decreases |queue|
  {
    assert (queue + more)[1..] == queue[1..] + more;
    if !Ends(queue[0]) {
      FirstFinalStays(queue[1..], more);
    }
  }

  lemma LastInGroup(queue: seq<Frame>, f: Frame)
    requires queue != [] && FirstFinal(queue) == |queue| && ControlFree(queue) && !f.IsControl()
    ensures PureQueue(queue + [f])
  {
    if Ends(f) {
      LastOfMessage(queue, f);
    } else {
      FirstFinalUnfinished(queue, f);
    }
  }

  lemma WholeIsPure(queue: seq<Frame>, f: Frame)
    requires queue != [] && ControlFree(queue) && !f.IsControl() && Ends(f)
    requires forall i | 0 <= i < |queue| :: !Ends(queue[i])
    ensures PureGroup(Group((queue + [f])[0].OpCode(), queue + [f]))
  {
    OpCodes(queue[0]);
  }

  lemma LastOfMessage(queue: seq<Frame>, f: Frame)
    requires queue != [] && FirstFinal(queue) == |queue| && ControlFree(queue) && !f.IsControl() && Ends(f)
    ensures PureQueue(queue + [f])
  {
    var all := queue + [f];
    FirstFinalIs(queue);
    FirstFinalAt(all, |queue|);
    WholeIsPure(queue, f);
    assert all[..|all|] == all && all[|all|..] == [];
  }

  lemma {:induction false} FirstFinalAt(frames: seq<Frame>, k: nat)
    requires k < |frames| && Ends(frames[k]) && forall i | 0 <= i < k :: !Ends(frames[i])
    ensures FirstFinal(frames) == k
    decreases k
  {
    if k > 0 {
      FirstFinalAt(frames[1..], k - 1);
    }
  }

  /** A final frame in front is a group of its own. */
  lemma FinalInFront(f: Frame, queue: seq<Frame>)
    requires Ends(f)
    ensures PureQueue([f] + queue) <==> PureQueue(queue)
  {
    var all := [f] + queue;
    assert all[..1] == [f] && all[1..] == queue;
    OpCodes(f);
  }

  /** A control frame right behind a final frame. */
  lemma ControlBehindFirst(first: Frame, f: Frame, later: seq<Frame>)
    requires Ends(first) && Ends(f) && PureQueue(later)
    ensures PureQueue([first, f] + later)
  {
    FinalInFront(f, later);
    FinalInFront(first, [f] + later);
    assert [first, f] + later == [first] + ([f] + later);
  }

  /** A control frame filed into a pure queue with a harmless head. */
  lemma {:induction false} ControlIntoPure(queue: seq<Frame>, f: Frame)
    requires PureQueue(queue) && HeadIsFinal(queue) && f.IsControl() && Ends(f)
    requires forall i | 0 <= i < |queue| :: Filed(queue[i])
    ensures PureQueue(InsertControl(queue, f))
    decreases |queue|
  {
    if queue == [] {
      SinglePure(f);
    } else {
      var first, later := queue[0], queue[1..];
      assert Filed(first) && Ends(first);
      assert queue == [first] + later;
      FinalInFront(first, later);
      if first.IsControl() {
        ControlIntoPure(later, f);
        FinalInFront(first, InsertControl(later, f));
      } else {
        ControlBehindFirst(first, f, later);
      }
    }
  }

  // ---------- what an undisturbed run keeps ----------

  /** A frame as decoding completes it, that validation accepts. */
  predicate Completes(f: Frame) {
    f.Acceptable() && |f.payload| == f.payloadLength < TOO_BIG
  }

  /** Everything that has arrived is in pure groups or in a pure queue, which an open message can be continued in. */
  predicate Good(collected: seq<Group>, done: seq<Frame>, before: seq<Frame>) {
    && PureGroups(collected) && PureQueue(done) && QueueOk(done)
    && Adds([], before, Concat(collected) + done)
    && (MessageOpen(before) ==> done != [] && MayContinue(done))
  }

  lemma FrameIsFiled(done: seq<Frame>, f: Frame)
    requires f.Acceptable() && (f.IsContinuation() ==> MayContinue(done))
    ensures Adds(done, [f], Commit(done, f))
  {
    CommitKeeps(done, f);
    assert MarkAll([f]) == [Mark(f)];
    assert [Mark(f)][1..] == [];
  }

  lemma DataFramesLast(fs: seq<Frame>, f: Frame)
    ensures DataFrames(fs + [f]) == DataFrames(fs) + if f.IsControl() then [] else [f]
  {
    DataFramesAppend(fs, [f]);
    assert [f][1..] == [];
  }

  /** In a legal stream a continuation comes exactly inside an open message. */
  lemma ContinuesOpen(before: seq<Frame>, f: Frame)
    requires Legal(before + [f]) && !f.IsControl()
    ensures f.IsContinuation() <==> MessageOpen(before)
  {
    DataFramesLast(before, f);
    var d, n := DataFrames(before + [f]), |DataFrames(before)|;
    assert |d| == n + 1 && d[n] == f;
    assert n > 0 ==> d[n - 1] == DataFrames(before)[n - 1];
  }

  lemma LegalFront(fs: seq<Frame>, more: seq<Frame>)
    requires Legal(fs + more)
    ensures Legal(fs)
  {
    DataFramesAppend(fs, more);
    var d, all := DataFrames(fs), DataFrames(fs + more);
    assert forall i | 0 <= i < |d| :: d[i] == all[i];
  }

  /** An unfinished data frame at the end stays there. */
  lemma {:induction false} InsertKeepsLast(done: seq<Frame>, f: Frame)
    requires done != [] && MayContinue(done) && HeadIsFinal(done)
    ensures var r := InsertControl(done, f); r[|r| - 1] == done[|done| - 1]
  {
    if done[0].IsControl() {
      InsertKeepsLast(done[1..], f);
    }
  }

  /** Can this frame be filed without loss and without harm? */
  predicate Fileable(done: seq<Frame>, f: Frame) {
    Completes(f) && (f.IsContinuation() ==> MayContinue(done)) && (f.IsControl() ==> HeadIsFinal(done))
  }

  lemma FilePure(done: seq<Frame>, f: Frame)
    requires PureQueue(done) && QueueOk(done) && Fileable(done, f)
    ensures PureQueue(Commit(done, f)) && QueueOk(Commit(done, f))
  {
    if f.IsControl() {
      assert forall i | 0 <= i < |done| :: done[i] in done;
      ControlIntoPure(done, Mark(f));
    } else {
      DataBehindPure(done, Mark(f));
    }
    CommitKeepsQueueOk(done, f);
  }

  lemma FileAdds(front: seq<Frame>, done: seq<Frame>, before: seq<Frame>, f: Frame)
    requires Adds([], before, front + done) && Fileable(done, f)
    ensures Adds([], before + [f], front + Commit(done, f))
  {
    FrameIsFiled(done, f);
    AddsBehind(front, done, [f], Commit(done, f));
    AddsTransitive([], before, front + done, [f], front + Commit(done, f));
  }

  lemma FileOpen(done: seq<Frame>, before: seq<Frame>, f: Frame)
    requires Fileable(done, f) && (MessageOpen(before) ==> done != [] && MayContinue(done))
    ensures MessageOpen(before + [f]) ==> Commit(done, f) != [] && MayContinue(Commit(done, f))
  {
    DataFramesLast(before, f);
    if f.IsControl() && MessageOpen(before) {
      InsertKeepsLast(done, Mark(f));
    }
  }

  lemma LegalIsFileable(done: seq<Frame>, before: seq<Frame>, f: Frame)
    requires Completes(f) && Legal(before + [f]) && (f.IsControl() ==> HeadIsFinal(done))
    requires MessageOpen(before) ==> done != [] && MayContinue(done)
    ensures Fileable(done, f)
  {
    if !f.IsControl() {
      ContinuesOpen(before, f);
    }
  }

  /** Filing one more frame. */
  lemma FileGood(collected: seq<Group>, done: seq<Frame>, before: seq<Frame>, f: Frame)
    requires Good(collected, done, before) && Completes(f) && Legal(before + [f])
    requires f.IsControl() ==> HeadIsFinal(done)
    ensures Good(collected, Commit(done, f), before + [f])
  {
    LegalIsFileable(done, before, f);
    FilePure(done, f);
    FileAdds(Concat(collected), done, before, f);
    FileOpen(done, before, f);
  }

  lemma OneByOne(before: seq<Frame>, fs: seq<Frame>)
    requires fs != [] && Legal(before + fs)
    ensures before + fs == (before + [fs[0]]) + fs[1..] && Legal(before + [fs[0]])
  {
    assert before + fs == (before + [fs[0]]) + fs[1..];
    LegalFront(before + [fs[0]], fs[1..]);
  }

  lemma {:induction false} FilesGood(collected: seq<Group>, done: seq<Frame>, before: seq<Frame>, fs: seq<Frame>)
    requires Good(collected, done, before) && (forall f <- fs :: Completes(f)) && Legal(before + fs)
    requires FiledUndisturbed(done, fs)
    ensures Good(collected, CommitAll(done, fs), before + fs)
    decreases |fs|
  {
    if fs == [] {
      assert before + fs == before;
    } else {
      OneByOne(before, fs);
      FileGood(collected, done, before, fs[0]);
      FilesGood(collected, Commit(done, fs[0]), before + [fs[0]], fs[1..]);
    }
  }

  lemma LastBehind(done: seq<Frame>, n: nat)
    requires 0 < n <= |done| && Ends(done[n - 1]) && !Ends(done[|done| - 1])
    ensures var later := done[n..]; later != [] && later[|later| - 1] == done[|done| - 1]
  {
  }

  /** Draining leaves an unfinished last frame where it is. */
  lemma {:induction false} DrainKeepsLast(done: seq<Frame>)
    requires done != [] && !Ends(done[|done| - 1])
    ensures var rest := Drain(done).rest; rest != [] && rest[|rest| - 1] == done[|done| - 1]
    decreases |done|
  {
    var n := FirstFinal(done) + 1;
    FirstFinalIs(done);
    if n <= |done| {
      LastBehind(done, n);
      DrainKeepsLast(done[n..]);
    }
  }

  lemma CollectGood(collected: seq<Group>, done: seq<Frame>, before: seq<Frame>)
    requires Good(collected, done, before)
    ensures Good(collected + Drain(done).groups, Drain(done).rest, before)
  {
    DrainPure(done);
    DrainKeepsQueueOk(done);
    CollectKeepsFrames(collected, done);
    if MessageOpen(before) {
      DrainKeepsLast(done);
    }
  }

  /** The events bring exactly these frames, of which none has been completed yet. */
  predicate Coming(s: Session, events: seq<Event>, fs: seq<Frame>) {
    && s.Session? && CurrentOk(s.reader.current)
    && Decode(s.reader.current, s.carry + Arriving(events)) == Read(fs, FRESH, [])
    && Decode(s.reader.current, s.carry) == Read([], s.reader.current, s.carry)
    && forall f <- fs :: Completes(f)
  }

  /** A chunk brings the first of these frames, and the later events the others. */
  lemma ChunkComes(s: Session, events: seq<Event>, fs: seq<Frame>) returns (first: seq<Frame>, gs: seq<Frame>)
    requires Coming(s, events, fs) && events != [] && events[0].Arrive?
    ensures fs == first + gs && Decode(s.reader.current, s.carry + events[0].chunk).frames == first
    ensures forall f <- first :: Completes(f)
    ensures var s' := Next(s, events[0]);
      && Coming(s', events[1..], gs)
      && s'.collected == s.collected && s'.reader.done == CommitAll(s.reader.done, first)
  {
    first, gs := ArrivalSplits(s, events[0].chunk, Arriving(events[1..]), fs);
    assert forall f <- first :: f in fs;
    assert forall f <- gs :: f in fs;
  }

  lemma CollectBringsNothing(events: seq<Event>)
    requires events != [] && events[0].Collect?
    ensures Arriving(events) == Arriving(events[1..])
  {
  }

  lemma CollectComes(s: Session, events: seq<Event>, fs: seq<Frame>)
    requires Coming(s, events, fs) && events != [] && events[0].Collect?
    ensures Coming(Next(s, events[0]), events[1..], fs)
  {
    var s' := Next(s, Collect);
    assert s'.reader.current == s.reader.current && s'.carry == s.carry;
    CollectBringsNothing(events);
  }

  lemma NothingComes(s: Session, fs: seq<Frame>)
    requires Coming(s, [], fs)
    ensures fs == []
  {
    assert s.carry + Arriving([]) == s.carry;
  }

  lemma {:induction false} RunGood(s: Session, events: seq<Event>, before: seq<Frame>, fs: seq<Frame>, all: seq<Frame>)
    requires before + fs == all && Coming(s, events, fs) && Good(s.collected, s.reader.done, before)
    requires Legal(all) && Undisturbed(s, events)
    ensures var s' := Run(s, events);
      s'.Session? && Good(s'.collected, s'.reader.done, all)
    decreases |events|
  {
    if events == [] {
      NothingComes(s, fs);
      assert before + fs == before;
    } else {
      match events[0]
      case Collect =>
        CollectGood(s.collected, s.reader.done, before);
        CollectComes(s, events, fs);
        RunGood(Next(s, events[0]), events[1..], before, fs, all);
      case Arrive(chunk) =>
        var first, gs := ChunkComes(s, events, fs);
        ConcatAssociative(before, first, gs);
        LegalFront(before + first, gs);
        FilesGood(s.collected, s.reader.done, before, first);
        RunGood(Next(s, events[0]), events[1..], before + first, gs, all);
    }
  }

  // ---------- pure groups are what was sent ----------

  lemma {:induction false} DataFramesOfFree(fs: seq<Frame>)
    requires ControlFree(fs)
    ensures DataFrames(fs) == fs && ControlFrames(fs) == []
  {
    if fs != [] {
      DataFramesOfFree(fs[1..]);
    }
  }

  lemma {:induction false} ControlFramesAppend(a: seq<Frame>, b: seq<Frame>)
    ensures ControlFrames(a + b) == ControlFrames(a) + ControlFrames(b)
  {
    if a == [] {
      assert a + b == b;
    } else {
      assert (a + b)[1..] == a[1..] + b;
      ControlFramesAppend(a[1..], b);
    }
  }

  lemma {:induction false} NothingToDrain(fs: seq<Frame>)
    requires forall i | 0 <= i < |fs| :: !Ends(fs[i])
    ensures Drain(fs) == Drained([], fs)
  {
    FirstFinalIs(fs);
  }

  /** A complete data message in front is drained first. */
  lemma MessageInFront(g: Group, later: seq<Frame>)
    requires PureGroup(g) && g.opCode < 8
    ensures Drain(g.frames + later).groups == [g] + Drain(later).groups
  {
    var all, n := g.frames + later, |g.frames|;
    FirstFinalAt(all, n - 1);
    assert all[..n] == g.frames && all[n..] == later;
  }

  /** Pure groups are the messages of their data frames, and their control frames. */
  lemma {:induction false} GroupsArePure(groups: seq<Group>, rest: seq<Frame>)
    requires PureGroups(groups) && ControlFree(rest) && forall i | 0 <= i < |rest| :: !Ends(rest[i])
    ensures Drain(DataFrames(Concat(groups) + rest)).groups == DataGroups(groups)
    ensures ControlFrames(Concat(groups) + rest) == Concat(ControlGroups(groups))
  {
    if groups == [] {
      assert Concat(groups) + rest == rest;
      DataFramesOfFree(rest);
      NothingToDrain(rest);
    } else {
      var g, later := groups[0], Concat(groups[1..]) + rest;
      GroupsArePure(groups[1..], rest);
      ConcatAssociative(g.frames, Concat(groups[1..]), rest);
      DataFramesAppend(g.frames, later);
      ControlFramesAppend(g.frames, later);
      if g.opCode < 8 {
        DataFramesOfFree(g.frames);
        MessageInFront(g, DataFrames(later));
      } else {
        OpCodes(g.frames[0]);
        assert g.frames == [g.frames[0]] && g.frames[1..] == [];
        ConcatFirst(g, ControlGroups(groups[1..]));
      }
    }
  }

  lemma {:induction false} ControlCount(fs: seq<Frame>, x: Frame)
    ensures multiset(ControlFrames(fs))[x] == if x.IsControl() then multiset(fs)[x] else 0
  {
    if fs != [] {
      ControlCount(fs[1..], x);
      assert fs == [fs[0]] + fs[1..];
      assert multiset(fs) == multiset{fs[0]} + multiset(fs[1..]);
      if fs[0].IsControl() {
        assert multiset(ControlFrames(fs)) == multiset{fs[0]} + multiset(ControlFrames(fs[1..]));
      }
    }
  }

  lemma SameControl(a: seq<Frame>, b: seq<Frame>)
    requires multiset(a) == multiset(b)
    ensures multiset(ControlFrames(a)) == multiset(ControlFrames(b))
  {
    forall x
      ensures multiset(ControlFrames(a))[x] == multiset(ControlFrames(b))[x]
    {
      ControlCount(a, x);
      ControlCount(b, x);
    }
  }

  lemma GoodIsDelivered(collected: seq<Group>, done: seq<Frame>, before: seq<Frame>)
    requires Good(collected, done, before)
    ensures DeliveredAsSent(collected + Drain(done).groups, MarkAll(before))
  {
    var groups, rest := collected + Drain(done).groups, Drain(done).rest;
    CollectGood(collected, done, before);
    DrainPure(done);
    DrainLeavesNoMessage(done);
    assert forall i | 0 <= i < |rest| :: rest[i] in rest;
    GroupsArePure(groups, rest);
    AddsToNothing(before, Concat(groups) + rest);
    SameControl(Concat(groups) + rest, MarkAll(before));
  }
}
