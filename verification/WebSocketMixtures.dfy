/**
 Runs in which a control frame has got among the frames of a message: nothing later repairs them.
 */
module WebSocketMixtures {
  import opened WebSocketDelivery
  import opened WebSocketFrame
  import opened WebSocketMessages
  import opened WebSocketPureRuns
  import opened WebSocketReader
  import opened WebSocketSession
  import opened WebSocketStream

  // ---------- what a disturbed run cannot repair ----------

  /** A group as draining makes it: a control frame in front is a group of its own. */
  predicate ProperGroup(g: Group) {
    g.frames != [] && g.opCode == g.frames[0].OpCode() && (g.opCode >= 8 ==> |g.frames| == 1)
  }

  predicate ProperGroups(groups: seq<Group>) {
    forall i | 0 <= i < |groups| :: ProperGroup(groups[i])
  }

  /** A group of data with a control frame in it. */
  predicate Mixed(g: Group) {
    g.opCode < 8 && ControlFrames(g.frames) != []
  }

  ghost predicate AnyMixed(groups: seq<Group>) {
    exists i | 0 <= i < |groups| :: Mixed(groups[i])
  }

  /** Behind leading control frames, an unfinished data frame with a control frame right behind it. */
  predicate MixedHead(queue: seq<Frame>)
    decreases |queue|
  {
    queue != [] &&
    if queue[0].IsControl() then MixedHead(queue[1..])
    else !queue[0].IsFinal() && |queue| > 1 && queue[1].IsControl()
  }

  /** A mixture has come about, and all control frames that have arrived are still there. */
  ghost predicate Spoiled(collected: seq<Group>, done: seq<Frame>, before: seq<Frame>) {
    && ProperGroups(collected) && QueueOk(done)
    && multiset(ControlFrames(Concat(collected) + done)) == multiset(ControlFrames(MarkAll(before)))
    && (AnyMixed(collected) || MixedHead(done))
  }

  lemma ControlFramesLast(fs: seq<Frame>, f: Frame)
    ensures ControlFrames(fs + [f]) == ControlFrames(fs) + if f.IsControl() then [f] else []
  {
    ControlFramesAppend(fs, [f]);
    assert [f][1..] == [];
  }

  lemma InsertKeepsControl(done: seq<Frame>, f: Frame)
    requires f.IsControl()
    ensures multiset(ControlFrames(InsertControl(done, f))) == multiset(ControlFrames(done)) + multiset{f}
  {
    InsertControlKeeps(done, f);
    assert multiset(done + [f]) == multiset(done) + multiset{f};
    SameControl(InsertControl(done, f), done + [f]);
    ControlFramesLast(done, f);
  }

  /** Filing keeps every control frame, whatever else it drops. */
  lemma CommitKeepsControl(done: seq<Frame>, f: Frame)
    requires f.Acceptable()
    ensures multiset(ControlFrames(Commit(done, f))) ==
      multiset(ControlFrames(done)) + if f.IsControl() then multiset{Mark(f)} else multiset{}
  {
    if f.IsControl() {
      InsertKeepsControl(done, Mark(f));
    } else {
      ControlFramesLast(done, Mark(f));
    }
  }

  /** The control frames of a queue behind others. */
  lemma ControlBehind(front: seq<Frame>, queue: seq<Frame>)
    ensures multiset(ControlFrames(front + queue)) == multiset(ControlFrames(front)) + multiset(ControlFrames(queue))
  {
    ControlFramesAppend(front, queue);
  }

  lemma ControlMarkedLast(before: seq<Frame>, f: Frame)
    ensures multiset(ControlFrames(MarkAll(before + [f]))) ==
      multiset(ControlFrames(MarkAll(before))) + if f.IsControl() then multiset{Mark(f)} else multiset{}
  {
    assert MarkAll(before + [f]) == MarkAll(before) + [Mark(f)];
    ControlFramesLast(MarkAll(before), Mark(f));
  }

  lemma FileKeepsControl(front: seq<Frame>, done: seq<Frame>, before: seq<Frame>, f: Frame)
    requires f.Acceptable()
    requires multiset(ControlFrames(front + done)) == multiset(ControlFrames(MarkAll(before)))
    ensures multiset(ControlFrames(front + Commit(done, f))) == multiset(ControlFrames(MarkAll(before + [f])))
  {
    CommitKeepsControl(done, f);
    ControlBehind(front, done);
    ControlBehind(front, Commit(done, f));
    ControlMarkedLast(before, f);
    SumAssociative(multiset(ControlFrames(front)), multiset(ControlFrames(done)),
      if f.IsControl() then multiset{Mark(f)} else multiset{});
  }

  /** A control frame filed into a queue whose first data frame is unfinished lands right behind it. */
  lemma {:induction false} InsertSpoils(done: seq<Frame>, f: Frame)
    requires f.IsControl() && (!HeadIsFinal(done) || MixedHead(done))
    ensures MixedHead(InsertControl(done, f))
  {
    if done[0].IsControl() {
      InsertSpoils(done[1..], f);
    }
  }

  lemma {:induction false} MixedHeadStays(queue: seq<Frame>, f: Frame)
    requires MixedHead(queue)
    ensures MixedHead(queue + [f])
  {
    if queue[0].IsControl() {
      assert (queue + [f])[1..] == queue[1..] + [f];
      MixedHeadStays(queue[1..], f);
    }
  }

  lemma FileSpoiled(collected: seq<Group>, done: seq<Frame>, before: seq<Frame>, f: Frame)
    requires Spoiled(collected, done, before) && Completes(f)
    ensures Spoiled(collected, Commit(done, f), before + [f])
  {
    FileKeepsControl(Concat(collected), done, before, f);
    CommitKeepsQueueOk(done, f);
    if MixedHead(done) {
      if f.IsControl() {
        InsertSpoils(done, Mark(f));
      } else {
        MixedHeadStays(done, Mark(f));
      }
    }
  }

  /** Draining a queue of filed frames makes proper groups, and takes a mixture out in one of them. */
  lemma {:induction false} DrainProper(queue: seq<Frame>)
    requires forall i | 0 <= i < |queue| :: Filed(queue[i])
    ensures ProperGroups(Drain(queue).groups)
    ensures MixedHead(queue) ==> AnyMixed(Drain(queue).groups)
    decreases |queue|
  {
    var n := FirstFinal(queue) + 1;
    FirstFinalIs(queue);
    if n <= |queue| {
      var later := Drain(queue[n..]).groups;
      DrainProper(queue[n..]);
      OpCodes(queue[0]);
      var g := Group(queue[0].OpCode(), queue[..n]);
      assert Filed(queue[0]);
      assert ProperGroup(g);
      if MixedHead(queue) {
        FirstGroupMixed(queue, n);
        if queue[0].IsControl() {
          var i :| 0 <= i < |later| && Mixed(later[i]);
          assert ([g] + later)[i + 1] == later[i];
        } else {
          assert ([g] + later)[0] == g;
        }
      }
    } else if MixedHead(queue) {
      NothingFinal(queue);
    }
  }

  lemma FirstGroupMixed(queue: seq<Frame>, n: nat)
    requires n == FirstFinal(queue) + 1 <= |queue| && MixedHead(queue) && forall i | 0 <= i < |queue| :: Filed(queue[i])
    ensures if queue[0].IsControl() then n == 1 else Mixed(Group(queue[0].OpCode(), queue[..n]))
  {
    assert Filed(queue[0]) && FirstFinal(queue[1..]) >= 0;
    if !queue[0].IsControl() {
      assert Filed(queue[1]) && Ends(queue[1]) && queue[1..][0] == queue[1];
      OpCodes(queue[0]);
      assert queue[..n] == [queue[0], queue[1]];
      assert queue[..n][1..] == [queue[1]];
    }
  }

  lemma {:induction false} NothingFinal(queue: seq<Frame>)
    requires MixedHead(queue) && forall i | 0 <= i < |queue| :: Filed(queue[i])
    ensures FirstFinal(queue) < |queue|
  {
    assert Filed(queue[0]);
    if !queue[0].IsControl() {
      assert Filed(queue[1]) && queue[1..][0] == queue[1];
    }
  }

  lemma MixedAppended(a: seq<Group>, b: seq<Group>)
    requires AnyMixed(a) || AnyMixed(b)
    ensures AnyMixed(a + b)
  {
    if AnyMixed(a) {
      var i :| 0 <= i < |a| && Mixed(a[i]);
      assert (a + b)[i] == a[i];
    } else {
      var i :| 0 <= i < |b| && Mixed(b[i]);
      assert (a + b)[|a| + i] == b[i];
    }
  }

  lemma CollectSpoiled(collected: seq<Group>, done: seq<Frame>, before: seq<Frame>)
    requires Spoiled(collected, done, before)
    ensures Spoiled(collected + Drain(done).groups, Drain(done).rest, before)
    ensures AnyMixed(collected + Drain(done).groups)
  {
    assert forall i | 0 <= i < |done| :: done[i] in done;
    DrainProper(done);
    DrainKeepsQueueOk(done);
    CollectKeepsFrames(collected, done);
    MixedAppended(collected, Drain(done).groups);
  }

  /** Proper groups deliver at most the control frames in them, and fewer if one is mixed. */
  lemma {:induction false} MixedLoses(groups: seq<Group>)
    requires ProperGroups(groups)
    ensures |Concat(ControlGroups(groups))| <= |ControlFrames(Concat(groups))|
    ensures AnyMixed(groups) ==> |Concat(ControlGroups(groups))| < |ControlFrames(Concat(groups))|
  {
    if groups != [] {
      var g, later := groups[0], groups[1..];
      MixedLoses(later);
      ControlFramesAppend(g.frames, Concat(later));
      assert ProperGroup(g);
      if g.opCode >= 8 {
        OpCodes(g.frames[0]);
        assert g.frames == [g.frames[0]] && g.frames[1..] == [];
        ConcatFirst(g, ControlGroups(later));
      }
      if AnyMixed(groups) && !Mixed(g) {
        var i :| 0 <= i < |groups| && Mixed(groups[i]);
        assert later[i - 1] == groups[i];
      }
    }
  }

  lemma SpoiledIsNotDelivered(collected: seq<Group>, done: seq<Frame>, before: seq<Frame>)
    requires Spoiled(collected, done, before)
    ensures !DeliveredAsSent(collected + Drain(done).groups, MarkAll(before))
  {
    var groups, rest := collected + Drain(done).groups, Drain(done).rest;
    CollectSpoiled(collected, done, before);
    MixedLoses(groups);
    ControlFramesAppend(Concat(groups), rest);
    var delivered, sent := Concat(ControlGroups(groups)), ControlFrames(MarkAll(before));
    assert |multiset(ControlFrames(Concat(groups) + rest))| == |ControlFrames(Concat(groups) + rest)|;
    assert |multiset(delivered)| == |delivered| && |multiset(sent)| == |sent|;
  }

  lemma {:induction false} FilesSpoiled(collected: seq<Group>, done: seq<Frame>, before: seq<Frame>, fs: seq<Frame>)
    requires Spoiled(collected, done, before) && forall f <- fs :: Completes(f)
    ensures Spoiled(collected, CommitAll(done, fs), before + fs)
    decreases |fs|
  {
    if fs == [] {
      assert before + fs == before;
    } else {
      assert before + fs == (before + [fs[0]]) + fs[1..];
      FileSpoiled(collected, done, before, fs[0]);
      FilesSpoiled(collected, Commit(done, fs[0]), before + [fs[0]], fs[1..]);
    }
  }

  /** A control frame that finds an unfinished head spoils what was good. */
  lemma FileDisturbed(collected: seq<Group>, done: seq<Frame>, before: seq<Frame>, f: Frame)
    requires Good(collected, done, before) && Completes(f) && f.IsControl() && !HeadIsFinal(done)
    ensures Spoiled(collected, Commit(done, f), before + [f])
  {
    GoodHasAllControl(collected, done, before);
    FileKeepsControl(Concat(collected), done, before, f);
    FileSpoils(done, f);
  }

  lemma FileSpoils(done: seq<Frame>, f: Frame)
    requires QueueOk(done) && Completes(f) && f.IsControl() && !HeadIsFinal(done)
    ensures QueueOk(Commit(done, f)) && MixedHead(Commit(done, f))
  {
    CommitKeepsQueueOk(done, f);
    InsertSpoils(done, Mark(f));
  }

  lemma GoodHasAllControl(collected: seq<Group>, done: seq<Frame>, before: seq<Frame>)
    requires Good(collected, done, before)
    ensures multiset(ControlFrames(Concat(collected) + done)) == multiset(ControlFrames(MarkAll(before)))
    ensures ProperGroups(collected)
  {
    AddsToNothing(before, Concat(collected) + done);
    SameControl(Concat(collected) + done, MarkAll(before));
    assert forall i | 0 <= i < |collected| :: PureGroup(collected[i]);
  }

  lemma {:induction false} FilesDisturbed(collected: seq<Group>, done: seq<Frame>, before: seq<Frame>, fs: seq<Frame>)
    requires Good(collected, done, before) && (forall f <- fs :: Completes(f)) && Legal(before + fs)
    requires !FiledUndisturbed(done, fs)
    ensures Spoiled(collected, CommitAll(done, fs), before + fs)
    decreases |fs|
  {
    OneByOne(before, fs);
    if fs[0].IsControl() && !HeadIsFinal(done) {
      FileDisturbed(collected, done, before, fs[0]);
      FilesSpoiled(collected, Commit(done, fs[0]), before + [fs[0]], fs[1..]);
    } else {
      FileGood(collected, done, before, fs[0]);
      FilesDisturbed(collected, Commit(done, fs[0]), before + [fs[0]], fs[1..]);
    }
  }

  lemma ChunkSpoiled(s: Session, events: seq<Event>, before: seq<Frame>, fs: seq<Frame>)
    returns (first: seq<Frame>, gs: seq<Frame>)
    requires Coming(s, events, fs) && events != [] && events[0].Arrive? && Spoiled(s.collected, s.reader.done, before)
    ensures fs == first + gs
    ensures var s' := Next(s, events[0]);
      Coming(s', events[1..], gs) && Spoiled(s'.collected, s'.reader.done, before + first)
  {
    first, gs := ChunkComes(s, events, fs);
    FilesSpoiled(s.collected, s.reader.done, before, first);
  }

  lemma {:induction false} RunSpoiled(s: Session, events: seq<Event>, before: seq<Frame>, fs: seq<Frame>,
                                      all: seq<Frame>)
    requires before + fs == all && Coming(s, events, fs) && Spoiled(s.collected, s.reader.done, before)
    ensures var s' := Run(s, events);
      s'.Session? && Spoiled(s'.collected, s'.reader.done, all)
    decreases |events|
  {
    if events == [] {
      NothingComes(s, fs);
      assert before + fs == before;
    } else if events[0].Collect? {
      CollectSpoiled(s.collected, s.reader.done, before);
      CollectComes(s, events, fs);
      RunSpoiled(Next(s, events[0]), events[1..], before, fs, all);
    } else {
      var first, gs := ChunkSpoiled(s, events, before, fs);
      ConcatAssociative(before, first, gs);
      RunSpoiled(Next(s, events[0]), events[1..], before + first, gs, all);
    }
  }

  lemma {:induction false} RunDisturbed(s: Session, events: seq<Event>, before: seq<Frame>, fs: seq<Frame>,
                                        all: seq<Frame>)
    requires before + fs == all && Coming(s, events, fs) && Good(s.collected, s.reader.done, before)
    requires Legal(all) && !Undisturbed(s, events)
    ensures var s' := Run(s, events);
      s'.Session? && Spoiled(s'.collected, s'.reader.done, all)
    decreases |events|
  {
    match events[0]
    case Collect =>
      CollectGood(s.collected, s.reader.done, before);
      CollectComes(s, events, fs);
      RunDisturbed(Next(s, events[0]), events[1..], before, fs, all);
    case Arrive(chunk) =>
      var first, gs := ChunkComes(s, events, fs);
      ConcatAssociative(before, first, gs);
      LegalFront(before + first, gs);
      if FiledUndisturbed(s.reader.done, first) {
        FilesGood(s.collected, s.reader.done, before, first);
        RunDisturbed(Next(s, events[0]), events[1..], before + first, gs, all);
      } else {
        FilesDisturbed(s.collected, s.reader.done, before, first);
        RunSpoiled(Next(s, events[0]), events[1..], before + first, gs, all);
      }
  }
}
