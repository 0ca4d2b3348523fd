/**
 Which messages the application gets, over whole runs.  The code ends a message at the first final frame of the
 queue, whatever stands before it, and files control frames into the same queue.
 */
module WebSocketMessages {
  import opened WebSocketDelivery
  import opened WebSocketFrame
  import opened WebSocketReader
  import opened WebSocketSession

  /** Section 5.4 of RFC 6455: a data frame is a continuation exactly if the one before left its message open. */
  predicate Legal(fs: seq<Frame>) {
    var d := DataFrames(fs);
    && (d != [] ==> !d[0].IsContinuation())
    && forall i | 0 < i < |d| :: d[i].IsContinuation() <==> !d[i - 1].IsFinal()
  }

  /** Do the frames end inside a message? */
  predicate MessageOpen(fs: seq<Frame>) {
    var d := DataFrames(fs);
    d != [] && !d[|d| - 1].IsFinal()
  }

  function ControlFrames(fs: seq<Frame>): seq<Frame> {
    if fs == [] then []
    else if fs[0].IsControl() then [fs[0]] + ControlFrames(fs[1..])
    else ControlFrames(fs[1..])
  }

  predicate ControlFree(fs: seq<Frame>) {
    forall i | 0 <= i < |fs| :: !fs[i].IsControl()
  }

  /** Is the first data frame of the queue, if there is one, a message of its own? */
  predicate HeadIsFinal(queue: seq<Frame>) {
    var d := DataFrames(queue);
    d == [] || d[0].IsFinal()
  }

  // ---------- what should be delivered ----------

  /** The groups that carry data, and those that are control frames. */
  function DataGroups(groups: seq<Group>): seq<Group> {
    if groups == [] then []
    else if groups[0].opCode < 8 then [groups[0]] + DataGroups(groups[1..])
    else DataGroups(groups[1..])
  }

  function ControlGroups(groups: seq<Group>): seq<Group> {
    if groups == [] then []
    else if groups[0].opCode < 8 then ControlGroups(groups[1..])
    else [groups[0]] + ControlGroups(groups[1..])
  }

  /** Collected messages, and those that can be collected now. */
  function Deliverable(s: Session): seq<Group>
    requires s.Session?
  {
    s.collected + Drain(s.reader.done).groups
  }

  /**
   The frames have been delivered as they were sent: the data messages are those of the stream without its control
   frames, in order, and each control frame is a message of its own.
   */
  predicate DeliveredAsSent(groups: seq<Group>, fs: seq<Frame>) {
    && DataGroups(groups) == Drain(DataFrames(fs)).groups
    && multiset(Concat(ControlGroups(groups))) == multiset(ControlFrames(fs))
  }

  // ---------- when a control frame does harm ----------

  /** Whenever one of the frames is a control frame, the queue it is filed into has a harmless head. */
  predicate FiledUndisturbed(done: seq<Frame>, fs: seq<Frame>)
    decreases |fs|
  {
    fs == [] || ((fs[0].IsControl() ==> HeadIsFinal(done)) && FiledUndisturbed(Commit(done, fs[0]), fs[1..]))
  }

  /** The same for all frames that are completed in a run. */
  predicate Undisturbed(s: Session, events: seq<Event>)
    requires s.Session? ==> CurrentOk(s.reader.current)
    decreases |events|
  {
    events == [] || s.Failed? ||
    ((events[0].Arrive? ==>
        FiledUndisturbed(s.reader.done, Decode(s.reader.current, s.carry + events[0].chunk).frames)) &&
     Undisturbed(Next(s, events[0]), events[1..]))
  }
}
