/**
 The receiving half of TAbstractWebSocket (src/tabstractwebsocket.cpp): the frame queue and the receive
 buffer that `parse` updates in place, proved against `WebSocketReader.Feed`.
 */
module WebSocketSocket {
  import opened Bytes
  import opened WebSocketFrame
  import opened WebSocketDelivery
  import opened WebSocketReader

  /** The reader state that a queue stands for: a trailing Empty frame holds no information. */
  function Abstract(frames: seq<Frame>): (r: Reader) {
    var last := |frames| - 1;
    if frames == [] || frames[last].state == Completed then Reader(frames, FRESH)
    else if frames[last].state == Empty then Reader(frames[..last], FRESH)
    else Reader(frames[..last], frames[last])
  }

  /** An Empty frame whose header may have been read in part. */
  predicate Unstarted(f: Frame) {
    f.state == Empty && f.maskKey == 0 && f.payload == [] && !f.valid
  }

  /** All frames but the last are completed and filed, and the last is one the reader can go on with. */
  ghost predicate QueueValid(frames: seq<Frame>) {
    var last := |frames| - 1;
    && QueueOk(Abstract(frames).done)
    && CurrentOk(Abstract(frames).current)
    && (frames != [] && frames[last].state == Empty ==> Unstarted(frames[last]))
  }

  /** A queue of filed frames stands for itself. */
  lemma AbstractFiled(done: seq<Frame>)
    requires QueueOk(done)
    ensures Abstract(done) == Reader(done, FRESH) && QueueValid(done)
  {
    if done != [] {
      assert Filed(done[|done| - 1]);
    }
  }

  lemma AbstractUnfinished(done: seq<Frame>, f: Frame)
    requires QueueOk(done) && (Unstarted(f) || (CurrentOk(f) && f.state != Empty))
    ensures Abstract(done + [f]) == Reader(done, if f.state == Empty then FRESH else f)
    ensures QueueValid(done + [f])
  {
    assert (done + [f])[..|done|] == done;
  }

  /** Walks past the leading control frames and one frame more, and inserts there. */
  method MoveForward(frames: seq<Frame>, f: Frame) returns (r: seq<Frame>)
    ensures r == InsertControl(frames, f)
  {
    var at := 0;
    while at < |frames|
      invariant 0 <= at <= |frames|
      invariant InsertControl(frames, f) == frames[..at] + InsertControl(frames[at..], f)
    {
      at := at + 1;
      if !frames[at - 1].IsControl() {
        break;
      }
    }
    r := frames[..at] + [f] + frames[at..];
  }

  datatype Status = Short | ProtocolError | Parsed

  class Socket {
    var frames: seq<Frame>
    var recvBuffer: seq<byte>

    ghost function Contents(): (r: Reader)
      reads this
    {
      Abstract(frames)
    }

    ghost predicate Valid()
      reads this
    {
      QueueValid(frames)
    }

    constructor ()
      ensures Valid() && Contents() == START && recvBuffer == []
    {
      frames := [];
      recvBuffer := [];
    }

    /** Reads a frame header from the start of data into the last frame of the queue. */
    method ReadHeader(data: seq<byte>) returns (status: Status, size: nat)
      requires frames != [] && Unstarted(frames[|frames| - 1])
      modifies this`frames
      ensures |frames| == old(|frames|) && frames[..|frames| - 1] == old(frames[..|frames| - 1])
      ensures var f := frames[|frames| - 1];
        match DecodeHeader(data)
        case Incomplete => status == Short && Unstarted(f)
        case Malformed => status == ProtocolError && Unstarted(f)
        case Complete(first, length, key, sz) =>
          && status == Parsed && size == sz
          && f == if length == 0 then Frame(first, key, 0, [], Completed, false)
                  else if length >= TOO_BIG then FRESH
                  else Frame(first, key, length, [], HeaderParsed, false)
    {
      var hdr := if |data| <= 14 then data else data[..14];
      if |data| > 14 {
        assert data == hdr + data[14..];
        DecodeHeaderPrefix(hdr, data[14..]);
      }
      var last := |frames| - 1;
      var f := frames[last];
      size := 0;
      if |hdr| < 2 {
        return Short, 0;
      }
      f := f.(firstByte := hdr[0]);
      frames := frames[last := f];
      var maskFlag, code := hdr[1] >= 0x80, hdr[1] % 0x80;
      var at := 2;
      if code == 126 {
        if |hdr| - at < 2 {
          return Short, 0;
        }
        var w := ReadUint(hdr, at, 2);
        at := at + 2;
        if w < 126 {
          return ProtocolError, 0;
        }
        f := f.(payloadLength := w);
      } else if code == 127 {
        if |hdr| - at < 8 {
          return Short, 0;
        }
        var d := ReadUint(hdr, at, 8);
        at := at + 8;
        if d <= 0xFFFF {
          return ProtocolError, 0;
        }
        f := f.(payloadLength := d);
      } else {
        f := f.(payloadLength := code);
      }
      frames := frames[last := f];
      if maskFlag {
        if |hdr| - at < 4 {
          return Short, 0;
        }
        f := f.(maskKey := ReadUint(hdr, at, 4));
        at := at + 4;
      }
      if f.payloadLength == 0 {
        f := f.(state := Completed);
      } else {
        f := f.(state := HeaderParsed);
        if f.payloadLength >= TOO_BIG {
          f := FRESH;
        }
      }
      frames := frames[last := f];
      return Parsed, at;
    }

    /** Reads as much payload as is missing and available into the last frame, unmasking it in passing. */
    method ReadPayload(data: seq<byte>) returns (size: nat)
      requires frames != [] && CurrentOk(frames[|frames| - 1]) && frames[|frames| - 1].state != Empty
      requires data != []
      modifies this`frames
      ensures |frames| == old(|frames|) && frames[..|frames| - 1] == old(frames[..|frames| - 1])
      ensures var f := old(frames[|frames| - 1]);
        && size == Min(Missing(f), |data|) && size > 0
        && frames[|frames| - 1] ==
           f.(payload := f.payload + Mask(f.maskKey, |f.payload|, data[..size]),
              state := if size == Missing(f) then Completed else MoreData)
    {
      var last := |frames| - 1;
      var f := frames[last];
      size := if f.payloadLength - |f.payload| <= |data| then f.payloadLength - |f.payload| else |data|;
      var piece := new byte[size](i requires 0 <= i < size => data[i]);
      if f.maskKey != 0 {
        Unmask(piece, f.maskKey, |f.payload|);
      } else {
        MaskZero(|f.payload|, data[..size]);
      }
      f := f.(payload := f.payload + piece[..]);
      if |f.payload| == f.payloadLength {
        f := f.(state := Completed);
      } else {
        f := f.(state := MoreData);
      }
      frames := frames[last := f];
    }

    /** Validates the completed last frame and files it: drops it, keeps it, or moves it forward. */
    method FileLast() returns (kept: bool)
      requires frames != [] && frames[|frames| - 1].state == Completed
      modifies this`frames
      ensures var init, f := old(frames[..|frames| - 1]), old(frames[|frames| - 1]);
        && (kept <==> f.Acceptable() && !(f.IsContinuation() && !MayContinue(init)))
        && frames == if kept then Commit(init, f) else init + [FRESH]
    {
      var last := |frames| - 1;
      var f := frames[last];
      if !f.Acceptable() {
        frames := frames[last := FRESH];
        return false;
      }
      f := f.(valid := true);
      frames := frames[last := f];
      if f.OpCode() == 0 && |frames| >= 2 {
        var before := frames[|frames| - 2];
        if before.IsFinal() || before.IsControl() {
          frames := frames[last := FRESH];
          return false;
        }
      }
      if f.IsControl() && |frames| >= 2 {
        var moved := MoveForward(frames[..last], f);
        frames := moved;
      }
      return true;
    }

    /** Starts a new frame behind the filed ones. */
    method AppendFresh()
      requires Valid() && (frames == [] || frames[|frames| - 1].state == Completed)
      modifies this`frames
      ensures Valid() && Contents() == old(Contents())
      ensures frames == old(frames) + [FRESH]
    {
      AbstractUnfinished(frames, FRESH);
      frames := frames + [FRESH];
    }

    /** Files the last frame if it has been completed. */
    method Settle()
      requires frames != [] && QueueOk(frames[..|frames| - 1])
      requires var f := frames[|frames| - 1];
        if f.state == Completed then f.Acceptable() ==> |f.payload| == f.payloadLength < TOO_BIG
        else if f.state == Empty then Unstarted(f) else CurrentOk(f)
      modifies this`frames
      ensures Valid() && frames != []
      ensures var init, f := old(frames[..|frames| - 1]), old(frames[|frames| - 1]);
        Contents() == if f.state == Completed then Reader(Commit(init, f), FRESH)
                      else Reader(init, if f.state == Empty then FRESH else f)
    {
      var last := |frames| - 1;
      ghost var init := frames[..last];
      if frames[last].state == Completed {
        CommitKeepsQueueOk(init, frames[last]);
        var kept := FileLast();
        if kept {
          AbstractFiled(frames);
        } else {
          AbstractUnfinished(init, FRESH);
        }
      } else {
        assert frames == init + [frames[last]];
        AbstractUnfinished(init, frames[last]);
      }
    }

    /** One round of the loop in state Empty: a header, and the filing of an empty frame. */
    method HeaderStep(data: seq<byte>) returns (status: Status, size: nat)
      requires Valid() && frames != [] && frames[|frames| - 1].state == Empty
      modifies this`frames
      ensures Valid() && frames != []
      ensures status == Short ==> Feed(old(Contents()), data) == Progress(Contents(), data)
      ensures status == ProtocolError ==>
        Feed(old(Contents()), data) == Fault(Contents().done) && Contents().current == FRESH
      ensures status == Parsed ==> 0 < size <= |data| && Feed(old(Contents()), data) == Feed(Contents(), data[size..])
    {
      ghost var before := Contents();
      status, size := ReadHeader(data);
      if status == Parsed {
        FeedHeader(before, data);
      }
      Settle();
    }

    /** One round of the loop in the other states: a piece of payload, and the filing of a completed frame. */
    method PayloadStep(data: seq<byte>) returns (size: nat)
      requires Valid() && data != []
      requires frames != [] && frames[|frames| - 1].state != Empty && frames[|frames| - 1].state != Completed
      modifies this`frames
      ensures Valid() && frames != []
      ensures 0 < size <= |data|
      ensures Feed(old(Contents()), data) == Feed(Contents(), data[size..])
    {
      ghost var before := Contents();
      size := ReadPayload(data);
      FeedPiece(before, data, size);
      Settle();
    }

    /** Reading goes on at a position of the data, and its outcome is still the same. */
    ghost predicate Running(data: seq<byte>, pos: nat, target: Outcome)
      reads this
    {
      && Valid() && recvBuffer == data && pos <= |data|
      && (pos < |data| ==> frames != [] && frames[|frames| - 1].state != Completed)
      && Feed(Contents(), data[pos..]) == target
    }

    /** Reads a header or a piece of payload, depending on the state of the last frame. */
    method Step(data: seq<byte>) returns (status: Status, size: nat)
      requires Valid() && frames != [] && frames[|frames| - 1].state != Completed && data != []
      modifies this`frames
      ensures Valid() && frames != []
      ensures status == Short ==> Feed(old(Contents()), data) == Progress(Contents(), data)
      ensures status == ProtocolError ==>
        Feed(old(Contents()), data) == Fault(Contents().done) && Contents().current == FRESH
      ensures status == Parsed ==> 0 < size <= |data| && Feed(old(Contents()), data) == Feed(Contents(), data[size..])
    {
      if frames[|frames| - 1].state == Empty {
        status, size := HeaderStep(data);
      } else {
        status := Parsed;
        size := PayloadStep(data);
      }
    }

    /** One round of the loop. */
    method Round(data: seq<byte>, pos: nat, ghost target: Outcome) returns (status: Status, next: nat)
      requires Running(data, pos, target) && pos < |data|
      modifies this`frames
      ensures Valid()
      ensures status == Short ==> target == Progress(Contents(), data[pos..])
      ensures status == ProtocolError ==> target == Fault(Contents().done) && Contents().current == FRESH
      ensures status == Parsed ==> pos < next && Running(data, next, target)
    {
      var size;
      status, size := Step(data[pos..]);
      next := pos + size;
      if status == Parsed {
        assert data[pos..][size..] == data[next..];
        StartNext(data, next);
      }
    }

    /** Starts a new frame if the last one is completed and there is more to read. */
    method StartNext(data: seq<byte>, pos: nat)
      requires Valid() && frames != [] && pos <= |data|
      modifies this`frames
      ensures Valid() && Contents() == old(Contents())
      ensures pos < |data| ==> frames != [] && frames[|frames| - 1].state != Completed
    {
      if frames[|frames| - 1].state == Completed && pos < |data| {
        AppendFresh();
      }
    }

    lemma NothingLeft(data: seq<byte>, pos: nat, target: Outcome)
      requires Running(data, pos, target) && pos == |data|
      ensures Valid() && target == Progress(Contents(), data[pos..])
    {
    }

    /** The loop over the data. */
    method ReadFrames(data: seq<byte>, ghost target: Outcome) returns (failed: bool, pos: nat)
      requires Running(data, 0, target)
      modifies this`frames
      ensures Valid()
      ensures failed ==> target == Fault(Contents().done) && Contents().current == FRESH
      ensures !failed ==> pos <= |data| && target == Progress(Contents(), data[pos..])
    {
      pos := 0;
      while pos < |data|
        invariant Running(data, pos, target)
        decreases |data| - pos
      {
        var status, next := Round(data, pos, target);
        if status == Short {
          return false, pos;
        } else if status == ProtocolError {
          return true, pos;
        }
        pos := next;
      }
      NothingLeft(data, pos, target);
      return false, pos;
    }

    /** Consumes what it can of the receive buffer. */
    method Parse() returns (parsedLength: int)
      requires Valid()
      modifies this
      ensures Valid()
      ensures match Feed(old(Contents()), old(recvBuffer))
        case Fault(done) =>
          parsedLength == -1 && Contents() == Reader(done, FRESH) && recvBuffer == old(recvBuffer)
        case Progress(r, rest) =>
          && Contents() == r && recvBuffer == rest
          && 0 <= parsedLength <= |old(recvBuffer)| && rest == old(recvBuffer)[parsedLength..]
    {
      ghost var target := Feed(Contents(), recvBuffer);
      if frames == [] || frames[|frames| - 1].state == Completed {
        AppendFresh();
      }
      var data := recvBuffer;
      assert data[0..] == data;
      var failed, pos := ReadFrames(data, target);
      if failed {
        return -1;
      }
      recvBuffer := data[pos..];
      parsedLength := pos;
    }

    /** Takes in a chunk that has arrived behind the bytes still in the buffer; false closes the connection. */
    method SeekRecvBuffer(chunk: seq<byte>) returns (ok: bool)
      requires Valid() && chunk != []
      modifies this
      ensures Valid()
      ensures match Feed(old(Contents()), old(recvBuffer) + chunk)
        case Fault(done) => !ok && Contents() == Reader(done, FRESH) && recvBuffer == old(recvBuffer) + chunk
        case Progress(r, rest) => ok && Contents() == r && recvBuffer == rest
    {
      recvBuffer := recvBuffer + chunk;
      var length := Parse();
      ok := length >= 0;
    }

    /** Is there a completed final frame in the queue? */
    method CanReadRequest() returns (r: bool)
      ensures r <==> FirstFinal(frames) < |frames|
    {
      FirstFinalIs(frames);
      for i := 0 to |frames|
        invariant forall k | 0 <= k < i :: !Ends(frames[k])
      {
        if frames[i].IsFinal() && frames[i].state == Completed {
          return true;
        }
      }
      return false;
    }

    /** Takes the first message off the queue. */
    method TakeMessage() returns (message: Payload)
      requires FirstFinal(frames) < |frames|
      modifies this`frames
      ensures var k := FirstFinal(old(frames)) + 1;
        frames == old(frames)[k..] && message == Assemble(Group(old(frames)[0].OpCode(), old(frames)[..k]))
    {
      ghost var queue, taken := frames, 0;
      FirstFinalIs(queue);
      var opcode := frames[0].OpCode();
      var payload: seq<byte> := [];
      while frames != []
        invariant 0 <= taken <= FirstFinal(queue) && frames == queue[taken..]
        invariant payload == Join(queue[..taken])
        decreases |frames|
      {
        var frm := frames[0];
        frames := frames[1..];
        payload := payload + frm.payload;
        assert queue[..taken + 1][..taken] == queue[..taken];
        if frm.IsFinal() && frm.state == Completed {
          return Payload(opcode, payload);
        }
        taken := taken + 1;
      }
      assert false;
      message := Payload(opcode, payload);
    }

    /** Takes every complete message off the front of the queue. */
    method ReadAllBinaryRequest() returns (ret: seq<Payload>)
      requires Valid()
      modifies this`frames
      ensures Valid()
      ensures ret == Payloads(Drain(old(Contents().done)).groups)
      ensures Contents() == Reader(Drain(old(Contents().done)).rest, old(Contents().current))
    {
      DrainAbstract(frames);
      ret := [];
      ghost var all := Drain(frames);
      ghost var groups: seq<Group> := [];
      var ready := CanReadRequest();
      while ready
        invariant ready <==> FirstFinal(frames) < |frames|
        invariant all == Drained(groups + Drain(frames).groups, Drain(frames).rest)
        invariant ret == Payloads(groups)
        decreases |frames|
      {
        ghost var group := Group(frames[0].OpCode(), frames[..FirstFinal(frames) + 1]);
        var message := TakeMessage();
        Regroup(groups, group, Drain(frames).groups);
        PayloadsLast(groups, group);
        ret := ret + [message];
        groups := groups + [group];
        ready := CanReadRequest();
      }
      assert groups + [] == groups;
    }

    /** Takes in what has arrived, which may be nothing, and then every complete message. */
    method ReadRequest(chunk: seq<byte>) returns (ok: bool, payloads: seq<Payload>)
      requires Valid()
      modifies this
      ensures Valid()
      ensures match Feed(old(Contents()), old(recvBuffer) + chunk)
        case Fault(done) =>
          !ok && payloads == [] && Contents() == Reader(done, FRESH) && recvBuffer == old(recvBuffer) + chunk
        case Progress(r, rest) =>
          && ok && payloads == Payloads(Drain(r.done).groups)
          && Contents() == Reader(Drain(r.done).rest, r.current) && recvBuffer == rest
    {
      recvBuffer := recvBuffer + chunk;
      var length := Parse();
      if length < 0 {
        return false, [];
      }
      ok := true;
      payloads := ReadAllBinaryRequest();
    }
  }

  lemma PayloadsLast(groups: seq<Group>, last: Group)
    ensures Payloads(groups + [last]) == Payloads(groups) + [Assemble(last)]
  {
  }

  lemma Regroup(groups: seq<Group>, first: Group, later: seq<Group>)
    ensures groups + ([first] + later) == (groups + [first]) + later
  {
  }

  /** Draining the whole queue drains the filed frames and leaves the one under construction. */
  lemma DrainAbstract(frames: seq<Frame>)
    requires QueueValid(frames)
    ensures var d, r := Drain(frames), Abstract(frames);
      && d.groups == Drain(r.done).groups
      && Abstract(d.rest) == Reader(Drain(r.done).rest, r.current)
      && QueueValid(d.rest)
  {
    var done := Abstract(frames).done;
    DrainKeepsQueueOk(done);
    if done == frames {
      AbstractFiled(Drain(done).rest);
    } else {
      var last := frames[|frames| - 1];
      assert frames == done + [last];
      DrainUnfinished(done, last);
      AbstractUnfinished(Drain(done).rest, last);
    }
  }

  /** Exclusive-ors the mask octets into a buffer in place, starting at the given payload offset. */
  method Unmask(piece: array<byte>, key: uint32, offset: nat)
    modifies piece
    ensures piece[..] == Mask(key, offset, old(piece[..]))
  {
    var mask := [key / 0x100_0000, key / 0x1_0000 % 0x100, key / 0x100 % 0x100, key % 0x100];
    MaskOctetsAre(key);
    var i, p := offset, 0;
    while p < piece.Length
      invariant 0 <= p <= piece.Length && i == offset + p
      invariant forall k | 0 <= k < p :: piece[k] == Xor(old(piece[k]), mask[(offset + k) % 4])
      invariant forall k | p <= k < piece.Length :: piece[k] == old(piece[k])
    {
      piece[p] := Xor(piece[p], mask[i % 4]);
      p, i := p + 1, i + 1;
    }
  }
}
