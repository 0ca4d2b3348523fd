/**
 TAbstractWebSocket::parse of src/tabstractwebsocket.cpp: an incremental reader that turns a growing
 byte buffer into a queue of frames.  `Feed` says what a stretch of input does to the reader; the
 method itself is that of the class `Socket` in module WebSocketSocket, proved against it.
 */
module WebSocketReader {
  import opened Bytes
  import opened WebSocketFrame

  /** The completed frames, in queue order, and the frame under construction. */
  datatype Reader = Reader(done: seq<Frame>, current: Frame)

  /** Malformed input stops the reader; otherwise it keeps the bytes it could not use yet. */
  datatype Outcome = Fault(done: seq<Frame>) | Progress(reader: Reader, rest: seq<byte>)

  /** A fresh connection. */
  const START := Reader([], FRESH)

  /** The frame under construction is one that the reader can go on with. */
  predicate CurrentOk(f: Frame) {
    match f.state
    case Empty => f == FRESH
    case HeaderParsed => f.payload == [] && 0 < f.payloadLength < TOO_BIG
    case MoreData => 0 < |f.payload| < f.payloadLength < TOO_BIG
    case Completed => false
  }

  // ---------- completing a frame ----------

  /** Is there no frame in front, or one that leaves a fragmented message open? */
  predicate MayContinue(done: seq<Frame>) {
    done == [] || (!done[|done| - 1].IsFinal() && !done[|done| - 1].IsControl())
  }

  /** Inserts right behind the first data frame, or at the end when there is none. */
  function InsertControl(done: seq<Frame>, f: Frame): (r: seq<Frame>)
    ensures |r| == |done| + 1
  {
    if done == [] then [f]
    else if !done[0].IsControl() then [done[0], f] + done[1..]
    else [done[0]] + InsertControl(done[1..], f)
  }

  /** The queue after the completed frame f has been checked and filed. */
  function Commit(done: seq<Frame>, f: Frame): (r: seq<Frame>)
  {
    if !f.Acceptable() then done
    else if f.IsContinuation() && !MayContinue(done) then done
    else if f.IsControl() then InsertControl(done, f.(valid := true))
    else done + [f.(valid := true)]
  }

  /** Files completed frames one after the other. */
  function CommitAll(done: seq<Frame>, fs: seq<Frame>): seq<Frame>
    decreases |fs|
  {
    if fs == [] then done else CommitAll(Commit(done, fs[0]), fs[1..])
  }

  /** The control frames in front and one frame more stay where they are. */
  lemma {:induction false} InsertedAt(done: seq<Frame>, f: Frame, k: nat)
    requires k <= |done| && (forall i | 0 <= i < k :: done[i].IsControl())
    requires k == |done| || !done[k].IsControl()
    ensures InsertControl(done, f) ==
      if k == |done| then done + [f] else done[..k + 1] + [f] + done[k + 1..]
  {
    if k > 0 {
      InsertedAt(done[1..], f, k - 1);
    }
  }

  lemma {:induction false} CommitAllAppend(done: seq<Frame>, a: seq<Frame>, b: seq<Frame>)
    ensures CommitAll(done, a + b) == CommitAll(CommitAll(done, a), b)
    decreases |a|
  {
    if a == [] {
      assert a + b == b;
    } else {
      assert (a + b)[1..] == a[1..] + b;
      CommitAllAppend(Commit(done, a[0]), a[1..], b);
    }
  }

  // ---------- decoding bytes ----------

  /** The frame completed by a step, if any, and the frame that is now under construction. */
  datatype Advance = Advance(finished: seq<Frame>, current: Frame)

  /** What a complete header does. */
  function Open(h: Header): (a: Advance)
    requires h.Complete?
    ensures CurrentOk(a.current)
  {
    var f := Frame(h.firstByte, h.maskKey, h.length, [], HeaderParsed, false);
    if h.length == 0 then Advance([f.(state := Completed)], FRESH)
    else if h.length >= TOO_BIG then Advance([], FRESH)
    else Advance([], f)
  }

  function Missing(f: Frame): nat
    requires |f.payload| <= f.payloadLength
  {
    f.payloadLength - |f.payload|
  }

  predicate Receiving(f: Frame) {
    CurrentOk(f) && f.state != Empty
  }

  /** What a piece of payload does. */
  function Receive(f: Frame, piece: seq<byte>): (a: Advance)
    requires Receiving(f) && 0 < |piece| <= Missing(f)
    ensures CurrentOk(a.current)
  {
    var payload := f.payload + Mask(f.maskKey, |f.payload|, piece);
    if |payload| == f.payloadLength then
      Advance([f.(payload := payload, state := Completed)], FRESH)
    else
      Advance([], f.(payload := payload, state := MoreData))
  }

  function Min(a: nat, b: nat): nat {
    if a <= b then a else b
  }

  /** The frames completed by a stretch of input, before they are filed, and the state it leaves. */
  datatype Decoded =
    | Broken(frames: seq<Frame>)
    | Read(frames: seq<Frame>, current: Frame, rest: seq<byte>)

  function Prepend(fs: seq<Frame>, d: Decoded): Decoded {
    match d
    case Broken(gs) => Broken(fs + gs)
    case Read(gs, current, rest) => Read(fs + gs, current, rest)
  }

  function Decode(f: Frame, data: seq<byte>): (d: Decoded)
    requires CurrentOk(f)
    ensures d.Read? ==> CurrentOk(d.current)
    decreases |data|
  {
    if data == [] then Read([], f, [])
    else if f.state == Empty then
      match DecodeHeader(data)
      case Incomplete => Read([], f, data)
      case Malformed => Broken([])
      case Complete(_, _, _, size) =>
        var step := Open(DecodeHeader(data));
        Prepend(step.finished, Decode(step.current, data[size..]))
    else
      var n := Min(Missing(f), |data|);
      var step := Receive(f, data[..n]);
      Prepend(step.finished, Decode(step.current, data[n..]))
  }

  /** The outcome of filing what has been decoded. */
  function File(done: seq<Frame>, d: Decoded): Outcome {
    match d
    case Broken(fs) => Fault(CommitAll(done, fs))
    case Read(fs, current, rest) => Progress(Reader(CommitAll(done, fs), current), rest)
  }

  /** The whole effect of a stretch of input on the reader. */
  function Feed(r: Reader, data: seq<byte>): (out: Outcome)
    requires CurrentOk(r.current)
    ensures out.Progress? ==> CurrentOk(out.reader.current)
  {
    File(r.done, Decode(r.current, data))
  }

  /** A length below 126 in the 16-bit form stops the reader, and nothing is filed. */
  lemma LongFormOfShortLength(done: seq<Frame>, data: seq<byte>)
    requires |data| >= 4 && data[1] in {126, 0x80 + 126} && data[2] == 0 && data[3] < 126
    ensures Feed(Reader(done, FRESH), data) == Fault(done)
  {
    TwoOctets(data[2..4]);
  }

  /** A header opens a frame exactly if it announces a payload, of less than 2 GiB. */
  lemma OpensExactly(firstByte: byte, masking: Masking, length: uint64)
    ensures Decode(FRESH, EncodeHeader(firstByte, masking, length)) ==
      if length == 0 then Read([Frame(firstByte, KeyOf(masking), 0, [], Completed, false)], FRESH, [])
      else if length <= 0x7FFF_FFFF
      then Read([], Frame(firstByte, KeyOf(masking), length, [], HeaderParsed, false), [])
      else Read([], FRESH, [])
  {
    var header := EncodeHeader(firstByte, masking, length);
    DecodeEncodedHeader(firstByte, masking, length, []);
    assert header + [] == header && header[|header|..] == [];
  }

  /** Of a frame of 2 GiB or more only the header is skipped: what follows is read as the next header. */
  lemma OversizedHeaderIsSkipped(firstByte: byte, masking: Masking, length: uint64, tail: seq<byte>)
    requires length >= TOO_BIG
    ensures Decode(FRESH, EncodeHeader(firstByte, masking, length) + tail) == Decode(FRESH, tail)
  {
    var header := EncodeHeader(firstByte, masking, length);
    DecodeEncodedHeader(firstByte, masking, length, tail);
    assert (header + tail)[|header|..] == tail;
  }

  /** Feeding proceeds step by step: file what the step finished and feed the rest of the input. */
  lemma FeedThen(done: seq<Frame>, a: Advance, data: seq<byte>)
    requires CurrentOk(a.current)
    ensures Feed(Reader(CommitAll(done, a.finished), a.current), data) ==
      File(done, Prepend(a.finished, Decode(a.current, data)))
  {
    CommitAllAppend(done, a.finished, Decode(a.current, data).frames);
  }

  lemma FeedHeader(r: Reader, data: seq<byte>)
    requires r.current == FRESH && DecodeHeader(data).Complete?
    ensures var step := Open(DecodeHeader(data));
      Feed(r, data) == Feed(Reader(CommitAll(r.done, step.finished), step.current), data[DecodeHeader(data).size..])
  {
    FeedThen(r.done, Open(DecodeHeader(data)), data[DecodeHeader(data).size..]);
  }

  lemma FeedPiece(r: Reader, data: seq<byte>, n: nat)
    requires Receiving(r.current) && data != [] && n == Min(Missing(r.current), |data|)
    ensures var step := Receive(r.current, data[..n]);
      Feed(r, data) == Feed(Reader(CommitAll(r.done, step.finished), step.current), data[n..])
  {
    FeedThen(r.done, Receive(r.current, data[..n]), data[n..]);
  }

  // ---------- conservation ----------

  /** Unless the input is malformed, what is left over is a suffix of at most 13 bytes that is an incomplete header. */
  lemma {:induction false} LeftOverIsIncompleteHeader(f: Frame, data: seq<byte>)
    requires CurrentOk(f)
    ensures var d := Decode(f, data);
      d.Read? ==>
        && |d.rest| <= 13 && |d.rest| <= |data| && d.rest == data[|data| - |d.rest|..]
        && DecodeHeader(d.rest).Incomplete?
        && (d.rest != [] ==> d.current == FRESH)
    decreases |data|
  {
    if data == [] {
    } else if f.state == Empty {
      if DecodeHeader(data).Complete? {
        LeftOverIsIncompleteHeader(Open(DecodeHeader(data)).current, data[DecodeHeader(data).size..]);
      }
    } else {
      var n := Min(Missing(f), |data|);
      LeftOverIsIncompleteHeader(Receive(f, data[..n]).current, data[n..]);
    }
  }

  // ---------- chunking ----------

  /** Goes on decoding with a second stretch behind the left-over bytes of the first. */
  function Resume(d: Decoded, b: seq<byte>): Decoded
    requires d.Read? ==> CurrentOk(d.current)
  {
    match d
    case Broken(fs) => Broken(fs)
    case Read(fs, current, rest) => Prepend(fs, Decode(current, rest + b))
  }

  /** Receiving a payload piece in two parts is receiving it at once. */
  lemma ReceiveSplit(f: Frame, a: seq<byte>, b: seq<byte>)
    requires Receiving(f) && a != [] && b != [] && |a| + |b| <= Missing(f)
    ensures Receive(f, a).finished == []
    ensures Receive(f, a + b) == Receive(Receive(f, a).current, b)
  {
    MaskSplit(f.maskKey, |f.payload|, a, b);
    var first := Mask(f.maskKey, |f.payload|, a);
    var second := Mask(f.maskKey, |f.payload| + |a|, b);
    assert f.payload + (first + second) == (f.payload + first) + second;
  }

  lemma ResumePrepended(fs: seq<Frame>, d: Decoded, b: seq<byte>)
    requires d.Read? ==> CurrentOk(d.current)
    ensures Prepend(fs, Resume(d, b)) == Resume(Prepend(fs, d), b)
  {
    if d.Read? {
      var gs := Decode(d.current, d.rest + b).frames;
      assert fs + (d.frames + gs) == (fs + d.frames) + gs;
    }
  }

  /** Where the input is cut does not matter. */
  lemma {:induction false} DecodeAppend(f: Frame, a: seq<byte>, b: seq<byte>)
    requires CurrentOk(f)
    ensures Decode(f, a + b) == Resume(Decode(f, a), b)
    decreases |a|
  {
    if a == [] {
      assert a + b == b;
      assert Prepend([], Decode(f, b)) == Decode(f, b);
    } else if f.state == Empty {
      var h := DecodeHeader(a);
      if h.Incomplete? {
        assert Prepend([], Decode(f, a + b)) == Decode(f, a + b);
      } else {
        DecodeHeaderPrefix(a, b);
        if h.Complete? {
          assert (a + b)[h.size..] == a[h.size..] + b;
          DecodeAppend(Open(h).current, a[h.size..], b);
          ResumePrepended(Open(h).finished, Decode(Open(h).current, a[h.size..]), b);
        }
      }
    } else if Missing(f) <= |a| {
      var n := Missing(f);
      var step := Receive(f, a[..n]);
      assert (a + b)[..n] == a[..n];
      assert (a + b)[n..] == a[n..] + b;
      DecodeAppend(step.current, a[n..], b);
      ResumePrepended(step.finished, Decode(step.current, a[n..]), b);
    } else {
      DecodePartialPayload(f, a, b);
    }
  }

  /** Payload bytes that do not complete the frame are used up, and reading resumes where they stopped. */
  lemma DecodePartialPayload(f: Frame, a: seq<byte>, b: seq<byte>)
    requires Receiving(f) && 0 < |a| < Missing(f)
    ensures Decode(f, a + b) == Resume(Decode(f, a), b)
  {
    var f' := Receive(f, a).current;
    assert Decode(f, a) == Read([], f', []) by {
      DecodePiece(f, a, []);
      assert a + [] == a;
    }
    assert Resume(Read([], f', []), b) == Decode(f', b) by {
      assert [] + b == b;
      assert [] + Decode(f', b).frames == Decode(f', b).frames;
    }
    if b == [] {
      assert a + b == a;
    } else {
      DecodeAcrossPieces(f, a, b);
    }
  }

  lemma DecodeAcrossPieces(f: Frame, a: seq<byte>, b: seq<byte>)
    requires Receiving(f) && 0 < |a| < Missing(f) && b != []
    ensures Decode(f, a + b) == Decode(Receive(f, a).current, b)
  {
    var f' := Receive(f, a).current;
    var n := Min(Missing(f'), |b|);
    var piece, tail := b[..n], b[n..];
    assert b == piece + tail && a + b == (a + piece) + tail;
    ReceiveSplit(f, a, piece);
    DecodePiece(f, a + piece, tail);
    DecodePiece(f', piece, tail);
  }

  /** One payload step of Decode. */
  lemma DecodePiece(f: Frame, piece: seq<byte>, tail: seq<byte>)
    requires Receiving(f) && piece != [] && |piece| == Min(Missing(f), |piece + tail|)
    ensures var step := Receive(f, piece);
      Decode(f, piece + tail) == Prepend(step.finished, Decode(step.current, tail))
  {
    assert (piece + tail)[..|piece|] == piece && (piece + tail)[|piece|..] == tail;
  }

  /** Feeding goes on with a chunk behind what was left over, unless the input was malformed. */
  function FeedMore(out: Outcome, chunk: seq<byte>): Outcome
    requires out.Progress? ==> CurrentOk(out.reader.current)
  {
    match out
    case Fault(done) => Fault(done)
    case Progress(r, rest) => Feed(r, rest + chunk)
  }

  /** Feeding two stretches of input, the second behind what the first left over. */
  lemma FeedAppend(r: Reader, a: seq<byte>, b: seq<byte>)
    requires CurrentOk(r.current)
    ensures Feed(r, a + b) == FeedMore(Feed(r, a), b)
  {
    DecodeAppend(r.current, a, b);
    if Decode(r.current, a).Read? {
      var d := Decode(r.current, a);
      CommitAllAppend(r.done, d.frames, Decode(d.current, d.rest + b).frames);
    }
  }

  /** Feeding the left-over bytes again changes nothing. */
  lemma FeedAgain(r: Reader, data: seq<byte>)
    requires CurrentOk(r.current)
    ensures var out := Feed(r, data); out.Progress? ==> Feed(out.reader, out.rest) == out
  {
    LeftOverIsIncompleteHeader(r.current, data);
  }

  /** Feeds chunk after chunk, each behind what was left over, until the input is malformed. */
  function FeedChunks(r: Reader, carry: seq<byte>, chunks: seq<seq<byte>>): (out: Outcome)
    requires CurrentOk(r.current)
    decreases |chunks|
  {
    if chunks == [] then Progress(r, carry)
    else
      match Feed(r, carry + chunks[0])
      case Fault(done) => Fault(done)
      case Progress(r', rest) => FeedChunks(r', rest, chunks[1..])
  }

  function Flatten(chunks: seq<seq<byte>>): seq<byte> {
    if chunks == [] then [] else chunks[0] + Flatten(chunks[1..])
  }

  /** Any way of cutting a byte stream gives the frames, the fault and the left-over bytes of the whole. */
  lemma {:induction false} ChunkingDoesNotMatter(r: Reader, carry: seq<byte>, chunks: seq<seq<byte>>)
    requires CurrentOk(r.current)
    requires Feed(r, carry) == Progress(r, carry)
    ensures FeedChunks(r, carry, chunks) == Feed(r, carry + Flatten(chunks))
    decreases |chunks|
  {
    if chunks == [] {
      assert carry + Flatten(chunks) == carry;
    } else {
      var first := carry + chunks[0];
      var tail := Flatten(chunks[1..]);
      assert carry + Flatten(chunks) == first + tail;
      FeedAppend(r, first, tail);
      if Feed(r, first).Progress? {
        FeedAgain(r, first);
        ChunkingDoesNotMatter(Feed(r, first).reader, Feed(r, first).rest, chunks[1..]);
      }
    }
  }

  // ---------- the queue invariant ----------

  /** A frame that the reader has filed. */
  predicate Filed(f: Frame) {
    f.Acceptable() && f.valid && |f.payload| == f.payloadLength < TOO_BIG
  }

  function DataFrames(s: seq<Frame>): (d: seq<Frame>) {
    if s == [] then []
    else if s[0].IsControl() then DataFrames(s[1..])
    else [s[0]] + DataFrames(s[1..])
  }

  /** Every continuation except possibly the first data frame follows one that left its message open. */
  predicate Continued(data: seq<Frame>) {
    forall i | 1 <= i < |data| :: data[i].IsContinuation() ==> !data[i - 1].IsFinal()
  }

  predicate QueueOk(done: seq<Frame>) {
    && (forall f <- done :: Filed(f))
    && Continued(DataFrames(done))
  }

  lemma {:induction false} DataFramesAppend(a: seq<Frame>, b: seq<Frame>)
    ensures DataFrames(a + b) == DataFrames(a) + DataFrames(b)
  {
    if a == [] {
      assert a + b == b;
    } else {
      assert (a + b)[1..] == a[1..] + b;
      DataFramesAppend(a[1..], b);
    }
  }

  /** Reinsertion keeps the data frames in order and adds the control frame exactly once. */
  lemma {:induction false} InsertControlKeeps(done: seq<Frame>, f: Frame)
    requires f.IsControl()
    ensures DataFrames(InsertControl(done, f)) == DataFrames(done)
    ensures multiset(InsertControl(done, f)) == multiset(done) + multiset{f}
  {
    if done == [] {
      assert DataFrames([f]) == [] by { assert [f][1..] == []; }
    } else {
      var d, tail := done[0], done[1..];
      assert multiset(done) == multiset{d} + multiset(tail) by { assert done == [d] + tail; }
      if !d.IsControl() {
        InsertBehind(d, f, tail);
      } else {
        InsertControlKeeps(tail, f);
        var inserted := InsertControl(tail, f);
        assert ([d] + inserted)[1..] == inserted;
        assert multiset([d] + inserted) == multiset{d} + multiset(inserted);
      }
    }
  }

  lemma InsertBehind(d: Frame, f: Frame, tail: seq<Frame>)
    requires !d.IsControl() && f.IsControl()
    ensures DataFrames([d, f] + tail) == [d] + DataFrames(tail)
    ensures multiset([d, f] + tail) == multiset{d, f} + multiset(tail)
  {
    var r := [d, f] + tail;
    assert r[1..] == [f] + tail && r[1..][1..] == tail;
  }

  /** A frame is either dropped or joins the queue once, data frames at the back. */
  lemma CommitKeeps(done: seq<Frame>, f: Frame)
    ensures var done' := Commit(done, f); var g := f.(valid := true);
      if !f.Acceptable() || (f.IsContinuation() && !MayContinue(done)) then done' == done
      else
        && multiset(done') == multiset(done) + multiset{g}
        && DataFrames(done') == DataFrames(done) + (if f.IsControl() then [] else [g])
  {
    var g := f.(valid := true);
    if f.IsControl() {
      InsertControlKeeps(done, g);
    } else {
      DataFramesAppend(done, [g]);
      assert [g][1..] == [];
    }
  }

  lemma CommitKeepsQueueOk(done: seq<Frame>, f: Frame)
    requires QueueOk(done)
    requires f.Acceptable() ==> |f.payload| == f.payloadLength < TOO_BIG
    ensures QueueOk(Commit(done, f))
  {
    var done' := Commit(done, f);
    var g := f.(valid := true);
    CommitKeeps(done, f);
    if done' != done {
      assert Filed(g);
      forall x | x in done'
        ensures Filed(x)
      {
        assert x in multiset(done');
      }
      if f.IsContinuation() && done != [] {
        LastDataFrame(done);
      }
    }
  }

  lemma LastDataFrame(done: seq<Frame>)
    requires done != [] && !done[|done| - 1].IsControl()
    ensures var d := DataFrames(done); d != [] && d[|d| - 1] == done[|done| - 1]
  {
    var last := done[|done| - 1];
    DataFramesAppend(done[..|done| - 1], [last]);
    assert done == done[..|done| - 1] + [last];
    assert [last][1..] == [];
  }

  /** Every frame that decoding completes carries the payload its header announced. */
  lemma {:induction false} DecodedFramesAreComplete(f: Frame, data: seq<byte>)
    requires CurrentOk(f)
    ensures forall g <- Decode(f, data).frames :: g.state == Completed && |g.payload| == g.payloadLength < TOO_BIG
    decreases |data|
  {
    if data == [] {
    } else if f.state == Empty {
      if DecodeHeader(data).Complete? {
        DecodedFramesAreComplete(Open(DecodeHeader(data)).current, data[DecodeHeader(data).size..]);
      }
    } else {
      var n := Min(Missing(f), |data|);
      DecodedFramesAreComplete(Receive(f, data[..n]).current, data[n..]);
    }
  }

  lemma {:induction false} CommitAllKeepsQueueOk(done: seq<Frame>, fs: seq<Frame>)
    requires QueueOk(done)
    requires forall g <- fs :: |g.payload| == g.payloadLength < TOO_BIG
    ensures QueueOk(CommitAll(done, fs))
    decreases |fs|
  {
    if fs != [] {
      CommitKeepsQueueOk(done, fs[0]);
      CommitAllKeepsQueueOk(Commit(done, fs[0]), fs[1..]);
    }
  }

  /** The frames filed when a stretch of input has been read, or a fault was found in it. */
  function FiledBy(out: Outcome): seq<Frame> {
    match out
    case Fault(done) => done
    case Progress(r, _) => r.done
  }

  /** The invariant holds in every state the reader can reach. */
  lemma FeedKeepsQueueOk(r: Reader, data: seq<byte>)
    requires CurrentOk(r.current) && QueueOk(r.done)
    ensures QueueOk(FiledBy(Feed(r, data)))
  {
    DecodedFramesAreComplete(r.current, data);
    CommitAllKeepsQueueOk(r.done, Decode(r.current, data).frames);
  }
}
