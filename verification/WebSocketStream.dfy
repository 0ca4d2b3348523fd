/**
 What the frame reader makes of a whole stream of frames in the wire format, however the stream is cut into
 chunks, as long as nothing is taken off the queue.
 */
module WebSocketStream {
  import opened Bytes
  import opened WebSocketFrame
  import opened WebSocketReader

  /** A message that fits into a frame the reader accepts. */
  type Sendable = m: Message | |m.payload| < TOO_BIG && Received(m).Acceptable()
    witness Message(0x81, Unmasked, [])

  function EncodeAll(ms: seq<Sendable>): seq<byte> {
    if ms == [] then [] else EncodeFrame(ms[0]) + EncodeAll(ms[1..])
  }

  function ReceivedAll(ms: seq<Sendable>): (fs: seq<Frame>)
    ensures |fs| == |ms|
  {
    seq(|ms|, i requires 0 <= i < |ms| => Received(ms[i]))
  }

  /** The frame as decoding completes it, before validation marks it. */
  function Unmarked(m: Sendable): Frame {
    Received(m).(valid := false)
  }

  function UnmarkedAll(ms: seq<Sendable>): (fs: seq<Frame>)
    ensures |fs| == |ms|
  {
    seq(|ms|, i requires 0 <= i < |ms| => Unmarked(ms[i]))
  }

  // ---------- decoding what was encoded ----------

  /** The bytes of a frame decode to its unmasked payload. */
  lemma DecodeEncodedFrame(m: Sendable)
    ensures Decode(FRESH, EncodeFrame(m)) == Read([Unmarked(m)], FRESH, [])
  {
    var header, length := EncodeHeader(m.firstByte, m.masking, |m.payload|), |m.payload|;
    var body := EncodeFrame(m)[|header|..];
    assert EncodeFrame(m) == header + body;
    DecodeEncodedHeader(m.firstByte, m.masking, length, body);
    var step := Open(DecodeHeader(header + body));
    assert (header + body)[|header|..] == body;
    if length == 0 {
      assert body == [];
      assert m.payload == [];
    } else {
      UnmaskedBody(m, body);
      assert body + [] == body;
      DecodePiece(step.current, body, []);
    }
  }

  /** A masked frame arrives whole, its payload unmasked with the four octets of the key in turn. */
  lemma MaskedFrameIsRead(firstByte: byte, key: seq<byte>, data: seq<byte>) returns (f: Frame)
    requires |key| == 4 && 0 < |data| <= 125
    ensures Decode(FRESH, [firstByte, 0x80 + |data|] + key + data) == Read([f], FRESH, [])
    ensures f.firstByte == firstByte && f.state == Completed && |f.payload| == f.payloadLength == |data|
    ensures forall i | 0 <= i < |data| :: f.payload[i] == Xor(data[i], key[i % 4])
  {
    var k := MaskedFrameArrives(firstByte, key, data);
    f := Frame(firstByte, k, |data|, Mask(k, 0, data), Completed, false);
  }

  /** The same for the bits of an octet of the payload. */
  lemma MaskedFrameIsUnmasked(firstByte: byte, key: seq<byte>, data: seq<byte>, i: nat) returns (f: Frame)
    requires |key| == 4 && 0 < |data| <= 125 && i < |data|
    ensures Decode(FRESH, [firstByte, 0x80 + |data|] + key + data) == Read([f], FRESH, [])
    ensures f.firstByte == firstByte && f.state == Completed && |f.payload| == f.payloadLength == |data|
    ensures var x, y, z := f.payload[i], data[i], key[i % 4];
      && x % 2 == (y % 2 + z % 2) % 2
      && x / 2 % 2 == (y / 2 % 2 + z / 2 % 2) % 2
      && x / 4 % 2 == (y / 4 % 2 + z / 4 % 2) % 2
      && x / 8 % 2 == (y / 8 % 2 + z / 8 % 2) % 2
      && x / 16 % 2 == (y / 16 % 2 + z / 16 % 2) % 2
      && x / 32 % 2 == (y / 32 % 2 + z / 32 % 2) % 2
      && x / 64 % 2 == (y / 64 % 2 + z / 64 % 2) % 2
      && x / 128 % 2 == (y / 128 % 2 + z / 128 % 2) % 2
  {
    f := MaskedFrameIsRead(firstByte, key, data);
    XorIsBitwise(data[i], key[i % 4]);
  }

  lemma MaskedFrameArrives(firstByte: byte, key: seq<byte>, data: seq<byte>) returns (k: uint32)
    requires |key| == 4 && 0 < |data| <= 125
    ensures MaskOctets(k) == key
    ensures Decode(FRESH, [firstByte, 0x80 + |data|] + key + data) ==
      Read([Frame(firstByte, k, |data|, Mask(k, 0, data), Completed, false)], FRESH, [])
  {
    k := MaskedHeader(firstByte, key, |data|);
    UnmaskedFrame(firstByte, k, data);
  }

  lemma MaskedHeader(firstByte: byte, key: seq<byte>, length: nat) returns (k: uint32)
    requires |key| == 4 && length <= 125
    ensures MaskOctets(k) == key
    ensures EncodeHeader(firstByte, Masked(k), length) == [firstByte, 0x80 + length] + key
  {
    BigEndianBound(key);
    Pow256Values();
    BigEndianInverse(key);
    k := BigEndian(key);
    assert ToBigEndian(length, 0) == [];
  }

  lemma WholePayload(f: Frame, data: seq<byte>)
    requires Receiving(f) && f.payload == [] && |data| == f.payloadLength
    ensures Decode(f, data) ==
      Read([f.(payload := Mask(f.maskKey, 0, data), state := Completed)], FRESH, [])
  {
    assert data + [] == data && [] + Mask(f.maskKey, 0, data) == Mask(f.maskKey, 0, data);
    DecodePiece(f, data, []);
  }

  lemma UnmaskedFrame(firstByte: byte, key: uint32, data: seq<byte>)
    requires 0 < |data| <= 125
    ensures Decode(FRESH, EncodeHeader(firstByte, Masked(key), |data|) + data) ==
      Read([Frame(firstByte, key, |data|, Mask(key, 0, data), Completed, false)], FRESH, [])
  {
    var header := EncodeHeader(firstByte, Masked(key), |data|);
    var f := Frame(firstByte, key, |data|, [], HeaderParsed, false);
    DecodeAppend(FRESH, header, data);
    OpensExactly(firstByte, Masked(key), |data|);
    WholePayload(f, data);
    NothingInFront(data);
  }

  lemma NothingInFront(data: seq<byte>)
    ensures [] + data == data
  {
  }

  lemma UnmaskedBody(m: Sendable, body: seq<byte>)
    requires body == if m.masking.Masked? then Mask(m.masking.key, 0, m.payload) else m.payload
    ensures [] + Mask(KeyOf(m.masking), 0, body) == m.payload
  {
    if m.masking.Masked? {
      MaskTwice(m.masking.key, 0, m.payload);
    } else {
      MaskZero(0, body);
    }
  }

  lemma {:induction false} DecodeEncodedStream(ms: seq<Sendable>)
    ensures Decode(FRESH, EncodeAll(ms)) == Read(UnmarkedAll(ms), FRESH, [])
  {
    if ms != [] {
      var first, later := EncodeFrame(ms[0]), EncodeAll(ms[1..]);
      DecodeAppend(FRESH, first, later);
      DecodeEncodedFrame(ms[0]);
      DecodeEncodedStream(ms[1..]);
      assert [] + later == later;
      UnmarkedFirst(ms);
    }
  }

  lemma UnmarkedFirst(ms: seq<Sendable>)
    requires ms != []
    ensures UnmarkedAll(ms) == [Unmarked(ms[0])] + UnmarkedAll(ms[1..])
  {
  }

  /** Any stream of frames, in any chunks, is decoded frame by frame and filed in order of arrival. */
  lemma StreamIsFiled(ms: seq<Sendable>, chunks: seq<seq<byte>>)
    requires Flatten(chunks) == EncodeAll(ms)
    ensures FeedChunks(START, [], chunks) == Progress(Reader(CommitAll([], UnmarkedAll(ms)), FRESH), [])
  {
    assert [] + Flatten(chunks) == EncodeAll(ms);
    ChunkingDoesNotMatter(START, [], chunks);
    DecodeEncodedStream(ms);
  }

  // ---------- which streams arrive whole ----------

  function Mark(f: Frame): Frame {
    f.(valid := true)
  }

  function MarkAll(fs: seq<Frame>): (r: seq<Frame>)
    ensures |r| == |fs|
  {
    seq(|fs|, i requires 0 <= i < |fs| => Mark(fs[i]))
  }

  /**
   May a continuation frame come after these frames?  It needs an open message in front of it, and if that
   message was opened by the first data frame of the queue, no control frame may have come in between.
   */
  predicate Admits(prefix: seq<Frame>) {
    var data := DataFrames(prefix);
    prefix == [] ||
    (data != [] && !data[|data| - 1].IsFinal() && (|data| >= 2 || !prefix[|prefix| - 1].IsControl()))
  }

  /** A condition on the arriving frames alone: every continuation comes where one is admitted. */
  predicate WellFragmented(fs: seq<Frame>) {
    forall i | 0 <= i < |fs| :: fs[i].IsContinuation() ==> Admits(fs[..i])
  }

  lemma CommitAllLast(fs: seq<Frame>, f: Frame)
    ensures CommitAll([], fs + [f]) == Commit(CommitAll([], fs), f)
  {
    CommitAllAppend([], fs, [f]);
    assert [f][1..] == [];
  }

  /** The last frame of the queue after a control frame has been inserted. */
  lemma {:induction false} LastAfterInsert(done: seq<Frame>, f: Frame)
    requires done != []
    ensures var r := InsertControl(done, f);
      r[|r| - 1] == if DataFrames(done[..|done| - 1]) == [] then f else done[|done| - 1]
  {
    if |done| == 1 {
      assert done[..0] == [];
    } else {
      assert done[..|done| - 1][1..] == done[1..][..|done| - 2];
      if done[0].IsControl() {
        LastAfterInsert(done[1..], f);
      }
    }
  }

  /** How many data frames the queue holds, and what stands last, decide what a control frame comes behind. */
  predicate Shape(queue: seq<Frame>, lastArrivedIsControl: bool) {
    var data := |DataFrames(queue)|;
    queue != [] && (queue[|queue| - 1].IsControl() <==> data == 0 || (data == 1 && lastArrivedIsControl))
  }

  lemma CommitKeepsShape(queue: seq<Frame>, f: Frame, lastArrivedIsControl: bool)
    requires queue == [] || Shape(queue, lastArrivedIsControl)
    requires f.Acceptable() && (f.IsContinuation() ==> MayContinue(queue))
    ensures Shape(Commit(queue, f), f.IsControl())
  {
    CommitKeeps(queue, f);
    if f.IsControl() && queue != [] {
      LastAfterInsert(queue, Mark(f));
      LastIsControl(queue);
    }
  }

  lemma LastIsControl(queue: seq<Frame>)
    requires queue != []
    ensures var init, last := queue[..|queue| - 1], queue[|queue| - 1];
      |DataFrames(queue)| == |DataFrames(init)| + if last.IsControl() then 0 else 1
  {
    var init, last := queue[..|queue| - 1], queue[|queue| - 1];
    assert queue == init + [last];
    DataFramesAppend(init, [last]);
    assert [last][1..] == [];
  }

  lemma {:induction false} DataFramesOfMarked(fs: seq<Frame>)
    ensures DataFrames(MarkAll(fs)) == MarkAll(DataFrames(fs))
  {
    if fs != [] {
      assert MarkAll(fs)[1..] == MarkAll(fs[1..]);
      DataFramesOfMarked(fs[1..]);
    }
  }

  /** The queue holds every frame, with the data frames in order of arrival. */
  predicate Kept(fs: seq<Frame>, queue: seq<Frame>) {
    && multiset(queue) == multiset(MarkAll(fs))
    && DataFrames(queue) == DataFrames(MarkAll(fs))
    && if fs == [] then queue == [] else Shape(queue, fs[|fs| - 1].IsControl())
  }

  lemma KeptAfter(fs: seq<Frame>, queue: seq<Frame>, f: Frame)
    requires Kept(fs, queue)
    requires f.Acceptable() && (f.IsContinuation() ==> Admits(fs))
    ensures Kept(fs + [f], Commit(queue, f))
  {
    AdmitsMeansMayContinue(fs, queue);
    CommitKeeps(queue, f);
    CommitKeepsShape(queue, f, fs != [] && fs[|fs| - 1].IsControl());
    MarkAllLast(fs, f);
  }

  lemma MarkAllLast(fs: seq<Frame>, f: Frame)
    ensures multiset(MarkAll(fs + [f])) == multiset(MarkAll(fs)) + multiset{Mark(f)}
    ensures DataFrames(MarkAll(fs + [f])) == DataFrames(MarkAll(fs)) + if f.IsControl() then [] else [Mark(f)]
  {
    assert MarkAll(fs + [f]) == MarkAll(fs) + [Mark(f)];
    DataFramesAppend(MarkAll(fs), [Mark(f)]);
    assert [Mark(f)][1..] == [];
  }

  lemma FragmentedFront(init: seq<Frame>, f: Frame)
    ensures WellFragmented(init + [f]) <==> WellFragmented(init) && (f.IsContinuation() ==> Admits(init))
  {
    var fs := init + [f];
    assert forall i | 0 <= i < |init| :: init[..i] == fs[..i] && init[i] == fs[i];
    assert fs[..|init|] == init && fs[|init|] == f;
  }

  /** A well-fragmented stream is filed whole, with its data frames in order. */
  lemma {:induction false} WellFragmentedIsKept(fs: seq<Frame>)
    requires (forall f <- fs :: f.Acceptable()) && WellFragmented(fs)
    ensures Kept(fs, CommitAll([], fs))
  {
    if fs != [] {
      var init, f := fs[..|fs| - 1], fs[|fs| - 1];
      assert fs == init + [f];
      FragmentedFront(init, f);
      WellFragmentedIsKept(init);
      KeptAfter(init, CommitAll([], init), f);
      CommitAllLast(init, f);
    }
  }

  /** The condition on the stream is the one that the reader checks on its queue. */
  lemma AdmitsMeansMayContinue(fs: seq<Frame>, queue: seq<Frame>)
    requires DataFrames(queue) == DataFrames(MarkAll(fs))
    requires if fs == [] then queue == [] else Shape(queue, fs[|fs| - 1].IsControl())
    ensures Admits(fs) <==> MayContinue(queue)
  {
    DataFramesOfMarked(fs);
    if fs != [] && !queue[|queue| - 1].IsControl() {
      LastDataFrame(queue);
    }
  }

  /** Filing a frame adds at most one to the queue. */
  lemma CommitAddsAtMostOne(queue: seq<Frame>, f: Frame)
    requires f.Acceptable()
    ensures |Commit(queue, f)| == |queue| + if f.IsContinuation() && !MayContinue(queue) then 0 else 1
  {
  }

  /** Otherwise a continuation frame is dropped. */
  lemma {:induction false} IllFragmentedIsLost(fs: seq<Frame>)
    requires (forall f <- fs :: f.Acceptable()) && !WellFragmented(fs)
    ensures |CommitAll([], fs)| < |fs|
  {
    var init, f := fs[..|fs| - 1], fs[|fs| - 1];
    assert fs == init + [f];
    CommitAllLast(init, f);
    CommitAddsAtMostOne(CommitAll([], init), f);
    FragmentedFront(init, f);
    if WellFragmented(init) {
      WellFragmentedIsKept(init);
      AdmitsMeansMayContinue(init, CommitAll([], init));
      SameMultisetSameLength(CommitAll([], init), MarkAll(init));
    } else {
      IllFragmentedIsLost(init);
    }
  }

  lemma SameMultisetSameLength(a: seq<Frame>, b: seq<Frame>)
    requires multiset(a) == multiset(b)
    ensures |a| == |b|
  {
    assert |a| == |multiset(a)| && |b| == |multiset(b)|;
  }

  /** Exactly the well-fragmented sequences of frames are filed whole. */
  lemma FiledWholeExactlyIfWellFragmented(fs: seq<Frame>)
    requires forall f <- fs :: f.Acceptable()
    ensures multiset(CommitAll([], fs)) == multiset(MarkAll(fs)) <==> WellFragmented(fs)
    ensures WellFragmented(fs) ==> DataFrames(CommitAll([], fs)) == DataFrames(MarkAll(fs))
  {
    if WellFragmented(fs) {
      WellFragmentedIsKept(fs);
    } else {
      IllFragmentedIsLost(fs);
      if multiset(CommitAll([], fs)) == multiset(MarkAll(fs)) {
        SameMultisetSameLength(CommitAll([], fs), MarkAll(fs));
      }
    }
  }

  /** Exactly the well-fragmented streams arrive whole, in any chunks. */
  lemma ArrivesWholeExactlyIfWellFragmented(ms: seq<Sendable>, chunks: seq<seq<byte>>)
    requires Flatten(chunks) == EncodeAll(ms)
    ensures FeedChunks(START, [], chunks).Progress?
    ensures var queue := FeedChunks(START, [], chunks).reader.done;
      && (multiset(queue) == multiset(ReceivedAll(ms)) <==> WellFragmented(ReceivedAll(ms)))
      && (WellFragmented(ReceivedAll(ms)) ==> DataFrames(queue) == DataFrames(ReceivedAll(ms)))
  {
    StreamIsFiled(ms, chunks);
    assert MarkAll(UnmarkedAll(ms)) == ReceivedAll(ms);
    MarkingKeepsFragmentation(UnmarkedAll(ms));
    FiledWholeExactlyIfWellFragmented(UnmarkedAll(ms));
  }

  lemma MarkingKeepsAdmits(prefix: seq<Frame>)
    ensures Admits(MarkAll(prefix)) <==> Admits(prefix)
  {
    DataFramesOfMarked(prefix);
  }

  lemma MarkingKeepsFragmentation(fs: seq<Frame>)
    ensures WellFragmented(MarkAll(fs)) <==> WellFragmented(fs)
  {
    forall i | 0 <= i < |fs|
      ensures Admits(MarkAll(fs)[..i]) <==> Admits(fs[..i])
    {
      assert MarkAll(fs)[..i] == MarkAll(fs[..i]);
      MarkingKeepsAdmits(fs[..i]);
    }
  }

  /** A message that is a frame of its own. */
  predicate Unfragmented(ms: seq<Sendable>) {
    forall m <- ms :: Received(m).IsFinal() && !Received(m).IsContinuation()
  }

  /** Data frames arrive in order with their exact payloads, and every control frame exactly once. */
  lemma UnfragmentedArrivesWhole(ms: seq<Sendable>, chunks: seq<seq<byte>>)
    requires Flatten(chunks) == EncodeAll(ms) && Unfragmented(ms)
    ensures FeedChunks(START, [], chunks).Progress?
    ensures var out := FeedChunks(START, [], chunks);
      && out.rest == [] && out.reader.current == FRESH
      && DataFrames(out.reader.done) == DataFrames(ReceivedAll(ms))
      && multiset(out.reader.done) == multiset(ReceivedAll(ms))
  {
    StreamIsFiled(ms, chunks);
    ArrivesWholeExactlyIfWellFragmented(ms, chunks);
  }

  lemma SecondFragmentIsDropped(a: Frame, b: Frame, c: Frame)
    requires a.Acceptable() && !a.IsControl() && !a.IsContinuation()
    requires b.Acceptable() && b.IsControl() && c.IsContinuation()
    ensures CommitAll([], [a, b, c]) == [Mark(a), Mark(b)]
  {
    assert [a] == [] + [a] && [a, b] == [a] + [b] && [a, b, c] == [a, b] + [c];
    CommitAllLast([], a);
    CommitAllLast([a], b);
    CommitAllLast([a, b], c);
    assert InsertControl([Mark(a)], Mark(b)) == [Mark(a), Mark(b)];
  }

  /**
   A ping between the two fragments of the first message makes the reader drop the second fragment,
   although section 5.4 of RFC 6455 allows control frames there.
   */
  lemma PingInsideFirstMessageLosesFragment()
    ensures var ms: seq<Sendable> :=
        [Message(0x01, Unmasked, [0x61]), Message(0x89, Unmasked, []), Message(0x80, Unmasked, [0x62])];
      CommitAll([], UnmarkedAll(ms)) == [Received(ms[0]), Received(ms[1])]
  {
    var ms: seq<Sendable> :=
      [Message(0x01, Unmasked, [0x61]), Message(0x89, Unmasked, []), Message(0x80, Unmasked, [0x62])];
    SecondFragmentIsDropped(Unmarked(ms[0]), Unmarked(ms[1]), Unmarked(ms[2]));
    assert UnmarkedAll(ms) == [Unmarked(ms[0]), Unmarked(ms[1]), Unmarked(ms[2])];
  }
}
