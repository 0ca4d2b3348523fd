/**
 The frame record of src/twebsocketframe.h and the wire format of RFC 6455, sections 5.2 and 5.3,
 which the frame reader has to undo.
 */
module WebSocketFrame {
  import opened Bytes

  datatype State = Empty | HeaderParsed | MoreData | Completed

  datatype Frame = Frame(
    firstByte: byte, maskKey: uint32, payloadLength: uint64,
    payload: seq<byte>, state: State, valid: bool)
  {
    predicate IsFinal() {
      firstByte / 0x80 % 2 == 1
    }

    predicate ReservedBitsClear() {
      firstByte / 0x40 % 2 == 0 && firstByte / 0x20 % 2 == 0 && firstByte / 0x10 % 2 == 0
    }

    function OpCode(): nat {
      firstByte % 0x10
    }

    predicate IsContinuation() {
      OpCode() == 0
    }

    predicate IsControl() {
      OpCode() / 8 % 2 == 1
    }

    /** Does TWebSocketFrame::validate accept this frame? */
    predicate Acceptable() {
      && state == Completed
      && ReservedBitsClear()
      && (0 <= OpCode() <= 2 || 8 <= OpCode() <= 0xA)
      && (IsControl() ==> payloadLength <= 125 && IsFinal())
    }
  }

  /** The bits of the first octet, section 5.2 of RFC 6455. */
  lemma FirstOctetIs(f: Frame, fin: bool, reserved: nat, opCode: nat)
    requires reserved < 8 && opCode < 16
    requires f.firstByte == (if fin then 0x80 else 0) + 0x10 * reserved + opCode
    ensures f.IsFinal() == fin && f.ReservedBitsClear() == (reserved == 0) && f.OpCode() == opCode
    ensures f.IsContinuation() == (opCode == 0) && f.IsControl() == (opCode >= 8)
  {
  }

  /** The frames that are accepted, by their first octet: data frames, and short control frames with the final bit. */
  lemma AcceptableExactly(f: Frame)
    ensures f.Acceptable() <==>
      && f.state == Completed
      && (f.firstByte in {0x00, 0x01, 0x02, 0x80, 0x81, 0x82} ||
          (f.firstByte in {0x88, 0x89, 0x8A} && f.payloadLength <= 125))
  {
  }

  /** A newly constructed frame, and what clear() leaves behind. */
  const FRESH := Frame(0x80, 0, 0, [], Empty, false)

  /** A payload of this length or more is refused. */
  const TOO_BIG: nat := 0x8000_0000

  // ---------- masking ----------

  function MaskOctets(key: uint32): (m: seq<byte>)
    ensures |m| == 4
  {
    ToBigEndian(key, 4)
  }

  /** The transformation of RFC 6455, section 5.3, resumed `offset` octets into the payload. */
  function Mask(key: uint32, offset: nat, data: seq<byte>): (r: seq<byte>)
    ensures |r| == |data|
  {
    seq(|data|, i requires 0 <= i < |data| => Xor(data[i], MaskOctets(key)[(offset + i) % 4]))
  }

  lemma MaskTwice(key: uint32, offset: nat, data: seq<byte>)
    ensures Mask(key, offset, Mask(key, offset, data)) == data
  {
    forall i | 0 <= i < |data|
      ensures Mask(key, offset, Mask(key, offset, data))[i] == data[i]
    {
      XorTwice(data[i], MaskOctets(key)[(offset + i) % 4]);
    }
  }

  lemma MaskSplit(key: uint32, offset: nat, a: seq<byte>, b: seq<byte>)
    ensures Mask(key, offset, a + b) == Mask(key, offset, a) + Mask(key, offset + |a|, b)
  {
  }

  /** The zero key masks nothing, so the reader may skip the loop for it. */
  lemma MaskZero(offset: nat, data: seq<byte>)
    ensures Mask(0, offset, data) == data
  {
    forall i | 0 <= i < |data|
      ensures Mask(0, offset, data)[i] == data[i]
    {
      assert MaskOctets(0) == [0, 0, 0, 0] by {
        assert ToBigEndian(0, 2) == [0, 0];
      }
      XorZero(data[i]);
    }
  }

  // ---------- headers ----------

  datatype Header =
    | Incomplete
    | Malformed
    | Complete(firstByte: byte, length: uint64, maskKey: uint32, size: nat)

  /** The number of extended length octets announced by a 7-bit length code. */
  function ExtendedSize(code: nat): nat {
    if code == 126 then 2 else if code == 127 then 8 else 0
  }

  /** What the reader makes of the bytes at the start of a frame. */
  function DecodeHeader(data: seq<byte>): (h: Header)
    ensures h.Complete? ==> 2 <= h.size <= |data| && h.size <= 14
    ensures h.Incomplete? ==> |data| < 14
  {
    if |data| < 2 then Incomplete
    else
      var code := data[1] % 0x80;
      var extended := ExtendedSize(code);
      if |data| < 2 + extended then Incomplete
      else
        var length := if extended == 0 then code else ReadUint(data, 2, extended);
        if (code == 126 && length < 126) || (code == 127 && length <= 0xFFFF) then Malformed
        else if data[1] < 0x80 then Complete(data[0], length, 0, 2 + extended)
        else if |data| < 6 + extended then Incomplete
        else Complete(data[0], length, ReadUint(data, 2 + extended, 4), 6 + extended)
  }

  /** The `width`-octet big-endian number at offset `at`. */
  function ReadUint(data: seq<byte>, at: nat, width: nat): (n: nat)
    requires at + width <= |data|
    ensures width == 2 ==> n < 0x1_0000
    ensures width == 4 ==> n < 0x1_0000_0000
    ensures width == 8 ==> n < 0x1_0000_0000_0000_0000
  {
    BigEndianBound(data[at..at + width]);
    Pow256Values();
    BigEndian(data[at..at + width])
  }

  /** How a frame is masked on the wire: not at all, or with a key (which may be zero). */
  datatype Masking = Unmasked | Masked(key: uint32)

  function LengthCode(length: uint64): nat {
    if length <= 125 then length else if length <= 0xFFFF then 126 else 127
  }

  /** The header of RFC 6455, section 5.2, in its minimal length form. */
  function EncodeHeader(firstByte: byte, masking: Masking, length: uint64): seq<byte> {
    var code := LengthCode(length);
    [firstByte, code + (if masking.Masked? then 0x80 else 0)]
    + ToBigEndian(length, ExtendedSize(code))
    + (if masking.Masked? then ToBigEndian(masking.key, 4) else [])
  }

  function KeyOf(masking: Masking): uint32 {
    if masking.Masked? then masking.key else 0
  }

  /** Decoding undoes encoding, whatever follows the header. */
  lemma DecodeEncodedHeader(firstByte: byte, masking: Masking, length: uint64, tail: seq<byte>)
    ensures var h := EncodeHeader(firstByte, masking, length);
      DecodeHeader(h + tail) == Complete(firstByte, length, KeyOf(masking), |h|)
  {
    var h := EncodeHeader(firstByte, masking, length);
    var data := h + tail;
    var extended := ExtendedSize(LengthCode(length));
    Pow256Values();
    assert data[1] % 0x80 == LengthCode(length);
    assert data[2..2 + extended] == ToBigEndian(length, extended);
    if extended > 0 {
      BigEndianRoundTrip(length, extended);
    }
    if masking.Masked? {
      assert data[2 + extended..6 + extended] == ToBigEndian(masking.key, 4);
      BigEndianRoundTrip(masking.key, 4);
    }
  }

  /** A header that is accepted is the minimal encoding of what was read: no other form gets through. */
  lemma AcceptedHeaderIsMinimal(data: seq<byte>)
    requires DecodeHeader(data).Complete?
    ensures var h := DecodeHeader(data);
      exists masking :: KeyOf(masking) == h.maskKey && data[..h.size] == EncodeHeader(h.firstByte, masking, h.length)
  {
    var h := DecodeHeader(data);
    var extended := ExtendedSize(data[1] % 0x80);
    var masking := if data[1] < 0x80 then Unmasked else Masked(h.maskKey);
    LengthIsMinimal(data);
    if masking.Masked? {
      ReadUintInverse(data, 2 + extended, 4);
    }
    HeaderInParts(data, extended, h.size);
    assert data[..h.size] == EncodeHeader(h.firstByte, masking, h.length);
  }

  lemma LengthIsMinimal(data: seq<byte>)
    requires DecodeHeader(data).Complete?
    ensures var h, extended := DecodeHeader(data), ExtendedSize(data[1] % 0x80);
      && LengthCode(h.length) == data[1] % 0x80 && 2 + extended <= h.size
      && data[2..2 + extended] == ToBigEndian(h.length, extended)
  {
    var extended := ExtendedSize(data[1] % 0x80);
    if extended > 0 {
      ReadUintInverse(data, 2, extended);
    }
  }

  lemma HeaderInParts(data: seq<byte>, extended: nat, size: nat)
    requires 2 + extended <= size <= |data|
    ensures data[..size] == [data[0], data[1]] + data[2..2 + extended] + data[2 + extended..size]
  {
  }

  lemma ReadUintInverse(data: seq<byte>, at: nat, width: nat)
    requires at + width <= |data|
    ensures ToBigEndian(ReadUint(data, at, width), width) == data[at..at + width]
  {
    BigEndianInverse(data[at..at + width]);
  }

  lemma {:induction false} BigEndianInverse(s: seq<byte>)
    ensures ToBigEndian(BigEndian(s), |s|) == s
  {
    if s != [] {
      BigEndianInverse(s[..|s| - 1]);
      assert s == s[..|s| - 1] + [s[|s| - 1]];
    }
  }

  /** A complete or malformed header is recognised however much more input has arrived. */
  lemma DecodeHeaderPrefix(a: seq<byte>, b: seq<byte>)
    requires !DecodeHeader(a).Incomplete?
    ensures DecodeHeader(a + b) == DecodeHeader(a)
  {
    var extended := ExtendedSize(a[1] % 0x80);
    assert (a + b)[2..2 + extended] == a[2..2 + extended];
    if 6 + extended <= |a| {
      assert (a + b)[2 + extended..6 + extended] == a[2 + extended..6 + extended];
    }
  }

  lemma TwoOctets(octets: seq<byte>)
    requires |octets| == 2
    ensures var s: seq<int> := octets; BigEndian(octets) == 0x100 * s[0] + s[1]
  {
    var s := octets;
    assert s[..1] == [s[0]] && [s[0]][..0] == [];
    assert BigEndian([s[0]]) == s[0];
  }

  lemma FourOctets(octets: seq<byte>)
    requires |octets| == 4
    ensures var s: seq<int> := octets; BigEndian(octets) == 0x100_0000 * s[0] + 0x1_0000 * s[1] + 0x100 * s[2] + s[3]
  {
    var s := octets;
    TwoOctets(s[..2]);
    assert s[..3][..2] == s[..2];
    assert BigEndian(s[..3]) == 0x100 * BigEndian(s[..2]) + s[2];
  }

  lemma EightOctets(octets: seq<byte>)
    requires |octets| == 8
    ensures var s: seq<int> := octets;
      BigEndian(octets) ==
      0x1_0000_0000 * (0x100_0000 * s[0] + 0x1_0000 * s[1] + 0x100 * s[2] + s[3]) +
      0x100_0000 * s[4] + 0x1_0000 * s[5] + 0x100 * s[6] + s[7]
  {
    var s := octets;
    FourOctets(s[..4]);
    assert s[..5][..4] == s[..4] && s[..6][..5] == s[..5] && s[..7][..6] == s[..6];
    assert BigEndian(s[..5]) == 0x100 * BigEndian(s[..4]) + s[4];
    assert BigEndian(s[..6]) == 0x100 * BigEndian(s[..5]) + s[5];
    assert BigEndian(s[..7]) == 0x100 * BigEndian(s[..6]) + s[6];
  }

  /** Headers with a 7-bit length, octet by octet. */
  lemma ShortHeader(data: seq<byte>)
    requires |data| >= 6 && (data[1] <= 125 || 0x80 <= data[1] <= 0x80 + 125)
    ensures var d: seq<int> := data;
      DecodeHeader(data) ==
      if data[1] <= 125 then Complete(data[0], data[1], 0, 2)
      else
        Complete(data[0], d[1] - 0x80,
             0x100_0000 * d[2] + 0x1_0000 * d[3] + 0x100 * d[4] + data[5], 6)
  {
    FourOctets(data[2..6]);
  }

  /** Headers with a 16-bit length. */
  lemma MediumHeader(data: seq<byte>)
    requires |data| >= 8 && data[1] in {126, 0x80 + 126}
    ensures var d: seq<int> := data; var length := 0x100 * d[2] + data[3];
      DecodeHeader(data) ==
      if length < 126 then Malformed
      else if data[1] == 126 then Complete(data[0], length, 0, 4)
      else Complete(data[0], length,
             0x100_0000 * d[4] + 0x1_0000 * d[5] + 0x100 * d[6] + data[7], 8)
  {
    TwoOctets(data[2..4]);
    FourOctets(data[4..8]);
  }

  /** Headers with a 64-bit length. */
  lemma LongHeader(data: seq<byte>)
    requires |data| >= 14 && data[1] in {127, 0x80 + 127}
    ensures var d: seq<int> := data;
      var length :=
        0x1_0000_0000 * (0x100_0000 * d[2] + 0x1_0000 * d[3] + 0x100 * d[4] + data[5]) +
        0x100_0000 * d[6] + 0x1_0000 * d[7] + 0x100 * d[8] + data[9];
      DecodeHeader(data) ==
      if length <= 0xFFFF then Malformed
      else if data[1] == 127 then Complete(data[0], length, 0, 10)
      else Complete(data[0], length,
             0x100_0000 * d[10] + 0x1_0000 * d[11] + 0x100 * d[12] + data[13], 14)
  {
    EightOctets(data[2..10]);
    FourOctets(data[10..14]);
  }

  /** When more octets have to arrive; a length that is too small for its form is refused before the key is there. */
  lemma IncompleteExactly(data: seq<byte>)
    ensures DecodeHeader(data).Incomplete? <==>
      || |data| < 2
      || (data[1] % 0x80 == 126 && |data| < 4)
      || (data[1] % 0x80 == 127 && |data| < 10)
      || (data[1] >= 0x80 && !DecodeHeader(data).Malformed? &&
          |data| < if data[1] % 0x80 == 126 then 8 else if data[1] % 0x80 == 127 then 14 else 6)
  {
  }

  /** Unmasking an octet, bit by bit, with the octet of the key that its place in the payload selects. */
  lemma OctetIsUnmasked(key: uint32, offset: nat, data: seq<byte>, i: nat)
    requires i < |data|
    ensures var x, y := Mask(key, offset, data)[i], data[i];
      var k := match (offset + i) % 4
        case 0 => key / 0x100_0000
        case 1 => key / 0x1_0000 % 0x100
        case 2 => key / 0x100 % 0x100
        case _ => key % 0x100;
      && x % 2 == (y % 2 + k % 2) % 2
      && x / 2 % 2 == (y / 2 % 2 + k / 2 % 2) % 2
      && x / 4 % 2 == (y / 4 % 2 + k / 4 % 2) % 2
      && x / 8 % 2 == (y / 8 % 2 + k / 8 % 2) % 2
      && x / 16 % 2 == (y / 16 % 2 + k / 16 % 2) % 2
      && x / 32 % 2 == (y / 32 % 2 + k / 32 % 2) % 2
      && x / 64 % 2 == (y / 64 % 2 + k / 64 % 2) % 2
      && x / 128 % 2 == (y / 128 % 2 + k / 128 % 2) % 2
  {
    MaskOctetsAre(key);
    XorIsBitwise(data[i], MaskOctets(key)[(offset + i) % 4]);
  }

  lemma MaskOctetsAre(key: uint32)
    ensures MaskOctets(key) ==
      [key / 0x100_0000, key / 0x1_0000 % 0x100, key / 0x100 % 0x100, key % 0x100]
  {
    var a, b, c := key / 0x100, key / 0x1_0000, key / 0x100_0000;
    assert ToBigEndian(c, 1) == [c] by { assert ToBigEndian(c / 0x100, 0) == []; }
    assert ToBigEndian(b, 2) == [c, b % 0x100];
    assert ToBigEndian(a, 3) == [c, b % 0x100, a % 0x100];
  }

  // ---------- whole frames ----------

  /** A frame as its sender means it. */
  datatype Message = Message(firstByte: byte, masking: Masking, payload: seq<byte>)

  function EncodeFrame(m: Message): seq<byte>
    requires |m.payload| < TOO_BIG
  {
    EncodeHeader(m.firstByte, m.masking, |m.payload|)
    + if m.masking.Masked? then Mask(m.masking.key, 0, m.payload) else m.payload
  }

  /** The completed frame that stands for the message in the receive queue. */
  function Received(m: Message): Frame
    requires |m.payload| < TOO_BIG
  {
    Frame(m.firstByte, KeyOf(m.masking), |m.payload|, m.payload, Completed, true)
  }
}
