/**
  Wire frames: `0x00 COBS(header || payload || crc16) 0x00`, with a 14-byte little-endian
  header and a payload of at most 256 bytes.
  */
module Framing {
  import opened Struct
  import opened Nibbles
  import opened Crc16
  import Cobs
  import O = Offsets

  const MAGIC := 0xA5
  const HEADER_LEN := 14
  const CRC_LEN := 2
  const MAX_PAYLOAD := 256

  const MSG_EVENT := 3

  datatype Header = Header(
    msgType: int, msgId: int, flags: int, seqNo: int, timestampMs: int, payloadLen: int,
    magic: int, versionMajor: int, versionMinor: int)

  const HEADER_PREFIX: Format := [U8, U8, U8, U8, U8, U8, U16, U32]
  const HEADER_FORMAT: Format := HEADER_PREFIX + [U16]

  function Fields(h: Header): seq<int> {
    [h.magic, h.versionMajor, h.versionMinor, h.msgType, h.msgId, h.flags, h.seqNo, h.timestampMs, h.payloadLen]
  }

  function HeaderOf(v: seq<int>): Header
    requires |v| == 9
  {
    Header(v[3], v[4], v[5], v[6], v[7], v[8], v[0], v[1], v[2])
  }

  lemma HeaderSize()
    ensures Size(HEADER_FORMAT) == HEADER_LEN
  {
    SizeOfConcat(HEADER_PREFIX, [U16]);
  }

  predicate HeaderFits(h: Header) {
    AllFit(HEADER_FORMAT, Fields(h))
  }

  function PackHeader(h: Header): (b: bytes)
    requires HeaderFits(h)
    ensures |b| == HEADER_LEN
  {
    HeaderSize();
    PackFits(HEADER_FORMAT, Fields(h))
  }

  function UnpackHeader(b: bytes): Header
    requires |b| >= HEADER_LEN
  {
    HeaderSize();
    HeaderOf(Unpack(HEADER_FORMAT, b[..HEADER_LEN]))
  }

  /** The unstuffed body of a frame. */
  function Body(h: Header, payload: bytes): (b: bytes)
    requires HeaderFits(h)
    ensures |b| == HEADER_LEN + |payload| + CRC_LEN
  {
    var head := PackHeader(h) + payload;
    head + LeBytes(Crc16Of(head), CRC_LEN)
  }

  datatype Encoded = Frame(wire: bytes) | PayloadTooLong | FieldOutOfRange

  function Wire(body: bytes): bytes {
    [0] + Cobs.Encode(body) + [0]
  }

  /** The frame for a message; the header's length field is overwritten first. */
  function EncodeFrame(h: Header, payload: bytes): Encoded {
    if |payload| > MAX_PAYLOAD then PayloadTooLong
    else
      var sent := h.(payloadLen := |payload|);
      if HeaderFits(sent) then Frame(Wire(Body(sent, payload))) else FieldOutOfRange
  }

  datatype Reason = BadCobs | TooShort | BadMagic | LengthOverMax | LengthInconsistent | CrcMismatch

  datatype Received = Message(header: Header, payload: bytes) | Rejected(reason: Reason)

  /** The checks on an unstuffed body, in the source's order. */
  function DecodeBody(b: bytes): Received {
    if |b| < HEADER_LEN + CRC_LEN then Rejected(TooShort)
    else if b[0] as int != MAGIC then Rejected(BadMagic)
    else
      var h := UnpackHeader(b);
      if h.payloadLen > MAX_PAYLOAD then Rejected(LengthOverMax)
      else if HEADER_LEN + h.payloadLen + CRC_LEN != |b| then Rejected(LengthInconsistent)
      else
        var at := |b| - CRC_LEN;
        if Crc16Of(b[..at]) != LeValue(b[at..]) then Rejected(CrcMismatch)
        else Message(h, b[HEADER_LEN..at])
  }

  function DecodeFrameBody(stuffed: bytes): Received {
    var r := Cobs.Decode(stuffed);
    if r.Ok? then DecodeBody(r.value) else Rejected(BadCobs)
  }

  // ---------- Round trip, in both directions ----------

  lemma PackedHeader(h: Header, rest: bytes)
    requires HeaderFits(h)
    ensures UnpackHeader(PackHeader(h) + rest) == h
    ensures (PackHeader(h) + rest)[0] as int == h.magic
  {
    UnpackOfPack(HEADER_FORMAT, Fields(h));
    assert (PackHeader(h) + rest)[..HEADER_LEN] == PackHeader(h);
    FirstByteOfU8(HEADER_FORMAT, Fields(h));
  }

  lemma CrcField(head: bytes)
    ensures LeValue(LeBytes(Crc16Of(head), CRC_LEN)) == Crc16Of(head)
  {
    assert Pow256(CRC_LEN) == 0x1_0000;
    LeValueOfBytes(Crc16Of(head), CRC_LEN);
  }

  /** Every body built from a well-formed header is read back exactly. */
  lemma DecodeOfBody(h: Header, payload: bytes)
    requires HeaderFits(h) && h.payloadLen == |payload| <= MAX_PAYLOAD
    ensures DecodeBody(Body(h, payload)) == if h.magic == MAGIC then Message(h, payload) else Rejected(BadMagic)
  {
    var head := PackHeader(h) + payload;
    var crc := LeBytes(Crc16Of(head), CRC_LEN);
    var b := Body(h, payload);
    assert b == PackHeader(h) + (payload + crc);
    PackedHeader(h, payload + crc);
    CrcField(head);
    assert b[..|head|] == head && b[|head|..] == crc;
    assert b[HEADER_LEN..|head|] == payload;
  }

  lemma UnpackedHeader(b: bytes)
    requires |b| >= HEADER_LEN
    ensures HeaderFits(UnpackHeader(b)) && PackHeader(UnpackHeader(b)) == b[..HEADER_LEN]
    ensures UnpackHeader(b).magic == b[0] as int && UnpackHeader(b).payloadLen >= 0
  {
    var h := UnpackHeader(b);
    HeaderSize();
    PackOfUnpack(HEADER_FORMAT, b[..HEADER_LEN]);
    assert Fields(h) == Unpack(HEADER_FORMAT, b[..HEADER_LEN]);
    FirstByteOfU8(HEADER_FORMAT, Fields(h));
    assert Fits(HEADER_FORMAT[8], Fields(h)[8]);
  }

  /** Conversely, every accepted body is the one encoding of the message it yields. */
  lemma BodyOfDecode(b: bytes)
    requires DecodeBody(b).Message?
    ensures var m := DecodeBody(b);
            HeaderFits(m.header) && m.header.magic == MAGIC && m.header.payloadLen == |m.payload| <= MAX_PAYLOAD
            && b == Body(m.header, m.payload)
  {
    var h, at := UnpackHeader(b), |b| - CRC_LEN;
    UnpackedHeader(b);
    LeBytesOfValue(b[at..]);
    assert b[..at] == b[..HEADER_LEN] + b[HEADER_LEN..at];
    assert b == b[..at] + b[at..];
  }

  // ---------- By byte position ----------

  lemma HeaderStarts()
    ensures |HEADER_FORMAT| == 9 && O.Start(HEADER_FORMAT, 0) == 0 && O.Start(HEADER_FORMAT, 1) == 1
    ensures O.Start(HEADER_FORMAT, 2) == 2 && O.Start(HEADER_FORMAT, 3) == 3 && O.Start(HEADER_FORMAT, 4) == 4
    ensures O.Start(HEADER_FORMAT, 5) == 5 && O.Start(HEADER_FORMAT, 6) == 6 && O.Start(HEADER_FORMAT, 7) == 8
    ensures O.Start(HEADER_FORMAT, 8) == 12
  {
    var f := HEADER_FORMAT;
    O.Starts(f);
    assert f[0] == U8 && f[1] == U8 && f[2] == U8 && f[3] == U8 && f[4] == U8 && f[5] == U8 && f[6] == U16 && f[7] == U32;
  }

  lemma {:induction false} HeaderField(b: bytes, j: nat)
    requires |b| >= HEADER_LEN && j < 9
    ensures Size(HEADER_FORMAT) == HEADER_LEN && O.Start(HEADER_FORMAT, j) + Width(HEADER_FORMAT[j]) <= |b|
    ensures Unpack(HEADER_FORMAT, b[..HEADER_LEN])[j] == O.ValueAt(HEADER_FORMAT[j], b, O.Start(HEADER_FORMAT, j))
  {
    HeaderSize();
    assert b[..HEADER_LEN] == b[0..0 + HEADER_LEN];
    O.FieldIn(HEADER_FORMAT, b, 0, b[..HEADER_LEN], Unpack(HEADER_FORMAT, b[..HEADER_LEN]), j, O.Start(HEADER_FORMAT, j));
  }

  /** Where the nine header fields are. */
  lemma HeaderBytes(b: bytes)
    requires |b| >= HEADER_LEN
    ensures UnpackHeader(b)
         == Header(O.U8At(b, 3), O.U8At(b, 4), O.U8At(b, 5), O.U16At(b, 6), O.U32At(b, 8), O.U16At(b, 12),
                   O.U8At(b, 0), O.U8At(b, 1), O.U8At(b, 2))
  {
    HeaderStarts();
    HeaderField(b, 0);
    HeaderField(b, 1);
    HeaderField(b, 2);
    HeaderField(b, 3);
    HeaderField(b, 4);
    HeaderField(b, 5);
    HeaderField(b, 6);
    HeaderField(b, 7);
    HeaderField(b, 8);
  }

  lemma CrcBytes(b: bytes)
    requires |b| >= CRC_LEN
    ensures LeValue(b[|b| - CRC_LEN..]) == O.U16At(b, |b| - CRC_LEN)
  {
    O.LeTwo(b[|b| - CRC_LEN..]);
  }

  /** A body is accepted exactly when it has the magic byte, its length is the one in bytes 12 and
      13, at most 256, and its last two bytes are the checksum of those before them. */
  lemma AcceptedIff(b: bytes)
    ensures DecodeBody(b).Message? <==>
              |b| >= 16 && b[0] == 0xA5 && O.U16At(b, 12) <= 256 && |b| == 16 + O.U16At(b, 12)
              && O.U16At(b, |b| - 2) == Crc16Of(b[..|b| - 2])
    ensures DecodeBody(b).Message? ==>
              DecodeBody(b) == Message(Header(O.U8At(b, 3), O.U8At(b, 4), O.U8At(b, 5), O.U16At(b, 6), O.U32At(b, 8),
                                              O.U16At(b, 12), 0xA5, O.U8At(b, 1), O.U8At(b, 2)), b[14..|b| - 2])
  {
    if |b| >= HEADER_LEN + CRC_LEN {
      HeaderBytes(b);
      CrcBytes(b);
    }
  }

  // ---------- Corruption of an accepted body ----------

  lemma TwoByteValue(b: bytes)
    requires |b| == 2
    ensures LeValue(b) == b[0] as int + 256 * b[1] as int
  {
    assert LeValue(b[1..]) == b[1] as int + 256 * LeValue(b[1..][1..]);
  }

  lemma AgreeOnPrefix(b: bytes, c: bytes, i: nat, n: nat, at: nat)
    requires AgreeBut(b, c, i, n) && i + n <= at <= |b|
    ensures AgreeBut(b[..at], c[..at], i, n) && b[at..] == c[at..]
    ensures b != c ==> b[..at] != c[..at]
  {
    assert b[..at][..i] == b[..i] && c[..at][..i] == c[..i];
    assert b[..at][i + n..] == b[i + n..][..at - (i + n)] && c[..at][i + n..] == c[i + n..][..at - (i + n)];
    assert b[at..] == b[i + n..][at - (i + n)..] && c[at..] == c[i + n..][at - (i + n)..];
    if b[..at] == c[..at] {
      assert b == b[..at] + b[at..] && c == c[..at] + c[at..];
    }
  }

  /** Any change confined to two neighbouring bytes of header and payload is rejected. */
  lemma BurstRejected(b: bytes, c: bytes, i: nat)
    requires DecodeBody(b).Message? && AgreeBut(b, c, i, 2) && b != c && i + 2 <= |b| - CRC_LEN
    ensures DecodeBody(c).Rejected?
  {
    var at := |b| - CRC_LEN;
    AgreeOnPrefix(b, c, i, 2, at);
    BurstDetected(b[..at], c[..at], i);
  }

  lemma StoredCrcChanged(b: bytes, c: bytes)
    requires DecodeBody(b).Message? && |c| == |b| && b != c && b[..|b| - CRC_LEN] == c[..|b| - CRC_LEN]
    ensures DecodeBody(c).Rejected?
  {
    var at := |b| - CRC_LEN;
    LeBytesOfValue(b[at..]);
    LeBytesOfValue(c[at..]);
    assert b == b[..at] + b[at..] && c == c[..at] + c[at..];
  }

  lemma Widen(b: bytes, c: bytes, i: nat, j: nat)
    requires AgreeBut(b, c, i, 1) && j <= i <= j + 1 && j + 2 <= |b|
    ensures AgreeBut(b, c, j, 2)
  {
    assert b[..j] == b[..i][..j] && c[..j] == c[..i][..j];
    assert b[j + 2..] == b[i + 1..][j + 1 - i..] && c[j + 2..] == c[i + 1..][j + 1 - i..];
  }

  /** Changing any one byte anywhere makes an accepted body rejected. */
  lemma OneByteRejected(b: bytes, c: bytes, i: nat)
    requires DecodeBody(b).Message? && AgreeBut(b, c, i, 1) && b != c
    ensures DecodeBody(c).Rejected?
  {
    var at := |b| - CRC_LEN;
    if i < at {
      var j := if i == 0 then 0 else i - 1;
      Widen(b, c, i, j);
      BurstRejected(b, c, j);
    } else {
      assert b[..at] == b[..i][..at] && c[..at] == c[..i][..at];
      StoredCrcChanged(b, c);
    }
  }

  lemma PrefixFits(h: Header)
    requires HeaderFits(h)
    ensures AllFit(HEADER_PREFIX, Fields(h)[..8]) && Fits(U16, h.payloadLen)
  {
    var vs := Fields(h)[..8];
    assert Fits(HEADER_FORMAT[8], Fields(h)[8]);
    assert forall i :: 0 <= i < 8 ==> HEADER_PREFIX[i] == HEADER_FORMAT[i] && vs[i] == Fields(h)[i];
  }

  /** The length field is the last two header bytes. */
  lemma LengthField(h: Header)
    requires HeaderFits(h) && h.payloadLen >= 0
    ensures PackHeader(h)[12..] == LeBytes(h.payloadLen, 2)
  {
    var vs := Fields(h)[..8];
    PrefixFits(h);
    PackOfOne(U16, h.payloadLen);
    assert HEADER_FORMAT == HEADER_PREFIX + [U16];
    assert Fields(h) == vs + [h.payloadLen];
    PackOfConcat(HEADER_PREFIX, [U16], vs, [h.payloadLen]);
  }

  /** Two accepted bodies of one length agree on the length field. */
  lemma SameLengthField(b: bytes, c: bytes)
    requires DecodeBody(b).Message? && DecodeBody(c).Message? && |b| == |c|
    ensures b[13] == c[13]
  {
    BodyOfDecode(b);
    BodyOfDecode(c);
    var h, g := DecodeBody(b).header, DecodeBody(c).header;
    LengthField(h);
    LengthField(g);
    assert b[13] == PackHeader(h)[12..][1];
    assert c[13] == PackHeader(g)[12..][1];
  }

  lemma HeaderUntouched(b: bytes, c: bytes, i: nat)
    requires DecodeBody(b).Message? && |c| == |b| && HEADER_LEN <= i <= |b| && b[..i] == c[..i]
    ensures UnpackHeader(c) == UnpackHeader(b) && c[0] == b[0]
    ensures DecodeBody(c).Message? <==> Crc16Of(c[..|b| - CRC_LEN]) == LeValue(c[|b| - CRC_LEN..])
  {
    assert b[..HEADER_LEN] == b[..i][..HEADER_LEN] && c[..HEADER_LEN] == c[..i][..HEADER_LEN];
    assert b[0] == b[..i][0] && c[0] == c[..i][0];
  }

  lemma TwoDigits(crc: int, lo: byte, hi: byte)
    requires 0 <= crc < 0x1_0000
    ensures crc == lo as int + 256 * hi as int <==> crc % 256 == lo as int && crc / 256 == hi as int
  {
  }

  lemma StraddleCrc(pre: bytes, a: byte, a': byte, lo: byte, lo': byte, hi: byte)
    requires a != a' && Crc16Of(pre + [a]) == lo as int + 256 * hi as int
    ensures Crc16Of(pre + [a']) == lo' as int + 256 * hi as int
            <==> XorBytes(a, a') == 0x89 && XorBytes(lo, lo') == 0xA1
  {
    var x, y := Crc16Of(pre + [a]), Crc16Of(pre + [a']);
    LastByteKernel(pre, a, a');
    TwoDigits(x, lo, hi);
    TwoDigits(y, lo', hi);
    if XorBytes(a, a') == 0x89 && XorBytes(lo, lo') == 0xA1 {
      XorBytesInjective(lo, (y % 256) as byte, lo');
    }
  }

  /** The last payload byte and the first checksum byte change together unseen exactly
      when they change by 0x89 and 0xA1. */
  lemma StraddleAccepted(b: bytes, c: bytes, i: nat)
    requires DecodeBody(b).Message? && i == |b| - 3 >= HEADER_LEN
    requires AgreeBut(b, c, i, 2) && b[i] != c[i]
    ensures DecodeBody(c).Message? <==> XorBytes(b[i], c[i]) == 0x89 && XorBytes(b[i + 1], c[i + 1]) == 0xA1
  {
    var at := i + 1;
    HeaderUntouched(b, c, i);
    assert b[..at] == b[..i] + [b[i]] && c[..at] == b[..i] + [c[i]];
    TwoByteValue(b[at..]);
    TwoByteValue(c[at..]);
    assert b[i + 2..][0] == c[i + 2..][0];
    StraddleCrc(b[..i], b[i], c[i], b[at], c[at], b[i + 2]);
  }

  /** Exactly which changes of two neighbouring bytes an accepted body survives. */
  lemma AdjacentPairAccepted(b: bytes, c: bytes, i: nat)
    requires DecodeBody(b).Message? && AgreeBut(b, c, i, 2) && b[i] != c[i] && b[i + 1] != c[i + 1]
    ensures DecodeBody(c).Message? <==>
              i == |b| - 3 && DecodeBody(b).payload != []
              && XorBytes(b[i], c[i]) == 0x89 && XorBytes(b[i + 1], c[i + 1]) == 0xA1
  {
    var at := |b| - CRC_LEN;
    if i + 2 <= at {
      BurstRejected(b, c, i);
    } else if i == at {
      StoredCrcChanged(b, c);
    } else if i >= HEADER_LEN {
      StraddleAccepted(b, c, i);
    } else if DecodeBody(c).Message? {
      SameLengthField(b, c);
    }
  }

  // ---------- The wire form ----------

  const MAX_STUFFED := 274

  /** What lies between the two delimiters. */
  function Inner(wire: bytes): bytes
    requires |wire| >= 2
  {
    wire[1..|wire| - 1]
  }

  /** An encoded frame is two delimiters around at least one and at most 274 nonzero bytes,
      which decode to the message that was sent. */
  lemma FrameRoundTrip(h: Header, payload: bytes)
    requires EncodeFrame(h, payload).Frame?
    ensures var wire := EncodeFrame(h, payload).wire;
            var sent := h.(payloadLen := |payload|);
            |wire| >= 2 && wire == [0] + Inner(wire) + [0]
            && Inner(wire) != [] && |Inner(wire)| <= MAX_STUFFED && 0 !in Inner(wire)
            && DecodeFrameBody(Inner(wire)) == if h.magic == MAGIC then Message(sent, payload) else Rejected(BadMagic)
  {
    var sent := h.(payloadLen := |payload|);
    var body := Body(sent, payload);
    var stuffed := Cobs.Encode(body);
    assert Inner([0] + stuffed + [0]) == stuffed;
    Cobs.EncodeLength(body);
    Cobs.EncodeHasNoZero(body);
    Cobs.DecodeEncode(body);
    DecodeOfBody(sent, payload);
  }

  /** A frame is made exactly when the payload has at most 256 bytes and every header field fits
      its width; the length that is written is the payload's, whatever the header says. */
  lemma EncodesIff(h: Header, payload: bytes)
    ensures EncodeFrame(h, payload).Frame? <==>
              |payload| <= 256 && 0 <= h.magic < 0x100 && 0 <= h.versionMajor < 0x100 && 0 <= h.versionMinor < 0x100
              && 0 <= h.msgType < 0x100 && 0 <= h.msgId < 0x100 && 0 <= h.flags < 0x100
              && 0 <= h.seqNo < 0x1_0000 && 0 <= h.timestampMs < 0x1_0000_0000
    ensures EncodeFrame(h, payload) == PayloadTooLong <==> |payload| > 256
  {
    var f, v := HEADER_FORMAT, Fields(h.(payloadLen := |payload|));
    assert f[0] == U8 && f[1] == U8 && f[2] == U8 && f[3] == U8 && f[4] == U8 && f[5] == U8;
    assert f[6] == U16 && f[7] == U32 && f[8] == U16 && |f| == |v| == 9;
    if AllFit(f, v) {
      assert Fits(f[0], v[0]) && Fits(f[1], v[1]) && Fits(f[2], v[2]) && Fits(f[3], v[3]) && Fits(f[4], v[4]);
      assert Fits(f[5], v[5]) && Fits(f[6], v[6]) && Fits(f[7], v[7]);
    }
  }

  /** The header object that `encode_frame` is handed. */
  class HeaderCell {
    var header: Header

    constructor (h: Header)
      ensures header == h
    {
      header := h;
    }
  }

  /** `encode_frame`: the caller's header keeps the length that was written into it. */
  method EncodeFrameInto(cell: HeaderCell, payload: bytes) returns (r: Encoded)
    modifies cell
    ensures r == EncodeFrame(old(cell.header), payload)
    ensures cell.header == if |payload| > MAX_PAYLOAD then old(cell.header)
                           else old(cell.header).(payloadLen := |payload|)
  {
    if |payload| > MAX_PAYLOAD {
      return PayloadTooLong;
    }
    cell.header := cell.header.(payloadLen := |payload|);
    if !HeaderFits(cell.header) {
      return FieldOutOfRange;
    }
    var body := PackHeader(cell.header) + payload;
    InitIsAllOnes();
    var crc := ComputeCrc16(body, 0xFFFF);
    body := body + LeBytes(crc, CRC_LEN);
    var stuffed := Cobs.CobsEncode(body);
    return Frame([0] + stuffed + [0]);
  }
}
