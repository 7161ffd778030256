/**
  The session recorder and its replay: every delimited frame the live reader sees is
  appended to a length-prefixed log, and the log is decoded by the same frame decoder.
  */
module Session {
  import opened Struct
  import opened Framing
  import opened Extractor
  import O = Offsets

  const PREFIX_FORMAT: Format := [U64, U16]
  const PREFIX_LEN := 10

  datatype Entry = Entry(hostNs: int, frame: bytes)

  /** The prefix packs: a 64-bit time and a 16-bit length. */
  predicate Loggable(e: Entry) {
    0 <= e.hostNs < 0x1_0000_0000_0000_0000 && |e.frame| < 0x1_0000
  }

  lemma PrefixSize()
    ensures Size(PREFIX_FORMAT) == PREFIX_LEN
  {
  }

  lemma LoggableFits(e: Entry)
    ensures Loggable(e) <==> AllFit(PREFIX_FORMAT, [e.hostNs, |e.frame|])
  {
    var v := [e.hostNs, |e.frame|];
    assert AllFit(PREFIX_FORMAT, v) ==> Fits(PREFIX_FORMAT[0], v[0]) && Fits(PREFIX_FORMAT[1], v[1]);
  }

  function Prefix(e: Entry): (b: bytes)
    requires Loggable(e)
    ensures |b| == PREFIX_LEN
  {
    PrefixSize();
    LoggableFits(e);
    PackFits(PREFIX_FORMAT, [e.hostNs, |e.frame|])
  }

  function EntryBytes(e: Entry): bytes
    requires Loggable(e)
  {
    Prefix(e) + e.frame
  }

  function LogBytes(es: seq<Entry>): bytes
    requires forall e :: e in es ==> Loggable(e)
  {
    if es == [] then [] else EntryBytes(es[0]) + LogBytes(es[1..])
  }

  /** An entry is eight bytes of host time, two of frame length, lowest first, and the frame. */
  lemma EntryLayout(e: Entry, rest: bytes)
    requires Loggable(e)
    ensures var b := EntryBytes(e) + rest;
            |b| >= 10 + |e.frame| && O.U64At(b, 0) == e.hostNs && O.U16At(b, 8) == |e.frame|
            && b[10..10 + |e.frame|] == e.frame
  {
    PrefixSize();
    LoggableFits(e);
    var f, v := PREFIX_FORMAT, [e.hostNs, |e.frame|];
    assert EntryBytes(e) + rest == PackFits(f, v) + (e.frame + rest);
    O.Starts(f);
    assert f[0] == U64 && f[1] == U16 && O.Start(f, 0) == 0 && O.Start(f, 1) == 8;
    O.PackedAt(f, v, e.frame + rest, 0);
    O.PackedAt(f, v, e.frame + rest, 1);
  }

  /** The prefix as numbers: host time and frame length. */
  function ReadPrefix(data: bytes): (v: seq<int>)
    requires |data| >= PREFIX_LEN
    ensures |v| == 2 && v[1] >= 0
  {
    PrefixSize();
    PackOfUnpack(PREFIX_FORMAT, data[..PREFIX_LEN]);
    var v := Unpack(PREFIX_FORMAT, data[..PREFIX_LEN]);
    assert Fits(PREFIX_FORMAT[1], v[1]);
    v
  }

  /** Read entries until the file ends or ends inside one. */
  function ReadLog(data: bytes): seq<Entry>
    decreases |data|
  {
    if |data| < PREFIX_LEN then []
    else
      var v := ReadPrefix(data);
      var end := PREFIX_LEN + v[1];
      if |data| < end then [] else [Entry(v[0], data[PREFIX_LEN..end])] + ReadLog(data[end..])
  }

  lemma ReadPrefixOf(e: Entry, rest: bytes)
    requires Loggable(e)
    ensures ReadPrefix(Prefix(e) + rest) == [e.hostNs, |e.frame|]
  {
    LoggableFits(e);
    UnpackOfPack(PREFIX_FORMAT, [e.hostNs, |e.frame|]);
    assert (Prefix(e) + rest)[..PREFIX_LEN] == Prefix(e);
  }

  lemma ReadWhole(e: Entry, rest: bytes)
    requires Loggable(e)
    ensures ReadLog(EntryBytes(e) + rest) == [e] + ReadLog(rest)
  {
    var data := EntryBytes(e) + rest;
    assert data == Prefix(e) + (e.frame + rest);
    ReadPrefixOf(e, e.frame + rest);
    var end := PREFIX_LEN + |e.frame|;
    assert data[PREFIX_LEN..end] == e.frame && data[end..] == rest;
  }

  lemma ReadTorn(e: Entry, k: nat)
    requires Loggable(e) && k < |EntryBytes(e)|
    ensures ReadLog(EntryBytes(e)[..k]) == []
  {
    if k >= PREFIX_LEN {
      assert EntryBytes(e)[..k] == Prefix(e) + e.frame[..k - PREFIX_LEN];
      ReadPrefixOf(e, e.frame[..k - PREFIX_LEN]);
    }
  }

  /** How many entries lie wholly within the first `k` bytes of the log. */
  function Complete(es: seq<Entry>, k: nat): (n: nat)
    requires forall e :: e in es ==> Loggable(e)
    ensures n <= |es|
  {
    if es == [] || k < |EntryBytes(es[0])| then 0
    else 1 + Complete(es[1..], k - |EntryBytes(es[0])|)
  }

  lemma TakeOfConcat(a: bytes, b: bytes, k: nat)
    requires k <= |a| + |b|
    ensures (a + b)[..k] == if k < |a| then a[..k] else a + b[..k - |a|]
  {
  }

  /** A log cut anywhere reads back as exactly the entries that were complete. */
  lemma {:induction false} ReadTruncated(es: seq<Entry>, k: nat)
    requires (forall e :: e in es ==> Loggable(e)) && k <= |LogBytes(es)|
    ensures ReadLog(LogBytes(es)[..k]) == es[..Complete(es, k)]
    decreases es
  {
    if es != [] {
      var e, rest := es[0], LogBytes(es[1..]);
      var n := |EntryBytes(e)|;
      TakeOfConcat(EntryBytes(e), rest, k);
      if k < n {
        ReadTorn(e, k);
      } else {
        ReadWhole(e, rest[..k - n]);
        ReadTruncated(es[1..], k - n);
        assert es == [e] + es[1..];
      }
    }
  }

  lemma {:induction false} CompleteWhole(es: seq<Entry>)
    requires forall e :: e in es ==> Loggable(e)
    ensures Complete(es, |LogBytes(es)|) == |es|
  {
    if es != [] {
      CompleteWhole(es[1..]);
    }
  }

  /** The whole log reads back whole. */
  lemma ReadLogOf(es: seq<Entry>)
    requires forall e :: e in es ==> Loggable(e)
    ensures ReadLog(LogBytes(es)) == es
  {
    CompleteWhole(es);
    ReadTruncated(es, |LogBytes(es)|);
    assert LogBytes(es)[..|LogBytes(es)|] == LogBytes(es);
  }

  // ---------- Replay ----------

  datatype Replayed = Replayed(hostNs: int, message: Received)

  function Stamp(hostNs: int, ms: seq<Received>): seq<Replayed> {
    if ms == [] then [] else [Replayed(hostNs, ms[0])] + Stamp(hostNs, ms[1..])
  }

  /** The recorded frames through the decoder; frames that do not decode are skipped. */
  function Replay(dec: Decoder, es: seq<Entry>): seq<Replayed> {
    if es == [] then [] else Stamp(es[0].hostNs, dec(es[0].frame)) + Replay(dec, es[1..])
  }

  function Messages(rs: seq<Replayed>): seq<Received> {
    if rs == [] then [] else [rs[0].message] + Messages(rs[1..])
  }

  function Frames(es: seq<Entry>): seq<bytes> {
    if es == [] then [] else [es[0].frame] + Frames(es[1..])
  }

  lemma {:induction false} MessagesConcat(a: seq<Replayed>, b: seq<Replayed>)
    ensures Messages(a + b) == Messages(a) + Messages(b)
  {
    if a == [] {
      assert a + b == b;
    } else {
      assert (a + b)[1..] == a[1..] + b;
      MessagesConcat(a[1..], b);
    }
  }

  lemma {:induction false} MessagesOfStamp(hostNs: int, ms: seq<Received>)
    ensures Messages(Stamp(hostNs, ms)) == ms
  {
    if ms != [] {
      MessagesOfStamp(hostNs, ms[1..]);
      assert Stamp(hostNs, ms)[1..] == Stamp(hostNs, ms[1..]);
    }
  }

  lemma {:induction false} ReplayDelivers(dec: Decoder, es: seq<Entry>)
    ensures Messages(Replay(dec, es)) == DecodeAll(dec, Frames(es))
    decreases es
  {
    if es != [] {
      ReplayDelivers(dec, es[1..]);
      MessagesOfStamp(es[0].hostNs, dec(es[0].frame));
      MessagesConcat(Stamp(es[0].hostNs, dec(es[0].frame)), Replay(dec, es[1..]));
      assert Frames(es)[1..] == Frames(es[1..]);
    }
  }

  lemma {:induction false} FramesConcat(a: seq<Entry>, b: seq<Entry>)
    ensures Frames(a + b) == Frames(a) + Frames(b)
  {
    if a == [] {
      assert a + b == b;
    } else {
      assert (a + b)[1..] == a[1..] + b;
      FramesConcat(a[1..], b);
    }
  }

  /** Replaying a recorded session delivers exactly what the live reader delivered. */
  lemma ReplayFaithful(dec: Decoder, es: seq<Entry>)
    requires forall e :: e in es ==> Loggable(e)
    ensures Messages(Replay(dec, ReadLog(LogBytes(es)))) == DecodeAll(dec, Frames(es))
  {
    ReadLogOf(es);
    ReplayDelivers(dec, es);
  }

  lemma {:induction false} StampAt(hostNs: int, ms: seq<Received>, i: nat)
    requires i < |ms|
    ensures |Stamp(hostNs, ms)| == |ms| && Stamp(hostNs, ms)[i] == Replayed(hostNs, ms[i])
  {
    if i > 0 {
      StampAt(hostNs, ms[1..], i - 1);
    } else if |ms| > 1 {
      StampAt(hostNs, ms[1..], 0);
    }
  }

  lemma {:induction false} StampLength(hostNs: int, ms: seq<Received>)
    ensures |Stamp(hostNs, ms)| == |ms|
  {
    if ms != [] {
      StampAt(hostNs, ms, 0);
    }
  }

  /** Every message of every entry is replayed, in its place, with the time of that entry. */
  lemma {:induction false} ReplayAt(dec: Decoder, es: seq<Entry>, k: nat, i: nat)
    requires k < |es| && i < |dec(es[k].frame)|
    ensures var place := |DecodeAll(dec, Frames(es[..k]))| + i;
            place < |Replay(dec, es)| && Replay(dec, es)[place] == Replayed(es[k].hostNs, dec(es[k].frame)[i])
    decreases es
  {
    var e := es[0];
    StampLength(e.hostNs, dec(e.frame));
    if k == 0 {
      StampAt(e.hostNs, dec(e.frame), i);
    } else {
      ReplayAt(dec, es[1..], k - 1, i);
      assert es[1..][..k - 1] == es[..k][1..];
      assert Frames(es[..k])[1..] == Frames(es[..k][1..]);
    }
  }

  lemma PrefixDelivers(dec: Decoder, es: seq<Entry>, n: nat)
    requires n <= |es|
    ensures DecodeAll(dec, Frames(es[..n])) <= DecodeAll(dec, Frames(es))
  {
    assert es == es[..n] + es[n..];
    FramesConcat(es[..n], es[n..]);
    DecodeAllConcat(dec, Frames(es[..n]), Frames(es[n..]));
  }

  /** A log cut at any byte replays as a prefix of that: the messages of its complete entries. */
  lemma TruncatedReplay(dec: Decoder, es: seq<Entry>, k: nat)
    requires (forall e :: e in es ==> Loggable(e)) && k <= |LogBytes(es)|
    ensures Messages(Replay(dec, ReadLog(LogBytes(es)[..k])))
         == DecodeAll(dec, Frames(es[..Complete(es, k)])) <= DecodeAll(dec, Frames(es))
  {
    ReadTruncated(es, k);
    ReplayDelivers(dec, es[..Complete(es, k)]);
    PrefixDelivers(dec, es, Complete(es, k));
  }

  // ---------- The live side ----------

  lemma {:induction false} LogBytesSnoc(es: seq<Entry>, e: Entry)
    requires (forall x :: x in es ==> Loggable(x)) && Loggable(e)
    ensures LogBytes(es + [e]) == LogBytes(es) + EntryBytes(e)
  {
    if es == [] {
      assert es + [e] == [e];
      assert LogBytes([e]) == EntryBytes(e) + [];
    } else {
      assert (es + [e])[1..] == es[1..] + [e];
      LogBytesSnoc(es[1..], e);
    }
  }

  lemma FramesSnoc(es: seq<Entry>, e: Entry)
    ensures Frames(es + [e]) == Frames(es) + [e.frame]
  {
    FramesConcat(es, [e]);
    assert Frames([e]) == [e.frame] + [];
  }

  /** The reader thread's bookkeeping with a session recorder attached from the start. */
  class LiveReader {
    const dec: Decoder
    var raw: bytes
    var frameCount: nat
    var rxFrames: nat
    var decodeErrors: nat
    var delivered: seq<Received>
    ghost var entries: seq<Entry>

    /** The log holds every frame seen, and what was delivered is what those frames decode to. */
    ghost predicate Valid()
      reads this
    {
      (forall e :: e in entries ==> Loggable(e))
      && raw == LogBytes(entries) && frameCount == |entries| == rxFrames + decodeErrors
      && delivered == DecodeAll(dec, Frames(entries))
    }

    constructor (dec: Decoder)
      ensures Valid() && entries == [] && this.dec == dec
    {
      this.dec := dec;
      raw, frameCount, rxFrames, decodeErrors, delivered := [], 0, 0, 0, [];
      entries := [];
    }

    /** One frame: without both delimiters it is dropped unseen; otherwise it is logged, then
        decoded and counted. */
    method HandleFrame(frame: bytes, now: int)
      requires Valid() && Loggable(Entry(now, frame))
      modifies this
      ensures Valid()
      ensures entries == if IsDelimited(frame) then old(entries) + [Entry(now, frame)] else old(entries)
      ensures rxFrames == old(rxFrames) + if IsDelimited(frame) && dec(frame) != [] then 1 else 0
    {
      if |frame| < 2 || frame[0] != 0 || frame[|frame| - 1] != 0 {
        return;
      }
      var e := Entry(now, frame);
      LogBytesSnoc(entries, e);
      FramesSnoc(entries, e);
      DecodeAllSnoc(dec, Frames(entries), frame);
      raw := raw + Prefix(e) + frame;
      frameCount := frameCount + 1;
      entries := entries + [e];
      var decoded := dec(frame);
      if decoded == [] {
        decodeErrors := decodeErrors + 1;
      } else {
        rxFrames := rxFrames + 1;
      }
      delivered := delivered + decoded;
    }

    /** One turn of the read loop: extract the chunk's frames and handle each in order. The
        clock is read once for every frame. */
    method ReadChunk(ex: FrameExtractor, chunk: bytes, clock: nat -> int)
      requires Valid() && ex.Valid() && ex.maxFrame <= 0xFFFD
      requires forall i: nat :: 0 <= clock(i) < 0x1_0000_0000_0000_0000
      modifies this, ex
      ensures Valid() && ex.Valid()
      ensures ex.Abstract() == Run(old(ex.Abstract()), ex.maxFrame, chunk).state
      ensures entries == old(entries) + Stamped(Run(old(ex.Abstract()), ex.maxFrame, chunk).frames, clock)
    {
      EmittedFrames(ex.Abstract(), ex.maxFrame, chunk);
      var frames := ex.Push(chunk);
      HandleAll(frames, clock);
    }

    method HandleAll(frames: seq<bytes>, clock: nat -> int)
      requires Valid() && forall f :: f in frames ==> IsDelimited(f) && |f| <= 0xFFFF
      requires forall i: nat :: 0 <= clock(i) < 0x1_0000_0000_0000_0000
      modifies this
      ensures Valid() && entries == old(entries) + Stamped(frames, clock)
    {
      ghost var before := entries;
      for i := 0 to |frames|
        invariant Valid() && entries == before + Stamped(frames[..i], clock)
      {
        StampedSnoc(before, frames, i, clock);
        assert frames[i] in frames;
        HandleFrame(frames[i], clock(i));
      }
      assert frames[..|frames|] == frames;
    }
  }

  predicate IsDelimited(frame: bytes) {
    |frame| >= 2 && frame[0] == 0 && frame[|frame| - 1] == 0
  }

  /** The frames of a chunk, each with the time at which it was handled. */
  function Stamped(frames: seq<bytes>, clock: nat -> int): seq<Entry> {
    seq(|frames|, i requires 0 <= i < |frames| => Entry(clock(i), frames[i]))
  }

  lemma StampedSnoc(before: seq<Entry>, frames: seq<bytes>, i: nat, clock: nat -> int)
    requires i < |frames|
    ensures before + Stamped(frames[..i + 1], clock)
         == before + Stamped(frames[..i], clock) + [Entry(clock(i), frames[i])]
  {
    assert Stamped(frames[..i + 1], clock) == Stamped(frames[..i], clock) + [Entry(clock(i), frames[i])];
  }

  // ---------- The reading loops ----------

  /** `iter_raw_frames`: read a ten-byte prefix, then a frame, until either comes up short. */
  method IterRawFrames(data: bytes) returns (es: seq<Entry>)
    ensures es == ReadLog(data)
  {
    es := [];
    var pos := 0;
    assert data[0..] == data;
    while |data| - pos >= PREFIX_LEN
      invariant pos <= |data|
      invariant ReadLog(data) == es + ReadLog(data[pos..])
    {
      var v := ReadPrefix(data[pos..]);
      var start := pos + PREFIX_LEN;
      if |data| - start < v[1] {
        return;
      }
      var frame := data[start..start + v[1]];
      assert data[pos..][PREFIX_LEN..PREFIX_LEN + v[1]] == frame;
      assert data[pos..][PREFIX_LEN + v[1]..] == data[start + v[1]..];
      es := es + [Entry(v[0], frame)];
      pos := start + v[1];
    }
  }

  lemma Regroup(a: seq<Replayed>, b: seq<Replayed>, c: seq<Replayed>)
    ensures a + (b + c) == a + b + c
  {
  }

  method ReplayEntries(dec: Decoder, es: seq<Entry>) returns (rs: seq<Replayed>)
    ensures rs == Replay(dec, es)
  {
    rs := [];
    assert es[0..] == es;
    for i := 0 to |es|
      invariant Replay(dec, es) == rs + Replay(dec, es[i..])
    {
      var one := Stamp(es[i].hostNs, dec(es[i].frame));
      assert es[i..][0] == es[i] && es[i..][1..] == es[i + 1..];
      Regroup(rs, one, Replay(dec, es[i + 1..]));
      rs := rs + one;
    }
  }

  /** `iter_decoded_frames`: the raw entries through the frame decoder. */
  method IterDecodedFrames(dec: Decoder, data: bytes) returns (rs: seq<Replayed>)
    ensures rs == Replay(dec, ReadLog(data))
  {
    var es := IterRawFrames(data);
    rs := ReplayEntries(dec, es);
  }
}
