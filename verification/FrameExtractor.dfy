/**
  Reassembly of delimited frames from an arbitrary byte stream, and the end-to-end
  guarantee of the link layer.
  */
module Extractor {
  import opened Struct
  import opened Framing
  import Cobs

  datatype State = State(buf: bytes, discarding: bool)

  const IDLE := State([], false)

  datatype Outcome = Outcome(state: State, frames: seq<bytes>)

  /** What one byte does. */
  function StepByte(s: State, max: nat, b: byte): Outcome {
    if b == 0 then
      if s.discarding || s.buf == [] then Outcome(IDLE, [])
      else Outcome(IDLE, [[0] + s.buf + [0]])
    else if s.discarding then Outcome(s, [])
    else
      var buf := s.buf + [b];
      if |buf| > max then Outcome(State([], true), []) else Outcome(State(buf, false), [])
  }

  /** What a run of bytes does: the state it leaves and the frames it emits, in order. */
  function Run(s: State, max: nat, data: bytes): Outcome
    decreases data
  {
    if data == [] then Outcome(s, [])
    else
      var first := StepByte(s, max, data[0]);
      var rest := Run(first.state, max, data[1..]);
      Outcome(rest.state, first.frames + rest.frames)
  }

  ghost predicate Bounded(s: State, max: nat) {
    |s.buf| <= max && (s.discarding ==> s.buf == []) && 0 !in s.buf
  }

  /** The retained buffer never exceeds `max_frame` and never holds a delimiter. */
  lemma {:induction false} RunBounded(s: State, max: nat, data: bytes)
    requires Bounded(s, max)
    ensures Bounded(Run(s, max, data).state, max)
    decreases data
  {
    if data != [] {
      RunBounded(StepByte(s, max, data[0]).state, max, data[1..]);
    }
  }

  /** Feeding in two pieces is feeding the whole. */
  lemma {:induction false} RunConcat(s: State, max: nat, a: bytes, b: bytes)
    ensures var first := Run(s, max, a);
            var second := Run(first.state, max, b);
            Run(s, max, a + b) == Outcome(second.state, first.frames + second.frames)
    decreases a
  {
    if a == [] {
      assert a + b == b;
    } else {
      assert (a + b)[1..] == a[1..] + b;
      RunConcat(StepByte(s, max, a[0]).state, max, a[1..], b);
    }
  }

  /** Every emitted frame is delimited at both ends and nowhere else, holds something, and fits
      the buffer. */
  predicate WellDelimited(frame: bytes, max: nat) {
    3 <= |frame| <= max + 2 && frame[0] == 0 && frame[|frame| - 1] == 0 && 0 !in Inner(frame)
  }

  lemma {:induction false} EmittedFrames(s: State, max: nat, data: bytes)
    requires Bounded(s, max)
    ensures forall f :: f in Run(s, max, data).frames ==> WellDelimited(f, max)
    decreases data
  {
    if data != [] {
      EmittedFrames(StepByte(s, max, data[0]).state, max, data[1..]);
      assert Inner([0] + s.buf + [0]) == s.buf;
    }
  }

  function Flatten(chunks: seq<bytes>): bytes {
    if chunks == [] then [] else chunks[0] + Flatten(chunks[1..])
  }

  function RunChunks(s: State, max: nat, chunks: seq<bytes>): Outcome
    decreases chunks
  {
    if chunks == [] then Outcome(s, [])
    else
      var first := Run(s, max, chunks[0]);
      var rest := RunChunks(first.state, max, chunks[1..]);
      Outcome(rest.state, first.frames + rest.frames)
  }

  /** How the stream is cut into reads does not matter. */
  lemma {:induction false} ChunkingIrrelevant(s: State, max: nat, chunks: seq<bytes>)
    ensures RunChunks(s, max, chunks) == Run(s, max, Flatten(chunks))
    decreases chunks
  {
    if chunks != [] {
      ChunkingIrrelevant(Run(s, max, chunks[0]).state, max, chunks[1..]);
      RunConcat(s, max, chunks[0], Flatten(chunks[1..]));
    }
  }

  lemma Insert(buf: bytes, data: bytes)
    requires data != []
    ensures buf + [data[0]] + data[1..] == buf + data
  {
  }

  lemma {:induction false} RunNonzero(buf: bytes, max: nat, data: bytes)
    requires (forall i :: 0 <= i < |data| ==> data[i] != 0) && |buf| + |data| <= max
    ensures Run(State(buf, false), max, data) == Outcome(State(buf + data, false), [])
    decreases data
  {
    if data == [] {
      assert buf + data == buf;
    } else {
      var grown := State(buf + [data[0]], false);
      assert StepByte(State(buf, false), max, data[0]) == Outcome(grown, []);
      RunNonzero(buf + [data[0]], max, data[1..]);
      Insert(buf, data);
    }
  }

  /** A delimited frame always comes out whole, after whatever the opening delimiter flushes. */
  lemma RunFrame(s: State, max: nat, stuffed: bytes)
    requires 0 !in stuffed && stuffed != [] && |stuffed| <= max
    ensures Run(s, max, [0] + stuffed + [0])
         == Outcome(IDLE, Run(s, max, [0]).frames + [[0] + stuffed + [0]])
  {
    RunConcat(s, max, [0] + stuffed, [0]);
    RunConcat(s, max, [0], stuffed);
    RunNonzero([], max, stuffed);
    assert [] + stuffed == stuffed;
    var flushed := Run(s, max, [0]).frames;
    assert flushed + [] == flushed;
  }

  // ---------- The frames of any stream ----------

  lemma {:induction false} RunDiscarding(max: nat, data: bytes)
    requires forall i :: 0 <= i < |data| ==> data[i] != 0
    ensures Run(State([], true), max, data) == Outcome(State([], true), [])
  {
    if data != [] {
      RunDiscarding(max, data[1..]);
    }
  }

  /** The runs of a stream, each with the delimiter that ends it. */
  function Lines(runs: seq<bytes>): bytes {
    if runs == [] then [] else runs[0] + [0] + Lines(runs[1..])
  }

  /** The runs that are frames: those that hold something and are not too long. */
  function Kept(runs: seq<bytes>, max: nat): seq<bytes> {
    if runs == [] then []
    else (if 0 < |runs[0]| <= max then [[0] + runs[0] + [0]] else []) + Kept(runs[1..], max)
  }

  /** A run that is too long is given up at the first byte that does not fit. */
  lemma RunTooLong(max: nat, run: bytes)
    requires (forall i :: 0 <= i < |run| ==> run[i] != 0) && |run| > max
    ensures Run(IDLE, max, run) == Outcome(State([], true), [])
  {
    var a, b, c := run[..max], run[max], run[max + 1..];
    assert run == a + ([b] + c);
    RunNonzero([], max, a);
    assert [] + a == a;
    assert ([b] + c)[1..] == c;
    RunDiscarding(max, c);
    RunConcat(IDLE, max, a, [b] + c);
  }

  lemma RunLine(max: nat, run: bytes)
    requires forall i :: 0 <= i < |run| ==> run[i] != 0
    ensures Run(IDLE, max, run + [0]) == Outcome(IDLE, if 0 < |run| <= max then [[0] + run + [0]] else [])
  {
    RunConcat(IDLE, max, run, [0]);
    if |run| <= max {
      RunNonzero([], max, run);
      assert [] + run == run;
    } else {
      RunTooLong(max, run);
    }
  }

  /** From the start, the frames of a stream are exactly its runs between delimiters, without the
      empty ones and without those that are too long, in order. */
  lemma {:induction false} FramesAreRuns(max: nat, runs: seq<bytes>)
    requires forall k :: 0 <= k < |runs| ==> 0 !in runs[k]
    ensures Run(IDLE, max, Lines(runs)) == Outcome(IDLE, Kept(runs, max))
  {
    if runs != [] {
      FramesAreRuns(max, runs[1..]);
      RunLine(max, runs[0]);
      RunConcat(IDLE, max, runs[0] + [0], Lines(runs[1..]));
    }
  }

  // ---------- End to end ----------

  /** What a receiver makes of an emitted frame: no message or one. */
  type Decoder = bytes -> seq<Received>

  function DecodeAll(dec: Decoder, frames: seq<bytes>): seq<Received> {
    if frames == [] then [] else dec(frames[0]) + DecodeAll(dec, frames[1..])
  }

  lemma {:induction false} DecodeAllConcat(dec: Decoder, a: seq<bytes>, b: seq<bytes>)
    ensures DecodeAll(dec, a + b) == DecodeAll(dec, a) + DecodeAll(dec, b)
    decreases a
  {
    if a == [] {
      assert a + b == b;
    } else {
      assert (a + b)[1..] == a[1..] + b;
      DecodeAllConcat(dec, a[1..], b);
    }
  }

  lemma DecodeAllSnoc(dec: Decoder, frames: seq<bytes>, frame: bytes)
    ensures DecodeAll(dec, frames + [frame]) == DecodeAll(dec, frames) + dec(frame)
  {
    DecodeAllConcat(dec, frames, [frame]);
    assert DecodeAll(dec, [frame]) == dec(frame) + [];
  }

  function Delimited(stuffed: bytes): bytes {
    [0] + stuffed + [0]
  }

  /** A stretch of noise, then a frame's stuffed bytes, and the message they stand for. */
  datatype Item = Item(noise: bytes, stuffed: bytes, message: Received)

  predicate Carries(dec: Decoder, it: Item) {
    0 !in it.stuffed && 0 < |it.stuffed| <= MAX_STUFFED && dec(Delimited(it.stuffed)) == [it.message]
  }

  /** The stream: each frame after its own stretch of noise, then a last stretch. */
  function Stream(items: seq<Item>, last: bytes): bytes {
    if items == [] then last
    else items[0].noise + Delimited(items[0].stuffed) + Stream(items[1..], last)
  }

  /** What happens to decode out of noise alone, once a delimiter closes it. */
  function Stray(dec: Decoder, s: State, max: nat, noise: bytes): seq<Received> {
    DecodeAll(dec, Run(s, max, noise + [0]).frames)
  }

  /** Every message, exactly, in order; between them only what the noise itself spells. */
  function Expected(dec: Decoder, s: State, max: nat, items: seq<Item>, last: bytes): seq<Received>
    decreases items
  {
    if items == [] then DecodeAll(dec, Run(s, max, last).frames)
    else Stray(dec, s, max, items[0].noise) + [items[0].message] + Expected(dec, IDLE, max, items[1..], last)
  }

  lemma RunNoisyFrame(s: State, max: nat, noise: bytes, stuffed: bytes)
    requires 0 !in stuffed && 0 < |stuffed| <= max
    ensures Run(s, max, noise + Delimited(stuffed))
         == Outcome(IDLE, Run(s, max, noise + [0]).frames + [Delimited(stuffed)])
  {
    var noisy := Run(s, max, noise);
    RunConcat(s, max, noise, Delimited(stuffed));
    RunConcat(s, max, noise, [0]);
    RunFrame(noisy.state, max, stuffed);
  }

  /** From any extractor state and through any noise, the receiver recovers every message
      that was sent, exactly and in order. */
  lemma {:induction false} EndToEnd(dec: Decoder, s: State, max: nat, items: seq<Item>, last: bytes)
    requires max >= MAX_STUFFED && forall it :: it in items ==> Carries(dec, it)
    ensures DecodeAll(dec, Run(s, max, Stream(items, last)).frames) == Expected(dec, s, max, items, last)
    decreases items
  {
    if items != [] {
      var it, rest := items[0], items[1..];
      assert it in items && Carries(dec, it);
      var first, noise := it.noise + Delimited(it.stuffed), Run(s, max, it.noise + [0]).frames;
      RunNoisyFrame(s, max, it.noise, it.stuffed);
      RunConcat(s, max, first, Stream(rest, last));
      EndToEnd(dec, IDLE, max, rest, last);
      DecodeAllConcat(dec, noise + [Delimited(it.stuffed)], Run(IDLE, max, Stream(rest, last)).frames);
      DecodeAllSnoc(dec, noise, Delimited(it.stuffed));
    }
  }

  function Originals(items: seq<Item>): seq<Received> {
    if items == [] then [] else [items[0].message] + Originals(items[1..])
  }

  /** The noise spells no frame of its own. */
  predicate Quiet(dec: Decoder, s: State, max: nat, items: seq<Item>, last: bytes)
    decreases items
  {
    if items == [] then DecodeAll(dec, Run(s, max, last).frames) == []
    else Stray(dec, s, max, items[0].noise) == [] && Quiet(dec, IDLE, max, items[1..], last)
  }

  lemma {:induction false} ExpectedWhenQuiet(dec: Decoder, s: State, max: nat, items: seq<Item>, last: bytes)
    ensures |Expected(dec, s, max, items, last)| >= |items| == |Originals(items)|
    ensures |Expected(dec, s, max, items, last)| == |items| <==> Quiet(dec, s, max, items, last)
    ensures Quiet(dec, s, max, items, last) ==> Expected(dec, s, max, items, last) == Originals(items)
    decreases items
  {
    if items != [] {
      ExpectedWhenQuiet(dec, IDLE, max, items[1..], last);
    }
  }

  /** However the stream is cut into reads, the receiver's output is the list of sent messages,
      no more and no less, exactly when the noise spells no valid frame. */
  lemma NothingButTheMessages(dec: Decoder, max: nat, items: seq<Item>, last: bytes, chunks: seq<bytes>)
    requires max >= MAX_STUFFED && (forall it :: it in items ==> Carries(dec, it))
    requires Flatten(chunks) == Stream(items, last)
    ensures DecodeAll(dec, RunChunks(IDLE, max, chunks).frames) == Originals(items)
            <==> Quiet(dec, IDLE, max, items, last)
  {
    ChunkingIrrelevant(IDLE, max, chunks);
    EndToEnd(dec, IDLE, max, items, last);
    ExpectedWhenQuiet(dec, IDLE, max, items, last);
  }

  /** The decoder the reader and the replay share: both delimiters, then the frame body. */
  function DecodeDelimited(frame: bytes): seq<Received> {
    if |frame| < 2 || frame[0] != 0 || frame[|frame| - 1] != 0 then []
    else
      var r := DecodeFrameBody(Inner(frame));
      if r.Message? then [r] else []
  }

  /** A frame gives a message exactly when it has both delimiters and what is between them is the
      stuffing of an accepted body; and never more than one. */
  lemma DelimitedDecodes(frame: bytes)
    ensures DecodeDelimited(frame) != [] <==>
              |frame| >= 2 && frame == [0] + frame[1..|frame| - 1] + [0]
              && var r := Cobs.Decode(frame[1..|frame| - 1]); r.Ok? && DecodeBody(r.value).Message?
    ensures DecodeDelimited(frame) != [] ==> DecodeDelimited(frame) == [DecodeBody(Cobs.Decode(frame[1..|frame| - 1]).value)]
  {
    if |frame| >= 2 && frame[0] == 0 && frame[|frame| - 1] == 0 {
      assert frame == [0] + frame[1..|frame| - 1] + [0];
    }
  }

  /** The item for a message sent after some noise. */
  function Sending(noise: bytes, h: Header, payload: bytes): Item
    requires EncodeFrame(h, payload).Frame?
  {
    FrameRoundTrip(h, payload);
    Item(noise, Inner(EncodeFrame(h, payload).wire), Message(h.(payloadLen := |payload|), payload))
  }

  /** Every frame that `encode_frame` produces under the protocol's magic byte is such an item,
      and its place in the stream is the frame as produced. */
  lemma SendingCarries(noise: bytes, h: Header, payload: bytes)
    requires EncodeFrame(h, payload).Frame? && h.magic == MAGIC
    ensures Carries(DecodeDelimited, Sending(noise, h, payload))
    ensures Delimited(Sending(noise, h, payload).stuffed) == EncodeFrame(h, payload).wire
  {
    FrameRoundTrip(h, payload);
  }

  /** A message to send, and the noise before it. */
  datatype Letter = Letter(noise: bytes, header: Header, payload: bytes)

  predicate Sendable(x: Letter) {
    EncodeFrame(x.header, x.payload).Frame? && x.header.magic == MAGIC
  }

  predicate AllSendable(xs: seq<Letter>) {
    forall i :: 0 <= i < |xs| ==> Sendable(xs[i])
  }

  function ItemsOf(xs: seq<Letter>): seq<Item>
    requires AllSendable(xs)
  {
    if xs == [] then [] else [Sending(xs[0].noise, xs[0].header, xs[0].payload)] + ItemsOf(xs[1..])
  }

  /** The bytes on the wire: the frames `encode_frame` makes, each after its noise. */
  function WireOf(xs: seq<Letter>, last: bytes): bytes
    requires AllSendable(xs)
  {
    if xs == [] then last
    else xs[0].noise + EncodeFrame(xs[0].header, xs[0].payload).wire + WireOf(xs[1..], last)
  }

  /** The messages, with the payload length the encoder writes into the header. */
  function MessagesOf(xs: seq<Letter>): seq<Received> {
    if xs == [] then []
    else [Message(xs[0].header.(payloadLen := |xs[0].payload|), xs[0].payload)] + MessagesOf(xs[1..])
  }

  lemma {:induction false} LettersAreItems(xs: seq<Letter>, last: bytes)
    requires AllSendable(xs)
    ensures Stream(ItemsOf(xs), last) == WireOf(xs, last) && Originals(ItemsOf(xs)) == MessagesOf(xs)
    ensures forall it :: it in ItemsOf(xs) ==> Carries(DecodeDelimited, it)
  {
    if xs != [] {
      assert xs[0] in xs;
      SendingCarries(xs[0].noise, xs[0].header, xs[0].payload);
      LettersAreItems(xs[1..], last);
      ConsItem(Sending(xs[0].noise, xs[0].header, xs[0].payload), ItemsOf(xs[1..]), last);
    }
  }

  lemma ConsItem(it: Item, items: seq<Item>, last: bytes)
    ensures Stream([it] + items, last) == it.noise + Delimited(it.stuffed) + Stream(items, last)
    ensures Originals([it] + items) == [it.message] + Originals(items)
  {
    assert ([it] + items)[1..] == items;
  }

  /** The law for the program's own encoder and decoder: messages framed by `encode_frame`, with
      noise between them and cut into reads in any way, come out exactly, in order and nothing
      else, if and only if the noise spells no valid frame. */
  lemma SentMessagesArrive(max: nat, xs: seq<Letter>, last: bytes, chunks: seq<bytes>)
    requires max >= MAX_STUFFED && AllSendable(xs) && Flatten(chunks) == WireOf(xs, last)
    ensures DecodeAll(DecodeDelimited, RunChunks(IDLE, max, chunks).frames) == MessagesOf(xs)
            <==> Quiet(DecodeDelimited, IDLE, max, ItemsOf(xs), last)
  {
    LettersAreItems(xs, last);
    NothingButTheMessages(DecodeDelimited, max, ItemsOf(xs), last, chunks);
  }

  // ---------- A reader that stops part way ----------

  /** A caller that takes a frame and leaves loses the rest of its chunk. Later reads are the
      same as if the rest had been read, whatever comes later, exactly when the rest is only
      delimiters and discarded runs that end in one: it emits nothing and leaves no state. (An
      extractor with room for no byte at all emits nothing anyway.) */
  lemma RestIsLostUnless(max: nat, rest: bytes)
    ensures (forall more: bytes :: Run(IDLE, max, rest + more).frames == Run(IDLE, max, more).frames)
            <==> max == 0 || Run(IDLE, max, rest) == Outcome(IDLE, [])
  {
    if max == 0 {
      forall more: bytes ensures Run(IDLE, max, rest + more).frames == Run(IDLE, max, more).frames {
        NoRoomNoFrames(IDLE, rest + more);
        NoRoomNoFrames(IDLE, more);
      }
    } else if Run(IDLE, max, rest) == Outcome(IDLE, []) {
      forall more: bytes ensures Run(IDLE, max, rest + more).frames == Run(IDLE, max, more).frames {
        RunConcat(IDLE, max, rest, more);
      }
    } else {
      var more := Telling(max, rest);
      assert Run(IDLE, max, rest + more).frames != Run(IDLE, max, more).frames;
    }
  }

  lemma {:induction false} NoRoomNoFrames(s: State, data: bytes)
    requires s.buf == []
    ensures Run(s, 0, data).frames == []
    decreases data
  {
    if data != [] {
      NoRoomNoFrames(StepByte(s, 0, data[0]).state, data[1..]);
    }
  }

  /** What comes later that tells whether the rest was read. */
  lemma Telling(max: nat, rest: bytes) returns (more: bytes)
    requires max >= 1 && Run(IDLE, max, rest) != Outcome(IDLE, [])
    ensures Run(IDLE, max, rest + more).frames != Run(IDLE, max, more).frames
  {
    var o := Run(IDLE, max, rest);
    RunBounded(IDLE, max, rest);
    Witnesses(o.state, max);
    more := if o.frames != [] then [] else if o.state.buf != [] then [0] else [1, 0];
    RunConcat(IDLE, max, rest, more);
    assert o.frames == [] ==> o.frames + Run(o.state, max, more).frames == Run(o.state, max, more).frames;
  }

  /** One of two short continuations tells any other state from the idle one. */
  lemma Witnesses(s: State, max: nat)
    requires Bounded(s, max) && max >= 1
    ensures Run(s, max, []).frames == []
    ensures Run(IDLE, max, [0]).frames == [] && |Run(IDLE, max, [1, 0]).frames| == 1
    ensures s.buf != [] ==> |Run(s, max, [0]).frames| == 1
    ensures s.discarding ==> Run(s, max, [1, 0]).frames == []
  {
    OneByte(s, max, 0);
    OneByte(IDLE, max, 0);
    TwoBytes(s, max);
    TwoBytes(IDLE, max);
  }

  lemma OneByte(s: State, max: nat, b: byte)
    ensures Run(s, max, [b]) == StepByte(s, max, b)
  {
    var first := StepByte(s, max, b);
    assert [b][1..] == [];
    assert Run(first.state, max, []) == Outcome(first.state, []);
    assert first.frames + [] == first.frames;
  }

  lemma TwoBytes(s: State, max: nat)
    ensures var a := StepByte(s, max, 1);
            Run(s, max, [1, 0]).frames == a.frames + StepByte(a.state, max, 0).frames
  {
    assert [1 as byte, 0][1..] == [0 as byte];
    OneByte(StepByte(s, max, 1).state, max, 0);
  }

  // ---------- The object ----------

  class FrameExtractor {
    var buf: bytes
    var discarding: bool
    const maxFrame: nat

    ghost predicate Valid()
      reads this
    {
      Bounded(Abstract(), maxFrame)
    }

    ghost function Abstract(): State
      reads this
    {
      State(buf, discarding)
    }

    constructor (maxFrame: nat := 4096)
      ensures Valid() && Abstract() == IDLE && this.maxFrame == maxFrame
    {
      this.maxFrame := maxFrame;
      buf, discarding := [], false;
    }

    /** Consume bytes one at a time and collect the frames that complete. */
    method Push(data: bytes) returns (frames: seq<bytes>)
      requires Valid()
      modifies this
      ensures Valid()
      ensures Abstract() == Run(old(Abstract()), maxFrame, data).state
      ensures frames == Run(old(Abstract()), maxFrame, data).frames
    {
      frames := [];
      ghost var start := Abstract();
      for i := 0 to |data|
        invariant Valid()
        invariant Run(start, maxFrame, data[..i]) == Outcome(Abstract(), frames)
      {
        RunSnoc(start, maxFrame, data, i);
        if data[i] == 0 {
          if discarding {
            discarding := false;
            buf := [];
          } else if buf != [] {
            var frame := [0] + buf + [0];
            buf := [];
            frames := frames + [frame];
          }
        } else if !discarding {
          buf := buf + [data[i]];
          if |buf| > maxFrame {
            buf := [];
            discarding := true;
          }
        }
      }
      assert data[..|data|] == data;
    }

    /** The generator as a caller sees it who takes at most `wanted` frames and then leaves, as
        an inline request does: `read` bytes of the chunk were consumed, no further frame is in
        them, the object is idle at that point, and the rest of the chunk is never read. */
    method PushUntil(data: bytes, wanted: nat) returns (frames: seq<bytes>, read: nat)
      requires Valid() && wanted > 0
      modifies this
      ensures Valid() && read <= |data|
      ensures Outcome(Abstract(), frames) == Run(old(Abstract()), maxFrame, data[..read])
      ensures |frames| < wanted ==> read == |data|
      ensures |frames| >= wanted ==> |frames| == wanted && Abstract() == IDLE && read > 0 && data[read - 1] == 0
    {
      frames, read := [], 0;
      ghost var start := Abstract();
      while read < |data| && |frames| < wanted
        invariant Valid() && read <= |data| && |frames| <= wanted
        invariant Run(start, maxFrame, data[..read]) == Outcome(Abstract(), frames)
        invariant |frames| == wanted ==> Abstract() == IDLE && read > 0 && data[read - 1] == 0
      {
        RunSnoc(start, maxFrame, data, read);
        if data[read] == 0 {
          if discarding {
            discarding := false;
            buf := [];
          } else if buf != [] {
            var frame := [0] + buf + [0];
            buf := [];
            frames := frames + [frame];
          }
        } else if !discarding {
          buf := buf + [data[read]];
          if |buf| > maxFrame {
            buf := [];
            discarding := true;
          }
        }
        read := read + 1;
      }
      assert data[..|data|] == data;
    }

    method Reset()
      modifies this
      ensures Valid() && Abstract() == IDLE
    {
      buf, discarding := [], false;
    }
  }

  lemma RunSnoc(s: State, max: nat, data: bytes, i: nat)
    requires i < |data|
    ensures var before := Run(s, max, data[..i]);
            var last := StepByte(before.state, max, data[i]);
            Run(s, max, data[..i + 1]) == Outcome(last.state, before.frames + last.frames)
  {
    assert data[..i + 1] == data[..i] + [data[i]];
    RunConcat(s, max, data[..i], [data[i]]);
    var last := StepByte(Run(s, max, data[..i]).state, max, data[i]);
    assert Run(Run(s, max, data[..i]).state, max, [data[i]]) == Outcome(last.state, last.frames + []);
    assert last.frames + [] == last.frames;
  }
}
