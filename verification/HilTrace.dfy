/** The trace assembler as the object callers hold, and the decoder over retained frames. */
module HilTrace {
  import opened Struct
  import opened Framing
  import opened Crc16
  import E = Extractor
  import F = HilFragments
  import opened A = HilAssembler
  import C = HilCapture

  class TraceAssembler {
    const reassembler: F.TraceReassembler
    const body: F.TraceRecord -> Body
    var begin: Maybe
    var config: Maybe
    var end: Maybe
    var nextRecordSeq: int
    var records: seq<Parsed>
    var steps: seq<Parsed>
    var markers: seq<Parsed>
    var outputBlocked: seq<Parsed>
    var fragmentsBeforeEnd: int
    ghost var counts: seq<int>

    ghost predicate Valid()
      reads this
    {
      (begin.Present? ==> begin.value.Begin?) && (config.Present? ==> config.value.Config?)
    }

    ghost function Up(): A.Setup {
      A.Setup(reassembler.up, F.DecodeFragment, body)
    }

    ghost function Abstract(): A.State
      reads this, reassembler
      requires Valid()
    {
      A.State(reassembler.Abstract(), begin, config, end, nextRecordSeq, records, steps, markers, outputBlocked,
              fragmentsBeforeEnd, counts)
    }

    constructor (session: int, body: F.TraceRecord -> Body)
      ensures Valid() && fresh(reassembler) && Abstract() == FRESH
      ensures Up() == A.Setup(F.Setup(session, Crc16Of), F.DecodeFragment, body)
    {
      reassembler := new F.TraceReassembler(session);
      this.body := body;
      begin, config, end, nextRecordSeq := Absent, Absent, Absent, 1;
      records, steps, markers, outputBlocked, fragmentsBeforeEnd, counts := [], [], [], [], 0, [];
    }

    /** The partial record in the reassembler survives. */
    method Reset()
      requires Valid()
      modifies this
      ensures Valid() && Abstract() == FRESH.(reassembly := old(Abstract()).reassembly)
    {
      begin, config, end, nextRecordSeq := Absent, Absent, Absent, 1;
      records, steps, markers, outputBlocked, fragmentsBeforeEnd, counts := [], [], [], [], 0, [];
    }

    /** `_accept_following_record`. */
    method AcceptFollowing(p: Parsed) returns (r: A.Result)
      requires Valid() && begin.Present?
      modifies this
      ensures Valid() && A.Outcome(Abstract(), r) == Following(old(Abstract()), p)
    {
      match p
      case Begin(_, _, _, _, _, _) =>
        return Raised(F.SecondBegin);
      case Config(revision, _, _, crc, _) =>
        if config.Present? || steps != [] { return Raised(F.ConfigTwice); }
        if revision != begin.value.configRevision { return Raised(F.ConfigRevision); }
        if crc != begin.value.configCrc16 { return Raised(F.ConfigCrc); }
        config := Present(p);
        return Nothing;
      case Step(n, revision, valid, persistent, _) =>
        if config.Absent? { return Raised(F.StepBeforeConfig); }
        if revision != config.value.revision || valid != config.value.valid || persistent != config.value.persistent {
          return Raised(F.StepConfig);
        }
        if n != |steps| + 1 { return Raised(F.StepGap); }
        if |steps| >= begin.value.requestedSteps { return Raised(F.TooManySteps); }
        steps := steps + [p];
        return Nothing;
      case Marker(n, _) =>
        if !(1 <= n <= |steps|) { return Raised(F.NoSuchStep); }
        markers := markers + [p];
        return Nothing;
      case Blocked(n, _) =>
        if !(1 <= n <= |steps|) { return Raised(F.NoSuchStep); }
        outputBlocked := outputBlocked + [p];
        return Nothing;
      case End(reason, requested, recorded, emitted, fragments, _) =>
        if config.Absent? { return Raised(F.EndBeforeConfig); }
        if requested != begin.value.requestedSteps || recorded != |steps| || emitted != |records|
           || fragments != fragmentsBeforeEnd || (reason == COMPLETE && recorded != requested) {
          return Raised(F.EndCounters);
        }
        end := Present(p);
        return Nothing;
    }

    /** `_accept_record`. */
    method TakeRecord(h: F.FragmentHeader, p: Parsed) returns (r: A.Result)
      requires Valid()
      modifies this
      ensures Valid() && A.Outcome(Abstract(), r) == AcceptRecord(Up(), old(Abstract()), h, p)
    {
      if h.recordSeq != nextRecordSeq { return Raised(F.SequenceGap); }
      nextRecordSeq := nextRecordSeq + 1;
      if begin.Absent? {
        r := TakeFirst(h, p);
      } else {
        if h.sessionId != begin.value.sessionId || h.captureId != begin.value.captureId {
          return Raised(F.OtherCapture);
        }
        r := TakeLater(h, p);
      }
    }

    /** Begin is stored before its session is looked at. */
    method TakeFirst(h: F.FragmentHeader, p: Parsed) returns (r: A.Result)
      requires Valid() && begin.Absent?
      modifies this
      ensures Valid()
      ensures !p.Begin? ==> Abstract() == old(Abstract()) && r == Raised(F.BeginNotFirst)
      ensures p.Begin? ==>
                var st, session := old(Abstract()).(begin := Present(p)), reassembler.up.session;
                if session != 0 && p.sessionId != session then Abstract() == st && r == Raised(F.BeginOtherSession)
                else Abstract() == Append(st, h, p) && r == Returned(p)
    {
      if !p.Begin? { return Raised(F.BeginNotFirst); }
      begin := Present(p);
      if reassembler.up.session != 0 && p.sessionId != reassembler.up.session {
        return Raised(F.BeginOtherSession);
      }
      KeepRecord(h, p);
      return Returned(p);
    }

    method TakeLater(h: F.FragmentHeader, p: Parsed) returns (r: A.Result)
      requires Valid() && begin.Present?
      modifies this
      ensures Valid()
      ensures var o := Following(old(Abstract()), p);
              A.Outcome(Abstract(), r) == if o.result.Raised? then o else A.Outcome(Append(o.state, h, p), Returned(p))
    {
      r := AcceptFollowing(p);
      if !r.Raised? {
        KeepRecord(h, p);
        r := Returned(p);
      }
    }

    method KeepRecord(h: F.FragmentHeader, p: Parsed)
      requires Valid()
      modifies this
      ensures Valid() && Abstract() == Append(old(Abstract()), h, p)
    {
      records := records + [p];
      counts := counts + [h.fragmentCount];
      if !p.End? {
        fragmentsBeforeEnd := fragmentsBeforeEnd + h.fragmentCount;
      }
    }

    /** One event, as `accept_event` takes it. */
    method TakeEvent(e: Event) returns (r: A.Result)
      requires Valid()
      modifies this, reassembler
      ensures Valid() && A.Outcome(Abstract(), r) == AcceptEvent(Up(), old(Abstract()), e)
    {
      if end.Present? { return Raised(F.AfterEnd); }
      if e.id != TRACE_FRAGMENT_EVENT && e.id != OUTPUT_BLOCKED_EVENT { return Raised(F.UnsupportedEvent); }
      var d := F.DecodeFragment(e.payload);
      if d.Malformed? { return Raised(d.error); }
      if !RightEvent(e.id, d.fragment.header.recordType) { return Raised(F.WrongEvent); }
      var got := reassembler.Accept(d.fragment);
      if got.Failed? { return Raised(got.error); }
      if got.More? { return Nothing; }
      var p := ParseRecord(A.Setup(reassembler.up, F.DecodeFragment, body), got.record);
      if p.Wrong? { return Raised(p.error); }
      r := TakeRecord(got.record.header, p.parsed);
    }

    method Finish() returns (r: Finalized)
      requires Valid()
      ensures r == Finalize(Abstract())
    {
      if begin.Absent? || config.Absent? || end.Absent? { return Refused(F.Incomplete); }
      return Whole(Trace(begin.value, config.value, steps, markers, outputBlocked, end.value, records));
    }
  }

  /** `accept_event` as a step function. */
  function Stepping(up: A.Setup): C.Stepper {
    (st: A.State, e: Event) => AcceptEvent(up, st, e)
  }

  lemma SteppingImplements(up: A.Setup)
    ensures C.Implements(Stepping(up), up)
  {
  }

  lemma {:induction false} HilEventsSnoc(dec: E.Decoder, frames: seq<bytes>, i: nat)
    requires i < |frames|
    ensures C.HilEvents(dec, frames[..i + 1]) == C.HilEvents(dec, frames[..i]) + C.EventIn(dec, frames[i])
  {
    assert frames[..i + 1][..i] == frames[..i];
  }

  /** Once an event raised, later ones no longer matter. */
  lemma {:induction false} HaltedStays(step: C.Stepper, a: C.Assembly, xs: seq<Event>, ys: seq<Event>)
    requires C.Assemble(step, a, xs).Halted?
    ensures C.Assemble(step, a, xs + ys) == C.Assemble(step, a, xs)
  {
    C.AssembleConcat(step, a, xs, ys);
    StillHalted(step, C.Assemble(step, a, xs), ys);
  }

  lemma {:induction false} StillHalted(step: C.Stepper, a: C.Assembly, ys: seq<Event>)
    requires a.Halted?
    ensures C.Assemble(step, a, ys) == a
  {
    if ys != [] {
      StillHalted(step, a, ys[..|ys| - 1]);
    }
  }

  lemma {:induction false} HaltedInPrefix(step: C.Stepper, dec: E.Decoder, frames: seq<bytes>, i: nat)
    requires i <= |frames| && C.Assemble(step, C.Going(FRESH), C.HilEvents(dec, frames[..i])).Halted?
    ensures C.Assemble(step, C.Going(FRESH), C.HilEvents(dec, frames))
         == C.Assemble(step, C.Going(FRESH), C.HilEvents(dec, frames[..i]))
  {
    assert frames == frames[..i] + frames[i..];
    C.HilEventsConcat(dec, frames[..i], frames[i..]);
    HaltedStays(step, C.Going(FRESH), C.HilEvents(dec, frames[..i]), C.HilEvents(dec, frames[i..]));
  }

  datatype Fed = Fine(seen: nat) | Raises(error: F.TraceError)

  /** Feed one frame's event, if it holds one. */
  method FeedFrame(asm: TraceAssembler, dec: E.Decoder, frame: bytes, ghost step: C.Stepper) returns (f: Fed)
    requires asm.Valid() && C.Implements(step, asm.Up())
    modifies asm, asm.reassembler
    ensures asm.Valid()
    ensures C.Assemble(step, C.Going(old(asm.Abstract())), C.EventIn(dec, frame))
         == if f.Raises? then C.Halted(f.error) else C.Going(asm.Abstract())
    ensures f.Fine? ==> f.seen == |C.EventIn(dec, frame)|
  {
    var es := C.EventIn(dec, frame);
    if es == [] {
      return Fine(0);
    }
    assert C.At(asm.Abstract(), es[0]);
    ghost var before := asm.Abstract();
    var r := asm.TakeEvent(es[0]);
    assert es == [] + [es[0]];
    C.AssembleSnoc(step, C.Going(before), [], es[0], before, A.Outcome(asm.Abstract(), r));
    return if r.Raised? then Raises(r.error) else Fine(1);
  }

  /** The loop of `decode_trace_frames` over an assembler that has seen nothing. */
  method FeedFrames(asm: TraceAssembler, dec: E.Decoder, frames: seq<bytes>, ghost step: C.Stepper) returns (f: Fed)
    requires asm.Valid() && asm.Abstract() == FRESH && C.Implements(step, asm.Up())
    modifies asm, asm.reassembler
    ensures asm.Valid()
    ensures C.Assemble(step, C.Going(FRESH), C.HilEvents(dec, frames))
         == if f.Raises? then C.Halted(f.error) else C.Going(asm.Abstract())
    ensures f.Fine? ==> f.seen == |C.HilEvents(dec, frames)|
  {
    var seen: nat := 0;
    for i := 0 to |frames|
      invariant asm.Valid()
      invariant C.Assemble(step, C.Going(FRESH), C.HilEvents(dec, frames[..i])) == C.Going(asm.Abstract())
      invariant seen == |C.HilEvents(dec, frames[..i])|
    {
      HilEventsSnoc(dec, frames, i);
      C.AssembleConcat(step, C.Going(FRESH), C.HilEvents(dec, frames[..i]), C.EventIn(dec, frames[i]));
      f := FeedFrame(asm, dec, frames[i], step);
      if f.Raises? {
        HaltedInPrefix(step, dec, frames, i + 1);
        return;
      }
      seen := seen + f.seen;
    }
    assert frames[..|frames|] == frames;
    return Fine(seen);
  }

  /** `decode_trace_frames`: the trace in the HIL events of the frames, every other frame
      passed over. */
  method DecodeTraceFrames(frames: seq<bytes>, session: int, body: F.TraceRecord -> Body) returns (r: Finalized)
    ensures r == C.TraceOf(Stepping(Real(session, body)), C.HilEvents(E.DecodeDelimited, frames))
  {
    var asm := new TraceAssembler(session, body);
    ghost var step := Stepping(asm.Up());
    SteppingImplements(asm.Up());
    var f := FeedFrames(asm, E.DecodeDelimited, frames, step);
    if f.Raises? {
      return Refused(f.error);
    }
    if f.seen == 0 {
      return Refused(F.NoEvents);
    }
    r := asm.Finish();
  }

  // ---------- A capture through the program's own parts ----------

  /** What `decode_trace_frames` is built on, for an expected session and a body parser. */
  function Real(session: int, body: F.TraceRecord -> Body): A.Setup {
    A.Setup(F.Setup(session, Crc16Of), F.DecodeFragment, body)
  }

  /** A record as the firmware sends it: described by its header, which fits its fields, with a
      body that reads as `p` and is tied to the header. */
  ghost predicate WellSent(up: A.Setup, s: C.Sent, p: Parsed) {
    F.Describes(up.fragments, s.header, s.record) && F.HeaderFits(s.header)
    && up.body(F.TraceRecord(s.header, s.record)) == Read(p) && Tied(s.header, p)
  }

  /** A capture as the firmware sends it: its records numbered from one, all of one session and
      capture. */
  ghost predicate SentCapture(up: A.Setup, ss: seq<C.Sent>, ps: seq<Parsed>) {
    |ss| == |ps| && C.InOrder(ss) && forall k :: 0 <= k < |ss| ==> WellSent(up, ss[k], ps[k])
  }

  lemma SentCaptureSends(up: A.Setup, ss: seq<C.Sent>, ps: seq<Parsed>)
    requires up.decode == F.DecodeFragment && SentCapture(up, ss, ps)
    ensures C.Sends(up, C.Wrap, ss, ps)
  {
    forall k | 0 <= k < |ss| ensures C.Made(up, C.Wrap, ss[k], ps[k]) {
      assert WellSent(up, ss[k], ps[k]);
      C.DecodeReadsBack(up, ss[k]);
    }
  }

  /** A header of the two kinds of message that carry a capture. */
  predicate HilHeader(h: Header) {
    h.msgType == 3 && (h.msgId == 0xA0 || h.msgId == 0xA1)
  }

  /** An event is seen in a frame exactly when the frame decodes to one of those. */
  lemma EventInIff(frame: bytes)
    ensures C.EventIn(E.DecodeDelimited, frame) != [] <==>
              exists h: Header, payload: bytes :: E.DecodeDelimited(frame) == [Message(h, payload)] && HilHeader(h)
    ensures forall h: Header, payload: bytes :: E.DecodeDelimited(frame) == [Message(h, payload)] && HilHeader(h) ==>
              C.EventIn(E.DecodeDelimited, frame) == [Event(h.msgId, payload)]
  {
    var r := E.DecodeDelimited(frame);
    if r != [] {
      assert r == [Message(r[0].header, r[0].payload)];
    }
  }

  /** A frame `encode_frame` makes of an event. */
  ghost predicate FramesEvent(t: C.Traffic) {
    t.Carrying?
    && exists h: Header ::
      EncodeFrame(h, t.event.payload) == Frame(t.wire) && h.magic == MAGIC && HilHeader(h) && h.msgId == t.event.id
  }

  /** A frame that does not decode to a message of the two kinds: any other message, a torn frame,
      one that does not decode. */
  predicate Unrelated(frame: bytes) {
    forall i :: 0 <= i < |E.DecodeDelimited(frame)| ==>
      E.DecodeDelimited(frame)[i].Message? ==> !HilHeader(E.DecodeDelimited(frame)[i].header)
  }

  /** Frames of events, among any unrelated frames. */
  ghost predicate OnTheLink(ts: seq<C.Traffic>) {
    forall i :: 0 <= i < |ts| ==> if ts[i].Carrying? then FramesEvent(ts[i]) else Unrelated(ts[i].frame)
  }

  lemma FramedEventSeen(t: C.Traffic)
    requires FramesEvent(t)
    ensures C.EventIn(E.DecodeDelimited, t.wire) == [t.event]
  {
    var h: Header :|
      EncodeFrame(h, t.event.payload) == Frame(t.wire) && h.magic == MAGIC && HilHeader(h) && h.msgId == t.event.id;
    C.EventFrame(h, t.event.payload);
  }

  lemma LinkSeen(ts: seq<C.Traffic>)
    requires OnTheLink(ts)
    ensures C.Seen(E.DecodeDelimited, ts)
  {
    forall i | 0 <= i < |ts|
      ensures C.EventIn(E.DecodeDelimited, C.FrameOf(ts[i])) == if ts[i].Carrying? then [ts[i].event] else []
    {
      if ts[i].Carrying? {
        FramedEventSeen(ts[i]);
      } else {
        assert Unrelated(ts[i].frame);
      }
    }
  }

  /** With the program's checksum, fragment decoder, framing and assembler: a complete capture
      that was cut into fragments, framed and sent among any other traffic is what decoding the
      retained frames returns, record for record. */
  lemma SentCaptureComesBack(session: int, body: F.TraceRecord -> Body, ss: seq<C.Sent>, ps: seq<Parsed>, c: nat,
                             ts: seq<C.Traffic>)
    requires SentCapture(Real(session, body), ss, ps) && Capture(ps, C.Counts(ss), c)
    requires OnTheLink(ts) && C.EventsOf(ts) == C.AllEvents(C.Wrap, ss)
    ensures var r := C.TraceOf(Stepping(Real(session, body)), C.HilEvents(E.DecodeDelimited, C.FramesOf(ts)));
            r.Whole? && C.Holds(r.trace, ps)
  {
    var up := Real(session, body);
    SteppingImplements(up);
    SentCaptureSends(up, ss, ps);
    LinkSeen(ts);
    C.TrafficEvents(E.DecodeDelimited, ts);
    C.CaptureComesBack(Stepping(up), up, C.Wrap, ss, ps, c, E.DecodeDelimited, C.FramesOf(ts));
  }

  /** When a session is asked for, a trace that is returned is of that session. */
  lemma DecodedTraceIsOfSession(session: int, body: F.TraceRecord -> Body, frames: seq<bytes>, t: Trace)
    requires session != 0
    requires C.TraceOf(Stepping(Real(session, body)), C.HilEvents(E.DecodeDelimited, frames)) == Whole(t)
    ensures t.begin.Begin? && t.begin.sessionId == session
  {
    var up := Real(session, body);
    SteppingImplements(up);
    DecodeFragmentChecked(up);
    C.TraceIsOfSession(Stepping(up), up, C.HilEvents(E.DecodeDelimited, frames), t);
  }

  /** Frames without any HIL event are no capture. */
  lemma NothingIsRefused(session: int, body: F.TraceRecord -> Body, frames: seq<bytes>)
    requires forall i :: 0 <= i < |frames| ==> Unrelated(frames[i])
    ensures C.TraceOf(Stepping(Real(session, body)), C.HilEvents(E.DecodeDelimited, frames)) == Refused(F.NoEvents)
  {
    forall f | f in frames ensures C.EventIn(E.DecodeDelimited, f) == [] {
      assert Unrelated(f);
    }
    C.NoEventsIn(E.DecodeDelimited, frames);
  }

  /** And whatever the frames are, a trace that is returned is a complete capture whose End
      counter, with End's own fragments, accounts for every HIL event among them. */
  lemma DecodedTraceIsCapture(session: int, body: F.TraceRecord -> Body, frames: seq<bytes>, t: Trace)
      returns (counts: seq<int>, c: nat)
    requires C.TraceOf(Stepping(Real(session, body)), C.HilEvents(E.DecodeDelimited, frames)) == Whole(t)
    ensures C.Accounts(t, counts, c, |C.HilEvents(E.DecodeDelimited, frames)|)
  {
    var up := Real(session, body);
    SteppingImplements(up);
    DecodeFragmentChecked(up);
    counts, c := C.TraceIsCapture(Stepping(up), up, C.HilEvents(E.DecodeDelimited, frames), t);
  }
}
