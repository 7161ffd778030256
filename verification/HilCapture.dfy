/**
  A whole capture on the wire: the assembler object, the decoder over retained frames, and
  the law that a capture cut into fragments, framed and interleaved with other traffic comes
  back record for record.
  */
module HilCapture {
  import opened Struct
  import opened Framing
  import E = Extractor
  import F = HilFragments
  import opened A = HilAssembler

  // ---------- Feeding events until one raises ----------

  /** What one event does to an assembler. */
  type Stepper = (A.State, Event) -> A.Outcome

  /** Names the steps at which `Implements` is to be used. */
  predicate At(st: A.State, e: Event) {
    true
  }

  /** The step is `accept_event`. */
  ghost predicate Implements(step: Stepper, up: A.Setup) {
    forall st: A.State, e: Event {:trigger At(st, e)} :: At(st, e) ==> step(st, e) == AcceptEvent(up, st, e)
  }

  datatype Assembly = Going(state: A.State) | Halted(error: F.TraceError)

  function AfterStep(o: A.Outcome): Assembly {
    if o.result.Raised? then Halted(o.result.error) else Going(o.state)
  }

  function Assemble(step: Stepper, a: Assembly, events: seq<Event>): Assembly {
    if events == [] then a
    else
      match Assemble(step, a, events[..|events| - 1])
      case Halted(e) => Halted(e)
      case Going(st) => AfterStep(step(st, events[|events| - 1]))
  }

  lemma {:induction false} AssembleConcat(step: Stepper, a: Assembly, xs: seq<Event>, ys: seq<Event>)
    ensures Assemble(step, a, xs + ys) == Assemble(step, Assemble(step, a, xs), ys)
  {
    if ys == [] {
      assert xs + ys == xs;
    } else {
      var front := ys[..|ys| - 1];
      AssembleConcat(step, a, xs, front);
      assert (xs + ys)[..|xs + ys| - 1] == xs + front;
    }
  }

  /** Every step keeps the invariant, and counts its event unless it raises. */
  ghost predicate KeepsSound(step: Stepper) {
    forall st: A.State, e: Event :: Sound(st) ==>
      Sound(step(st, e).state) && (!step(st, e).result.Raised? ==> Progress(step(st, e).state) == Progress(st) + 1)
  }

  lemma AcceptKeepsSound(step: Stepper, up: A.Setup)
    requires Implements(step, up) && Checked(up)
    ensures KeepsSound(step)
  {
    forall st: A.State, e: Event | Sound(st)
      ensures Sound(step(st, e).state)
      ensures !step(st, e).result.Raised? ==> Progress(step(st, e).state) == Progress(st) + 1
    {
      assert At(st, e);
      EventSound(up, st, e);
    }
  }

  lemma {:induction false} AssembleSound(step: Stepper, events: seq<Event>)
    requires KeepsSound(step) && Assemble(step, Going(FRESH), events).Going?
    ensures var st := Assemble(step, Going(FRESH), events).state;
            Sound(st) && Progress(st) == |events|
  {
    if events == [] {
      FreshSound(F.Idle);
    } else {
      AssembleSound(step, events[..|events| - 1]);
    }
  }

  lemma {:induction false} AssembleInSession(step: Stepper, up: A.Setup, events: seq<Event>)
    requires Implements(step, up) && Checked(up) && KeepsSound(step) && Assemble(step, Going(FRESH), events).Going?
    ensures InSession(up, Assemble(step, Going(FRESH), events).state)
  {
    if events != [] {
      var n := |events| - 1;
      AssembleInSession(step, up, events[..n]);
      AssembleSound(step, events[..n]);
      var st := Assemble(step, Going(FRESH), events[..n]).state;
      assert At(st, events[n]);
      EventInSession(up, st, events[n]);
    }
  }

  /** The trace in a list of HIL events. */
  function TraceOf(step: Stepper, events: seq<Event>): Finalized {
    if events == [] then Refused(F.NoEvents)
    else
      match Assemble(step, Going(FRESH), events)
      case Halted(e) => Refused(e)
      case Going(st) => Finalize(st)
  }

  /** A complete capture whose End counter, with the fragments of End itself, makes `total`. */
  ghost predicate Accounts(t: Trace, counts: seq<int>, c: nat, total: int) {
    Views(t) && Capture(t.records, counts, c)
    && t.end.End? && t.end.emittedFragments + counts[|counts| - 1] == total
  }

  lemma {:induction false} FinalProgress(st: A.State, t: Trace, total: int) returns (c: nat)
    requires Sound(st) && Finalize(st) == Whole(t) && Progress(st) == total
    ensures Accounts(t, st.counts, c, total)
  {
    c := FinalState(st);
    FinalCount(st, c);
  }

  /** What End counts, in terms of the state. */
  lemma {:induction false} FinalCount(st: A.State, c: nat)
    requires Sound(st) && st.end.Present? && Capture(st.records, st.counts, c)
    ensures st.end.value.End? && st.end.value.emittedFragments + st.counts[|st.counts| - 1] == Progress(st)
  {
    EndIsLast(st);
    EndAccounts(st.records, st.counts, c);
  }

  lemma {:induction false} TraceState(step: Stepper, up: A.Setup, events: seq<Event>) returns (st: A.State)
    requires Implements(step, up) && Checked(up) && TraceOf(step, events).Whole?
    ensures Sound(st) && Finalize(st) == TraceOf(step, events) && Progress(st) == |events|
  {
    AcceptKeepsSound(step, up);
    AssembleSound(step, events);
    st := Assemble(step, Going(FRESH), events).state;
  }

  /** A trace that is returned is a complete capture, and End's fragment counter together with
      the fragments of End itself accounts for every event there was. */
  lemma {:induction false} TraceIsCapture(step: Stepper, up: A.Setup, events: seq<Event>, t: Trace) returns (counts: seq<int>, c: nat)
    requires Implements(step, up) && Checked(up) && TraceOf(step, events) == Whole(t)
    ensures Accounts(t, counts, c, |events|)
  {
    var st := TraceState(step, up, events);
    c := FinalProgress(st, t, |events|);
    counts := st.counts;
  }

  /** And it is of the session that was asked for. */
  lemma {:induction false} TraceIsOfSession(step: Stepper, up: A.Setup, events: seq<Event>, t: Trace)
    requires Implements(step, up) && Checked(up) && TraceOf(step, events) == Whole(t) && up.fragments.session != 0
    ensures t.begin.Begin? && t.begin.sessionId == up.fragments.session
  {
    AcceptKeepsSound(step, up);
    AssembleInSession(step, up, events);
  }

  // ---------- Retained frames ----------

  predicate IsHil(h: Header) {
    h.msgType == MSG_EVENT && (h.msgId == TRACE_FRAGMENT_EVENT || h.msgId == OUTPUT_BLOCKED_EVENT)
  }

  /** The HIL event in a frame, if it is one: at most one. */
  function EventIn(dec: E.Decoder, frame: bytes): seq<Event> {
    var r := dec(frame);
    if r != [] && r[0].Message? && IsHil(r[0].header) then [Event(r[0].header.msgId, r[0].payload)] else []
  }

  function HilEvents(dec: E.Decoder, frames: seq<bytes>): seq<Event> {
    if frames == [] then []
    else HilEvents(dec, frames[..|frames| - 1]) + EventIn(dec, frames[|frames| - 1])
  }

  lemma NothingAdded(x: seq<Event>)
    ensures x + [] == x
  {
  }

  lemma Regroup(x: seq<Event>, y: seq<Event>, z: seq<Event>)
    ensures x + y + z == x + (y + z)
  {
  }

  lemma {:induction false} HilEventsConcat(dec: E.Decoder, a: seq<bytes>, b: seq<bytes>)
    ensures HilEvents(dec, a + b) == HilEvents(dec, a) + HilEvents(dec, b)
  {
    if b == [] {
      assert a + b == a;
    } else {
      var front := b[..|b| - 1];
      HilEventsConcat(dec, a, front);
      assert (a + b)[..|a + b| - 1] == a + front;
      Regroup(HilEvents(dec, a), HilEvents(dec, front), EventIn(dec, b[|b| - 1]));
    }
  }

  /** Frames that hold no HIL event, undecodable ones included, change nothing wherever they
      stand: what is returned depends on the HIL events alone. */
  lemma {:induction false} UnrelatedFramesIgnored(dec: E.Decoder, a: seq<bytes>, others: seq<bytes>, b: seq<bytes>)
    requires forall f :: f in others ==> EventIn(dec, f) == []
    ensures HilEvents(dec, a + others + b) == HilEvents(dec, a + b)
  {
    HilEventsConcat(dec, a + others, b);
    HilEventsConcat(dec, a, others);
    HilEventsConcat(dec, a, b);
    NoEventsIn(dec, others);
    NothingAdded(HilEvents(dec, a));
  }

  lemma {:induction false} NoEventsIn(dec: E.Decoder, others: seq<bytes>)
    requires forall f :: f in others ==> EventIn(dec, f) == []
    ensures HilEvents(dec, others) == []
  {
    if others != [] {
      NoEventsIn(dec, others[..|others| - 1]);
    }
  }

  /** The frame of an event decodes to that event. */
  lemma EventFrame(h: Header, payload: bytes)
    requires EncodeFrame(h, payload).Frame? && h.magic == MAGIC && IsHil(h)
    ensures EventIn(E.DecodeDelimited, EncodeFrame(h, payload).wire) == [Event(h.msgId, payload)]
  {
    FrameRoundTrip(h, payload);
  }

  // ---------- Sending a capture ----------

  /** One logical record as the firmware sends it: its first fragment header and its bytes. */
  datatype Sent = Sent(header: F.FragmentHeader, record: bytes)

  /** How a fragment becomes an event payload. */
  type Wrapper = F.TraceFragment -> bytes

  function EventId(t: F.RecordType): int {
    if t == F.OUTPUT_BLOCKED then OUTPUT_BLOCKED_EVENT else TRACE_FRAGMENT_EVENT
  }

  function PieceEvent(wrap: Wrapper, s: Sent, i: nat): Event {
    Event(EventId(s.header.recordType), wrap(F.Piece(s.header, s.record, i)))
  }

  /** The first `n` events of a record. */
  function PieceEvents(wrap: Wrapper, s: Sent, n: nat): seq<Event> {
    if n == 0 then [] else PieceEvents(wrap, s, n - 1) + [PieceEvent(wrap, s, n - 1)]
  }

  /** All events of a record. */
  function RecordEvents(wrap: Wrapper, s: Sent): seq<Event> {
    PieceEvents(wrap, s, F.FragmentCount(|s.record|))
  }

  /** The decoder reads every fragment of the record back. */
  ghost predicate ReadsBack(up: A.Setup, wrap: Wrapper, s: Sent) {
    forall i: nat {:trigger PieceEvent(wrap, s, i)} :: i < s.header.fragmentCount ==>
      up.decode(PieceEvent(wrap, s, i).payload) == F.Decoded(F.Piece(s.header, s.record, i))
  }

  /** The record is described by its header, survives the wire, and its body reads as `p`, which
      is tied to the header. */
  ghost predicate Made(up: A.Setup, wrap: Wrapper, s: Sent, p: Parsed) {
    F.Describes(up.fragments, s.header, s.record) && ReadsBack(up, wrap, s)
    && up.body(F.TraceRecord(s.header, s.record)) == Read(p) && Tied(s.header, p)
  }

  /** The record is described by its header, survives the wire and parses to `p`. */
  ghost predicate Proper(up: A.Setup, wrap: Wrapper, s: Sent, p: Parsed) {
    F.Describes(up.fragments, s.header, s.record) && ReadsBack(up, wrap, s)
    && ParseRecord(up, F.TraceRecord(s.header, s.record)) == Good(p)
  }

  lemma AcceptPieceEvent(step: Stepper, up: A.Setup, wrap: Wrapper, st: A.State, s: Sent, i: nat)
    requires Implements(step, up) && ReadsBack(up, wrap, s) && st.end.Absent? && i < s.header.fragmentCount
    ensures step(st, PieceEvent(wrap, s, i)) == AcceptFragment(up, st, F.Piece(s.header, s.record, i))
  {
    assert At(st, PieceEvent(wrap, s, i));
  }

  /** The assembler with the first `n` fragments of a record in its reassembler. */
  function Holding(st: A.State, s: Sent, n: nat): A.State
    requires n * F.MAX_FRAGMENT_DATA < |s.record|
  {
    st.(reassembly := F.Partial(s.header, s.record, n))
  }

  lemma MorePiece(step: Stepper, up: A.Setup, wrap: Wrapper, st: A.State, s: Sent, n: nat, p: Parsed)
    requires Implements(step, up) && Proper(up, wrap, s, p) && st.end.Absent? && n + 1 < s.header.fragmentCount
    ensures (n + 1) * F.MAX_FRAGMENT_DATA < |s.record|
    ensures step(Holding(st, s, n), PieceEvent(wrap, s, n)) == A.Outcome(Holding(st, s, n + 1), Nothing)
  {
    F.PieceValid(up.fragments, s.header, s.record, n);
    AcceptPieceEvent(step, up, wrap, Holding(st, s, n), s, n);
    F.AcceptPiece(up.fragments, s.header, s.record, n, F.Partial(s.header, s.record, n));
  }

  lemma LastPiece(step: Stepper, up: A.Setup, wrap: Wrapper, st: A.State, s: Sent, p: Parsed)
    requires Implements(step, up) && Proper(up, wrap, s, p) && st.end.Absent? && st.reassembly == F.Idle
    ensures var n := s.header.fragmentCount - 1;
            0 <= n && n * F.MAX_FRAGMENT_DATA < |s.record|
            && step(Holding(st, s, n), PieceEvent(wrap, s, n)) == AcceptRecord(up, st, s.header, p)
  {
    var n := s.header.fragmentCount - 1;
    F.PieceValid(up.fragments, s.header, s.record, n);
    var st1 := Holding(st, s, n);
    AcceptPieceEvent(step, up, wrap, st1, s, n);
    F.AcceptPiece(up.fragments, s.header, s.record, n, F.Partial(s.header, s.record, n));
    assert st1.(reassembly := F.Idle) == st;
  }

  lemma {:induction false} AssembleSnoc(step: Stepper, a: Assembly, events: seq<Event>, e: Event, st: A.State, o: A.Outcome)
    requires Assemble(step, a, events) == Going(st) && step(st, e) == o
    ensures Assemble(step, a, events + [e]) == AfterStep(o)
  {
    assert (events + [e])[..|events|] == events;
  }

  /** Fragment `n`, not the last, takes the assembler from holding `n` fragments to `n + 1`. */
  ghost predicate FlowsAt(step: Stepper, wrap: Wrapper, st: A.State, s: Sent, n: nat) {
    (n + 1) * F.MAX_FRAGMENT_DATA < |s.record|
    && step(Holding(st, s, n), PieceEvent(wrap, s, n)) == A.Outcome(Holding(st, s, n + 1), Nothing)
  }

  ghost predicate Flows(step: Stepper, wrap: Wrapper, st: A.State, s: Sent) {
    forall n: nat :: n + 1 < s.header.fragmentCount ==> FlowsAt(step, wrap, st, s, n)
  }

  lemma PiecesFlow(step: Stepper, up: A.Setup, wrap: Wrapper, st: A.State, s: Sent, p: Parsed)
    requires Implements(step, up) && Proper(up, wrap, s, p) && st.end.Absent?
    ensures Flows(step, wrap, st, s)
  {
    forall n: nat | n + 1 < s.header.fragmentCount ensures FlowsAt(step, wrap, st, s, n) {
      MorePiece(step, up, wrap, st, s, n, p);
    }
  }

  /** All fragments but the last leave the assembler waiting. */
  lemma {:induction false} FirstPieces(step: Stepper, wrap: Wrapper, st: A.State, s: Sent, n: nat)
    requires Flows(step, wrap, st, s) && st.reassembly == F.Idle && s.record != [] && n < s.header.fragmentCount
    ensures n * F.MAX_FRAGMENT_DATA < |s.record|
    ensures Assemble(step, Going(st), PieceEvents(wrap, s, n)) == Going(Holding(st, s, n))
  {
    if n > 0 {
      FirstPieces(step, wrap, st, s, n - 1);
      assert FlowsAt(step, wrap, st, s, n - 1);
      var e := PieceEvent(wrap, s, n - 1);
      AssembleSnoc(step, Going(st), PieceEvents(wrap, s, n - 1), e, Holding(st, s, n - 1),
                   A.Outcome(Holding(st, s, n), Nothing));
    }
  }

  lemma {:induction false} LastJoins(step: Stepper, wrap: Wrapper, st: A.State, s: Sent, n: nat, held: A.State, o: A.Outcome)
    requires Assemble(step, Going(st), PieceEvents(wrap, s, n)) == Going(held)
    requires step(held, PieceEvent(wrap, s, n)) == o && n + 1 == F.FragmentCount(|s.record|)
    ensures Assemble(step, Going(st), RecordEvents(wrap, s)) == AfterStep(o)
  {
    AssembleSnoc(step, Going(st), PieceEvents(wrap, s, n), PieceEvent(wrap, s, n), held, o);
  }

  /** All fragments of a record together are one accepted record. */
  lemma {:induction false} AllPieces(step: Stepper, up: A.Setup, wrap: Wrapper, st: A.State, s: Sent, p: Parsed)
    requires Implements(step, up) && Proper(up, wrap, s, p) && st.end.Absent? && st.reassembly == F.Idle
    ensures Assemble(step, Going(st), RecordEvents(wrap, s)) == AfterStep(AcceptRecord(up, st, s.header, p))
  {
    var n := s.header.fragmentCount - 1;
    PiecesFlow(step, up, wrap, st, s, p);
    FirstPieces(step, wrap, st, s, n);
    LastPiece(step, up, wrap, st, s, p);
    LastJoins(step, wrap, st, s, n, Holding(st, s, n), AcceptRecord(up, st, s.header, p));
  }

  /** Records numbered from one, all of one session and capture. */
  predicate InOrder(ss: seq<Sent>) {
    forall k :: 0 <= k < |ss| ==>
      ss[k].header.recordSeq == k + 1
      && ss[k].header.sessionId == ss[0].header.sessionId && ss[k].header.captureId == ss[0].header.captureId
  }

  /** A capture to send, each record with the body it reads as. */
  ghost predicate Sends(up: A.Setup, wrap: Wrapper, ss: seq<Sent>, ps: seq<Parsed>) {
    |ss| == |ps| && InOrder(ss) && forall k :: 0 <= k < |ss| ==> Made(up, wrap, ss[k], ps[k])
  }

  /** And each record then parses to that body. */
  ghost predicate SendsProper(up: A.Setup, wrap: Wrapper, ss: seq<Sent>, ps: seq<Parsed>) {
    |ss| == |ps| && InOrder(ss) && forall k :: 0 <= k < |ss| ==> Proper(up, wrap, ss[k], ps[k])
  }

  lemma CaptureIsProper(up: A.Setup, wrap: Wrapper, ss: seq<Sent>, ps: seq<Parsed>, counts: seq<int>, c: nat)
    requires Sends(up, wrap, ss, ps) && Capture(ps, counts, c)
    ensures SendsProper(up, wrap, ss, ps)
  {
    assert Made(up, wrap, ss[0], ps[0]);
    forall k | 0 <= k < |ss| ensures Proper(up, wrap, ss[k], ps[k]) {
      CaptureEndWithin(ps, counts, c, k);
      ParsedIff(up, F.TraceRecord(ss[k].header, ss[k].record), ps[k]);
    }
  }

  function Counts(ss: seq<Sent>): (c: seq<int>)
    ensures |c| == |ss|
  {
    if ss == [] then [] else Counts(ss[..|ss| - 1]) + [ss[|ss| - 1].header.fragmentCount]
  }

  function AllEvents(wrap: Wrapper, ss: seq<Sent>): seq<Event> {
    if ss == [] then [] else AllEvents(wrap, ss[..|ss| - 1]) + RecordEvents(wrap, ss[|ss| - 1])
  }

  /** The state after the records `ps` came in with the headers of `ss`. */
  ghost predicate Arrived(st: A.State, seqNo: int, ps: seq<Parsed>, counts: seq<int>) {
    Consistent(st) && st.reassembly == F.Idle && st.nextSeq == seqNo && st.records == ps && st.counts == counts
  }

  lemma ProperBound(up: A.Setup, wrap: Wrapper, s: Sent, p: Parsed)
    requires Proper(up, wrap, s, p)
    ensures Bound(up, s.header, p)
    ensures p.Begin? ==> p.sessionId == s.header.sessionId && p.captureId == s.header.captureId
  {
  }

  lemma AdmittedNotEnded(st: A.State, p: Parsed)
    requires Consistent(st) && Admits(st.records, st.counts, p)
    ensures st.end.Absent?
  {
    SelectNothing();
  }

  /** An admitted record is taken. */
  lemma TakeRecord(up: A.Setup, wrap: Wrapper, st: A.State, s: Sent, p: Parsed, n: int, ps: seq<Parsed>, counts: seq<int>)
    requires Arrived(st, n, ps, counts) && Proper(up, wrap, s, p) && Next(st, s.header) && Admits(ps, counts, p)
    ensures st.end.Absent? && AcceptRecord(up, st, s.header, p).result == Returned(p)
    ensures Arrived(AcceptRecord(up, st, s.header, p).state, n + 1, ps + [p], counts + [s.header.fragmentCount])
  {
    AdmittedNotEnded(st, p);
    ProperBound(up, wrap, s, p);
    AcceptKeepsConsistent(up, st, s.header, p);
  }

  /** The events of an admitted record bring it in. */
  lemma OneMoreRecord(step: Stepper, up: A.Setup, wrap: Wrapper, st: A.State, s: Sent, p: Parsed,
                      n: int, ps: seq<Parsed>, counts: seq<int>)
    requires Implements(step, up) && Arrived(st, n, ps, counts) && Proper(up, wrap, s, p)
    requires Next(st, s.header) && Admits(ps, counts, p)
    ensures var a := Assemble(step, Going(st), RecordEvents(wrap, s));
            a.Going? && Arrived(a.state, n + 1, ps + [p], counts + [s.header.fragmentCount])
  {
    TakeRecord(up, wrap, st, s, p, n, ps, counts);
    AllPieces(step, up, wrap, st, s, p);
  }

  /** Every record of the capture is the next one in its turn. */
  lemma NextInTurn(up: A.Setup, wrap: Wrapper, st: A.State, ss: seq<Sent>, ps: seq<Parsed>, n: nat, counts: seq<int>)
    requires SendsProper(up, wrap, ss, ps) && n < |ss| && Arrived(st, n + 1, ps[..n], counts)
    ensures Next(st, ss[n].header)
  {
    if n > 0 {
      assert st.begin.value == ps[..n][0] == ps[0];
      ProperBound(up, wrap, ss[0], ps[0]);
    }
  }

  lemma {:induction false} CountsFront(ss: seq<Sent>)
    requires ss != []
    ensures Counts(ss)[..|ss| - 1] == Counts(ss[..|ss| - 1])
    ensures Counts(ss) == Counts(ss[..|ss| - 1]) + [ss[|ss| - 1].header.fragmentCount]
  {
  }

  lemma {:induction false} Fronts(ss: seq<Sent>, ps: seq<Parsed>)
    requires |ss| == |ps| > 0 && WellFormed(ps, Counts(ss))
    ensures var n := |ss| - 1;
            WellFormed(ps[..n], Counts(ss[..n])) && Admits(ps[..n], Counts(ss[..n]), ps[n])
            && Counts(ss) == Counts(ss[..n]) + [ss[n].header.fragmentCount] && ps == ps[..n] + [ps[n]]
  {
    CountsFront(ss);
    PrefixWellFormed(ps, Counts(ss), |ss| - 1);
  }

  lemma {:induction false} CaptureArrives(
      step: Stepper, up: A.Setup, wrap: Wrapper, ss: seq<Sent>, ps: seq<Parsed>)
    requires Implements(step, up) && SendsProper(up, wrap, ss, ps) && WellFormed(ps, Counts(ss))
    ensures var a := Assemble(step, Going(FRESH), AllEvents(wrap, ss));
            a.Going? && Arrived(a.state, |ss| + 1, ps, Counts(ss))
  {
    if ss == [] {
      FreshSound(F.Idle);
    } else {
      var n := |ss| - 1;
      Fronts(ss, ps);
      CaptureArrives(step, up, wrap, ss[..n], ps[..n]);
      var st := Assemble(step, Going(FRESH), AllEvents(wrap, ss[..n])).state;
      NextInTurn(up, wrap, st, ss, ps, n, Counts(ss[..n]));
      OneMoreRecord(step, up, wrap, st, ss[n], ps[n], n + 1, ps[..n], Counts(ss[..n]));
      AssembleConcat(step, Going(FRESH), AllEvents(wrap, ss[..n]), RecordEvents(wrap, ss[n]));
    }
  }

  lemma EndArrived(st: A.State, c: nat)
    requires Consistent(st) && Capture(st.records, st.counts, c)
    ensures Finalize(st).Whole?
  {
    SelectIsOne(st.records, F.END, |st.records| - 1);
    SelectIsOne(st.records, F.CONFIG, c);
  }

  ghost predicate Holds(t: Trace, ps: seq<Parsed>) {
    t.records == ps && Views(t)
  }

  lemma CaptureFinalizes(st: A.State, ps: seq<Parsed>, counts: seq<int>, c: nat)
    requires Consistent(st) && Capture(ps, counts, c) && st.records == ps && st.counts == counts
    ensures Finalize(st).Whole? && Holds(Finalize(st).trace, ps)
  {
    EndArrived(st, c);
    var c' := FinalState(st);
  }

  /** Completeness: every complete capture, sent fragment by fragment in frames that may be
      interleaved with any traffic holding no HIL event, comes back as exactly its records. */
  lemma {:induction false} CaptureComesBack(step: Stepper, up: A.Setup, wrap: Wrapper, ss: seq<Sent>, ps: seq<Parsed>, c: nat,
                         dec: E.Decoder, frames: seq<bytes>)
    requires Implements(step, up) && Sends(up, wrap, ss, ps) && Capture(ps, Counts(ss), c)
    requires HilEvents(dec, frames) == AllEvents(wrap, ss)
    ensures var r := TraceOf(step, HilEvents(dec, frames));
            r.Whole? && Holds(r.trace, ps)
  {
    CaptureIsProper(up, wrap, ss, ps, Counts(ss), c);
    CaptureIsWellFormed(ps, Counts(ss), c);
    CaptureArrives(step, up, wrap, ss, ps);
    CaptureFinalizes(Assemble(step, Going(FRESH), AllEvents(wrap, ss)).state, ps, Counts(ss), c);
  }

  // ---------- Mixed traffic ----------

  /** What the link carries: a frame without a HIL event, or a HIL event in its frame. */
  datatype Traffic = Other(frame: bytes) | Carrying(event: Event, wire: bytes)

  function FrameOf(t: Traffic): bytes {
    if t.Other? then t.frame else t.wire
  }

  function FramesOf(ts: seq<Traffic>): seq<bytes> {
    if ts == [] then [] else FramesOf(ts[..|ts| - 1]) + [FrameOf(ts[|ts| - 1])]
  }

  function EventsOf(ts: seq<Traffic>): seq<Event> {
    if ts == [] then []
    else EventsOf(ts[..|ts| - 1]) + if ts[|ts| - 1].Carrying? then [ts[|ts| - 1].event] else []
  }

  /** The decoder sees in each frame what it carries. */
  ghost predicate Seen(dec: E.Decoder, ts: seq<Traffic>) {
    forall i :: 0 <= i < |ts| ==> EventIn(dec, FrameOf(ts[i])) == if ts[i].Carrying? then [ts[i].event] else []
  }

  /** However events and other frames are interleaved, the events come out in order. */
  lemma {:induction false} TrafficEvents(dec: E.Decoder, ts: seq<Traffic>)
    requires Seen(dec, ts)
    ensures HilEvents(dec, FramesOf(ts)) == EventsOf(ts)
  {
    if ts != [] {
      var n := |ts| - 1;
      TrafficEvents(dec, ts[..n]);
      var frames := FramesOf(ts);
      assert frames[..|frames| - 1] == FramesOf(ts[..n]);
    }
  }

  // ---------- The wire form of a fragment ----------

  function Wrap(f: F.TraceFragment): bytes {
    if F.HeaderFits(f.header) then F.EventPayload(f) else []
  }

  lemma IndexFits(h: F.FragmentHeader, i: nat)
    requires F.HeaderFits(h) && i < 256
    ensures F.HeaderFits(h.(fragmentIndex := i))
  {
    var v, w := F.Fields(h), F.Fields(h.(fragmentIndex := i));
    F.FragmentSize();
    forall k | 0 <= k < 9
      ensures Fits(F.FRAGMENT_FORMAT[k], w[k])
    {
      assert Fits(F.FRAGMENT_FORMAT[k], v[k]);
    }
  }

  /** `decode_fragment` reads back the fragments of every record whose header fits its fields. */
  lemma DecodeReadsBack(up: A.Setup, s: Sent)
    requires up.decode == F.DecodeFragment
    requires F.Describes(up.fragments, s.header, s.record) && F.HeaderFits(s.header)
    ensures ReadsBack(up, Wrap, s)
  {
    forall i: nat | i < s.header.fragmentCount
      ensures up.decode(PieceEvent(Wrap, s, i).payload) == F.Decoded(F.Piece(s.header, s.record, i))
    {
      PieceReadsBack(up.fragments, s, i);
    }
  }

  lemma PieceReadsBack(up: F.Setup, s: Sent, i: nat)
    requires F.Describes(up, s.header, s.record) && F.HeaderFits(s.header) && i < s.header.fragmentCount
    ensures F.DecodeFragment(Wrap(F.Piece(s.header, s.record, i))) == F.Decoded(F.Piece(s.header, s.record, i))
  {
    F.PieceValid(up, s.header, s.record, i);
    IndexFits(s.header, i);
    F.DecodeEventPayload(F.Piece(s.header, s.record, i));
  }
}
