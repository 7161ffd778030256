/**
  HIL trace fragments: the 21-byte fragment envelope, its validation, and the strict
  reassembly of logical records from an ordered stream of fragments.
  */
module HilFragments {
  import opened Struct
  import opened Crc16
  import O = Offsets

  const TRACE_SCHEMA_VERSION := 1
  const PREFIX_BYTES := 21
  const MAX_EVENT_PAYLOAD := 256
  const MAX_FRAGMENT_DATA := 235
  const MAX_LOGICAL_RECORD_BYTES := 960

  datatype RecordType = BEGIN | CONFIG | STEP | MARKER | OUTPUT_BLOCKED | END

  const RECORD_TYPES: seq<RecordType> := [BEGIN, CONFIG, STEP, MARKER, OUTPUT_BLOCKED, END]

  function Code(t: RecordType): (c: int)
    ensures 0 <= c < 6 && RECORD_TYPES[c] == t
  {
    match t
    case BEGIN => 0 case CONFIG => 1 case STEP => 2 case MARKER => 3 case OUTPUT_BLOCKED => 4 case END => 5
  }

  datatype FragmentHeader = FragmentHeader(
    schemaVersion: int, sessionId: int, captureId: int, recordSeq: int, recordType: RecordType,
    fragmentIndex: int, fragmentCount: int, logicalLength: int, logicalCrc16: int)

  datatype TraceFragment = TraceFragment(header: FragmentHeader, data: bytes)

  datatype TraceRecord = TraceRecord(header: FragmentHeader, payload: bytes)

  datatype TraceError =
    | ShortPrefix | OverPayloadLimit | UnknownRecordType
    | BadSchema | ZeroId | BadIndex | BadLength | BadCount | NoData | BadDataLength
    | OtherSession | FirstOutOfOrder | OtherRecord | OutOfOrder | ExceedsLength | Truncated | CrcMismatch
    | AfterEnd | UnsupportedEvent | WrongEvent | BadBody | SequenceGap | BeginNotFirst | BeginOtherSession
    | OtherCapture | SecondBegin | ConfigTwice | ConfigRevision | ConfigCrc | StepBeforeConfig | StepConfig
    | StepGap | TooManySteps | NoSuchStep | EndBeforeConfig | EndCounters | Incomplete | NoEvents

  // ---------- The envelope ----------

  const HEAD_FORMAT: Format := [U16, U32, U32, U32]
  const TAIL_FORMAT: Format := [U8, U8, U8, U16, U16]
  const FRAGMENT_FORMAT: Format := HEAD_FORMAT + TAIL_FORMAT

  lemma FragmentSize()
    ensures Size(FRAGMENT_FORMAT) == PREFIX_BYTES && |FRAGMENT_FORMAT| == 9
  {
    SizeOfConcat(HEAD_FORMAT, TAIL_FORMAT);
  }

  function Fields(h: FragmentHeader): (v: seq<int>)
    ensures |v| == 9
  {
    [h.schemaVersion, h.sessionId, h.captureId, h.recordSeq]
    + [Code(h.recordType), h.fragmentIndex, h.fragmentCount, h.logicalLength, h.logicalCrc16]
  }

  function HeaderOf(v: seq<int>, t: RecordType): FragmentHeader
    requires |v| == 9
  {
    FragmentHeader(v[0], v[1], v[2], v[3], t, v[5], v[6], v[7], v[8])
  }

  /** The number of fragments a record of `length` bytes is cut into. */
  function FragmentCount(length: int): int {
    (length + MAX_FRAGMENT_DATA - 1) / MAX_FRAGMENT_DATA
  }

  datatype Verdict = Fine | Bad(error: TraceError)

  function ValidateHeader(h: FragmentHeader): Verdict {
    if h.schemaVersion != TRACE_SCHEMA_VERSION then Bad(BadSchema)
    else if h.sessionId == 0 || h.captureId == 0 then Bad(ZeroId)
    else if h.fragmentCount == 0 || h.fragmentIndex >= h.fragmentCount then Bad(BadIndex)
    else if !(0 < h.logicalLength <= MAX_LOGICAL_RECORD_BYTES) then Bad(BadLength)
    else if h.fragmentCount != FragmentCount(h.logicalLength) then Bad(BadCount)
    else Fine
  }

  /** The length every fragment but the last must have, and what is left for the last. */
  function ExpectedLength(h: FragmentHeader): int {
    var left := h.logicalLength - h.fragmentIndex * MAX_FRAGMENT_DATA;
    if left < MAX_FRAGMENT_DATA then left else MAX_FRAGMENT_DATA
  }

  datatype FragmentResult = Decoded(fragment: TraceFragment) | Malformed(error: TraceError)

  function DecodeFragment(payload: bytes): FragmentResult {
    if |payload| < PREFIX_BYTES then Malformed(ShortPrefix)
    else if |payload| > MAX_EVENT_PAYLOAD then Malformed(OverPayloadLimit)
    else
      FragmentSize();
      var v := Unpack(FRAGMENT_FORMAT, payload[..PREFIX_BYTES]);
      if !(0 <= v[4] < 6) then Malformed(UnknownRecordType)
      else
        var h, data := HeaderOf(v, RECORD_TYPES[v[4]]), payload[PREFIX_BYTES..];
        match ValidateHeader(h)
        case Bad(e) => Malformed(e)
        case Fine =>
          if data == [] then Malformed(NoData)
          else if |data| != ExpectedLength(h) then Malformed(BadDataLength)
          else Decoded(TraceFragment(h, data))
  }

  /** What every decoded fragment satisfies. */
  predicate Valid(f: TraceFragment) {
    ValidateHeader(f.header).Fine? && 0 <= f.header.fragmentIndex && |f.data| == ExpectedLength(f.header)
  }

  lemma IndexNotNegative(payload: bytes)
    requires |payload| >= PREFIX_BYTES
    ensures Size(FRAGMENT_FORMAT) == PREFIX_BYTES && |FRAGMENT_FORMAT| == 9
    ensures Unpack(FRAGMENT_FORMAT, payload[..PREFIX_BYTES])[5] >= 0
  {
    FragmentSize();
    PackOfUnpack(FRAGMENT_FORMAT, payload[..PREFIX_BYTES]);
    assert Fits(FRAGMENT_FORMAT[5], Unpack(FRAGMENT_FORMAT, payload[..PREFIX_BYTES])[5]);
  }

  lemma DecodedIsValid(payload: bytes)
    requires DecodeFragment(payload).Decoded?
    ensures Valid(DecodeFragment(payload).fragment)
  {
    IndexNotNegative(payload);
  }

  // ---------- Reassembly ----------

  predicate SameRecord(a: FragmentHeader, b: FragmentHeader) {
    a.schemaVersion == b.schemaVersion && a.sessionId == b.sessionId && a.captureId == b.captureId
    && a.recordSeq == b.recordSeq && a.recordType == b.recordType && a.fragmentCount == b.fragmentCount
    && a.logicalLength == b.logicalLength && a.logicalCrc16 == b.logicalCrc16
  }

  datatype State = Idle | Active(header: FragmentHeader, next: int, record: bytes)

  datatype Accepted = More | Complete(record: TraceRecord) | Failed(error: TraceError)

  datatype Outcome = Outcome(state: State, result: Accepted)

  /** What a reassembler is set up with: the one session it accepts, or zero for any, and the
      record checksum. The laws below hold for every checksum; the object uses CRC-16. */
  datatype Setup = Setup(session: int, checksum: bytes -> int)

  /** One fragment: every error leaves the reassembler idle, and so does a completed record. */
  function StepFragment(up: Setup, s: State, f: TraceFragment): Outcome {
    if up.session != 0 && f.header.sessionId != up.session then Outcome(Idle, Failed(OtherSession))
    else if s.Idle? then
      if f.header.fragmentIndex != 0 then Outcome(Idle, Failed(FirstOutOfOrder))
      else Extend(up, f.header, 0, [], f)
    else if !SameRecord(s.header, f.header) then Outcome(Idle, Failed(OtherRecord))
    else Extend(up, s.header, s.next, s.record, f)
  }

  function Extend(up: Setup, first: FragmentHeader, next: int, record: bytes, f: TraceFragment): Outcome {
    if f.header.fragmentIndex != next then Outcome(Idle, Failed(OutOfOrder))
    else if |record| + |f.data| > f.header.logicalLength then Outcome(Idle, Failed(ExceedsLength))
    else
      var payload := record + f.data;
      if next + 1 < f.header.fragmentCount then Outcome(Active(first, next + 1, payload), More)
      else if |payload| != f.header.logicalLength then Outcome(Idle, Failed(Truncated))
      else if up.checksum(payload) != f.header.logicalCrc16 then Outcome(Idle, Failed(CrcMismatch))
      else Outcome(Idle, Complete(TraceRecord(first, payload)))
  }

  /** What holds of every state that decoded fragments can lead to. */
  ghost predicate Reachable(s: State) {
    s.Active? ==>
      ValidateHeader(s.header).Fine? && s.header.fragmentIndex == 0
      && 0 < s.next < s.header.fragmentCount && |s.record| == s.next * MAX_FRAGMENT_DATA
  }

  lemma ExtendReachable(up: Setup, first: FragmentHeader, next: int, record: bytes, f: TraceFragment)
    requires Valid(f) && ValidateHeader(first).Fine? && first.fragmentIndex == 0 && SameRecord(first, f.header)
    requires 0 <= next < first.fragmentCount && |record| == next * MAX_FRAGMENT_DATA
    ensures var o := Extend(up, first, next, record, f);
            Reachable(o.state) && o.result != Failed(ExceedsLength) && o.result != Failed(Truncated)
  {
  }

  /** Decoded fragments keep the invariant, and the two length errors cannot happen. */
  lemma AcceptReachable(up: Setup, s: State, f: TraceFragment)
    requires Reachable(s) && Valid(f)
    ensures var o := StepFragment(up, s, f);
            Reachable(o.state) && o.result != Failed(ExceedsLength) && o.result != Failed(Truncated)
            && (o.result.More? <==> o.state.Active?)
  {
    if s.Idle? {
      if f.header.fragmentIndex == 0 {
        ExtendReachable(up, f.header, 0, [], f);
      }
    } else if SameRecord(s.header, f.header) {
      ExtendReachable(up, s.header, s.next, s.record, f);
    }
  }

  // ---------- Whole runs ----------

  /** The state after a run of fragments, started idle. */
  function After(up: Setup, fs: seq<TraceFragment>): State {
    if fs == [] then Idle
    else StepFragment(up, After(up, fs[..|fs| - 1]), fs[|fs| - 1]).state
  }

  lemma AfterSnoc(up: Setup, fs: seq<TraceFragment>, f: TraceFragment)
    ensures After(up, fs + [f]) == StepFragment(up, After(up, fs), f).state
  {
    assert (fs + [f])[..|fs|] == fs;
  }

  function Joined(fs: seq<TraceFragment>): bytes {
    if fs == [] then [] else Joined(fs[..|fs| - 1]) + fs[|fs| - 1].data
  }

  /** Fragments numbered from zero whose headers are otherwise alike and that together hold `data`. */
  ghost predicate Numbered(part: seq<TraceFragment>, first: FragmentHeader, data: bytes) {
    part != [] && part[0].header == first && Joined(part) == data
    && forall i :: 0 <= i < |part| ==> part[i].header == first.(fragmentIndex := i)
  }

  lemma NumberedOne(f: TraceFragment)
    requires f.header.fragmentIndex == 0
    ensures Numbered([f], f.header, f.data)
  {
    assert [f][..0] == [];
    assert [] + f.data == f.data;
  }

  lemma NumberedMore(part: seq<TraceFragment>, f: TraceFragment, first: FragmentHeader, data: bytes)
    requires Numbered(part, first, data) && f.header.fragmentIndex == |part| && SameRecord(first, f.header)
    ensures Numbered(part + [f], first, data + f.data)
  {
    var all := part + [f];
    assert all[..|all| - 1] == part;
  }

  /** The state is explained by the fragments at the end of the run. */
  ghost predicate Explained(s: State, fs: seq<TraceFragment>) {
    s.Active? ==> 0 < s.next <= |fs| && Numbered(fs[|fs| - s.next..], s.header, s.record)
  }

  /** So is a returned record. */
  ghost predicate RecordExplained(up: Setup, r: TraceRecord, fs: seq<TraceFragment>) {
    0 < r.header.fragmentCount <= |fs|
    && Numbered(fs[|fs| - r.header.fragmentCount..], r.header, r.payload)
    && up.checksum(r.payload) == r.header.logicalCrc16 && |r.payload| == r.header.logicalLength
  }

  lemma TailSnoc(fs: seq<TraceFragment>, f: TraceFragment, n: nat)
    requires n <= |fs|
    ensures (fs + [f])[|fs| - n..] == fs[|fs| - n..] + [f]
  {
  }

  /** Extending the record whose fragments so far are `part`. */
  lemma ExtendExplained(up: Setup, first: FragmentHeader, record: bytes, part: seq<TraceFragment>, f: TraceFragment)
    requires Numbered(part + [f], first, record + f.data) && f.header.fragmentIndex == |part| < first.fragmentCount
    ensures var o := Extend(up, first, |part|, record, f);
            (o.state.Active? ==> o.state == Active(first, |part| + 1, record + f.data))
            && (o.result.Complete? ==> o.result.record == TraceRecord(first, record + f.data)
                                       && first.fragmentCount == |part| + 1
                                       && up.checksum(record + f.data) == first.logicalCrc16
                                       && |record + f.data| == first.logicalLength)
  {
    assert (part + [f])[|part|] == f;
  }

  ghost predicate OutcomeExplained(up: Setup, o: Outcome, fs: seq<TraceFragment>) {
    Explained(o.state, fs) && (o.result.Complete? ==> RecordExplained(up, o.result.record, fs))
  }

  lemma StepFromIdle(up: Setup, fs: seq<TraceFragment>, f: TraceFragment)
    requires Valid(f) && f.header.fragmentIndex == 0
    ensures OutcomeExplained(up, Extend(up, f.header, 0, [], f), fs + [f])
  {
    NumberedOne(f);
    assert [] + [f] == [f] && [] + f.data == f.data;
    ExtendExplained(up, f.header, [], [], f);
    TailSnoc(fs, f, 0);
  }

  lemma StepFromActive(up: Setup, s: State, fs: seq<TraceFragment>, f: TraceFragment)
    requires Reachable(s) && Explained(s, fs) && s.Active?
    requires SameRecord(s.header, f.header) && f.header.fragmentIndex == s.next
    ensures OutcomeExplained(up, Extend(up, s.header, s.next, s.record, f), fs + [f])
  {
    var part := fs[|fs| - s.next..];
    NumberedMore(part, f, s.header, s.record);
    ExtendExplained(up, s.header, s.record, part, f);
    TailSnoc(fs, f, s.next);
  }

  /** One more fragment on an explained run. */
  lemma StepExplained(up: Setup, s: State, fs: seq<TraceFragment>, f: TraceFragment)
    requires Reachable(s) && Explained(s, fs) && Valid(f)
    ensures OutcomeExplained(up, StepFragment(up, s, f), fs + [f])
  {
    if s.Idle? {
      if f.header.fragmentIndex == 0 {
        StepFromIdle(up, fs, f);
      }
    } else if SameRecord(s.header, f.header) && f.header.fragmentIndex == s.next {
      StepFromActive(up, s, fs, f);
    }
  }

  lemma {:induction false} RunExplained(up: Setup, fs: seq<TraceFragment>)
    requires forall f :: f in fs ==> Valid(f)
    ensures Reachable(After(up, fs)) && Explained(After(up, fs), fs)
  {
    if fs != [] {
      var front, f := fs[..|fs| - 1], fs[|fs| - 1];
      RunExplained(up, front);
      AcceptReachable(up, After(up, front), f);
      StepExplained(up, After(up, front), front, f);
      assert fs == front + [f];
    }
  }

  /** Any returned record is the in-order concatenation of all its fragments, which are the
      last ones fed, with nothing between them; its length and checksum are right; and the
      reassembler is idle again. */
  lemma RecordIsItsFragments(up: Setup, fs: seq<TraceFragment>, f: TraceFragment)
    requires (forall x :: x in fs ==> Valid(x)) && Valid(f)
    requires StepFragment(up, After(up, fs), f).result.Complete?
    ensures RecordExplained(up, StepFragment(up, After(up, fs), f).result.record, fs + [f])
    ensures StepFragment(up, After(up, fs), f).state == Idle
  {
    RunExplained(up, fs);
    AcceptReachable(up, After(up, fs), f);
    StepExplained(up, After(up, fs), fs, f);
  }

  // ---------- Cutting a record into fragments ----------

  /** The header of a record's first fragment, as the firmware must set it. */
  ghost predicate Describes(up: Setup, h: FragmentHeader, record: bytes) {
    ValidateHeader(h).Fine? && h.fragmentIndex == 0 && h.logicalLength == |record|
    && h.logicalCrc16 == up.checksum(record) && (up.session == 0 || h.sessionId == up.session)
  }

  function Min(a: int, b: int): int {
    if a < b then a else b
  }

  /** The `i`th fragment of a record. */
  function Piece(h: FragmentHeader, record: bytes, i: nat): TraceFragment {
    var from, to := Min(i * MAX_FRAGMENT_DATA, |record|), Min((i + 1) * MAX_FRAGMENT_DATA, |record|);
    TraceFragment(h.(fragmentIndex := i), record[from..to])
  }

  /** The first `n` fragments of a record. */
  function Pieces(h: FragmentHeader, record: bytes, n: nat): seq<TraceFragment> {
    if n == 0 then [] else Pieces(h, record, n - 1) + [Piece(h, record, n - 1)]
  }

  lemma PieceValid(up: Setup, h: FragmentHeader, record: bytes, i: nat)
    requires Describes(up, h, record) && i < h.fragmentCount
    ensures i * MAX_FRAGMENT_DATA < |record| && Valid(Piece(h, record, i))
  {
  }

  lemma AcceptPiece(up: Setup, h: FragmentHeader, record: bytes, i: nat, s: State)
    requires Describes(up, h, record) && i < h.fragmentCount && i * MAX_FRAGMENT_DATA < |record|
    requires s == Partial(h, record, i)
    ensures i + 1 < h.fragmentCount ==>
              (i + 1) * MAX_FRAGMENT_DATA < |record|
              && StepFragment(up, s, Piece(h, record, i)) == Outcome(Partial(h, record, i + 1), More)
    ensures i + 1 == h.fragmentCount ==>
              StepFragment(up, s, Piece(h, record, i)) == Outcome(Idle, Complete(TraceRecord(h, record)))
  {
    var f, at := Piece(h, record, i), i * MAX_FRAGMENT_DATA;
    PieceValid(up, h, record, i);
    assert record[..at] + f.data == record[..at + |f.data|];
    if i + 1 == h.fragmentCount {
      assert record[..|record|] == record;
    }
    if i == 0 {
      assert f.header == h && record[..0] == [];
    }
  }

  /** The reassembler with the first `n` fragments of a record in it. */
  function Partial(h: FragmentHeader, record: bytes, n: nat): State
    requires n * MAX_FRAGMENT_DATA < |record|
  {
    if n == 0 then Idle else Active(h, n, record[..n * MAX_FRAGMENT_DATA])
  }

  lemma {:induction false} AfterPieces(up: Setup, h: FragmentHeader, record: bytes, n: nat)
    requires Describes(up, h, record) && n < h.fragmentCount && n * MAX_FRAGMENT_DATA < |record|
    ensures After(up, Pieces(h, record, n)) == Partial(h, record, n)
  {
    if n != 0 {
      AfterPieces(up, h, record, n - 1);
      AcceptPiece(up, h, record, n - 1, After(up, Pieces(h, record, n - 1)));
      AfterSnoc(up, Pieces(h, record, n - 1), Piece(h, record, n - 1));
    }
  }

  /** Feeding a record's fragments in order returns nothing before the last one and exactly
      the record on it. */
  lemma CutRecordComesBack(up: Setup, h: FragmentHeader, record: bytes, n: nat)
    requires Describes(up, h, record) && n < h.fragmentCount
    ensures n * MAX_FRAGMENT_DATA < |record|
    ensures StepFragment(up, After(up, Pieces(h, record, n)), Piece(h, record, n)).result
         == if n + 1 < h.fragmentCount then More else Complete(TraceRecord(h, record))
  {
    PieceValid(up, h, record, n);
    AfterPieces(up, h, record, n);
    AcceptPiece(up, h, record, n, After(up, Pieces(h, record, n)));
  }

  // ---------- The envelope round trip ----------

  predicate HeaderFits(h: FragmentHeader) {
    AllFit(FRAGMENT_FORMAT, Fields(h))
  }

  function EventPayload(f: TraceFragment): bytes
    requires HeaderFits(f.header)
  {
    PackFits(FRAGMENT_FORMAT, Fields(f.header)) + f.data
  }

  /** A valid fragment survives the wire. */
  lemma DecodeEventPayload(f: TraceFragment)
    requires Valid(f) && HeaderFits(f.header)
    ensures DecodeFragment(EventPayload(f)) == Decoded(f)
  {
    FragmentSize();
    UnpackOfPack(FRAGMENT_FORMAT, Fields(f.header));
    var p := EventPayload(f);
    assert p[..PREFIX_BYTES] == PackFits(FRAGMENT_FORMAT, Fields(f.header)) && p[PREFIX_BYTES..] == f.data;
    var v := Fields(f.header);
    assert HeaderOf(v, RECORD_TYPES[v[4]]) == f.header;
  }

  // ---------- The envelope by byte position ----------

  lemma EnvelopeStarts()
    ensures O.Start(FRAGMENT_FORMAT, 0) == 0 && O.Start(FRAGMENT_FORMAT, 1) == 2 && O.Start(FRAGMENT_FORMAT, 2) == 6
    ensures O.Start(FRAGMENT_FORMAT, 3) == 10 && O.Start(FRAGMENT_FORMAT, 4) == 14 && O.Start(FRAGMENT_FORMAT, 5) == 15
    ensures O.Start(FRAGMENT_FORMAT, 6) == 16 && O.Start(FRAGMENT_FORMAT, 7) == 17 && O.Start(FRAGMENT_FORMAT, 8) == 19
  {
    var f := FRAGMENT_FORMAT;
    O.Starts(f);
    assert f[0] == U16 && f[1] == U32 && f[2] == U32 && f[3] == U32 && f[4] == U8 && f[5] == U8 && f[6] == U8 && f[7] == U16;
  }

  lemma {:induction false} EnvelopeField(b: bytes, j: nat)
    requires |b| >= PREFIX_BYTES && j < 9
    ensures Size(FRAGMENT_FORMAT) == PREFIX_BYTES && |FRAGMENT_FORMAT| == 9
    ensures O.Start(FRAGMENT_FORMAT, j) + Width(FRAGMENT_FORMAT[j]) <= |b|
    ensures Unpack(FRAGMENT_FORMAT, b[..PREFIX_BYTES])[j]
         == O.ValueAt(FRAGMENT_FORMAT[j], b, O.Start(FRAGMENT_FORMAT, j))
  {
    FragmentSize();
    assert b[..PREFIX_BYTES] == b[0..0 + PREFIX_BYTES];
    O.FieldIn(FRAGMENT_FORMAT, b, 0, b[..PREFIX_BYTES], Unpack(FRAGMENT_FORMAT, b[..PREFIX_BYTES]), j, O.Start(FRAGMENT_FORMAT, j));
  }

  lemma EnvelopeBytes(b: bytes)
    requires |b| >= PREFIX_BYTES
    ensures Size(FRAGMENT_FORMAT) == PREFIX_BYTES && |FRAGMENT_FORMAT| == 9
    ensures Unpack(FRAGMENT_FORMAT, b[..PREFIX_BYTES])
         == [O.U16At(b, 0), O.U32At(b, 2), O.U32At(b, 6), O.U32At(b, 10), O.U8At(b, 14)]
          + [O.U8At(b, 15), O.U8At(b, 16), O.U16At(b, 17), O.U16At(b, 19)]
  {
    EnvelopeStarts();
    EnvelopeField(b, 0);
    EnvelopeField(b, 1);
    EnvelopeField(b, 2);
    EnvelopeField(b, 3);
    EnvelopeField(b, 4);
    EnvelopeField(b, 5);
    EnvelopeField(b, 6);
    EnvelopeField(b, 7);
    EnvelopeField(b, 8);
  }

  /** The numbers record types have on the wire. */
  predicate TypeCode(t: RecordType, code: int) {
    match t
    case BEGIN => code == 0
    case CONFIG => code == 1
    case STEP => code == 2
    case MARKER => code == 3
    case OUTPUT_BLOCKED => code == 4
    case END => code == 5
  }

  /** What an event payload must be: schema 1, a session and a capture, a known type, a fragment
      number below the count, a record of 1 to 960 bytes cut into that many fragments of 235,
      and exactly the data of this fragment. */
  predicate Acceptable(b: bytes) {
    21 <= |b| <= 256 && O.U16At(b, 0) == 1 && O.U32At(b, 2) != 0 && O.U32At(b, 6) != 0 && O.U8At(b, 14) <= 5
    && var index, count, length := O.U8At(b, 15), O.U8At(b, 16), O.U16At(b, 17);
       index < count && 0 < length <= 960 && 235 * (count - 1) < length <= 235 * count
       && (if index == count - 1 then |b| - 21 == length - 235 * index else |b| - 21 == 235)
  }

  lemma CountIs(length: int, count: int)
    requires length > 0
    ensures count == FragmentCount(length) <==> 235 * (count - 1) < length <= 235 * count
  {
  }

  /** A payload is decoded exactly when it is acceptable, to the fields at their bytes and the
      data after them. */
  lemma DecodedIff(b: bytes)
    ensures DecodeFragment(b).Decoded? <==> Acceptable(b)
    ensures DecodeFragment(b).Decoded? ==>
              var f := DecodeFragment(b).fragment;
              TypeCode(f.header.recordType, O.U8At(b, 14)) && f.data == b[21..]
              && f.header == FragmentHeader(1, O.U32At(b, 2), O.U32At(b, 6), O.U32At(b, 10), f.header.recordType,
                                            O.U8At(b, 15), O.U8At(b, 16), O.U16At(b, 17), O.U16At(b, 19))
  {
    if 21 <= |b| <= 256 {
      EnvelopeBytes(b);
      if O.U16At(b, 17) > 0 {
        CountIs(O.U16At(b, 17), O.U8At(b, 16));
      }
    }
  }

  // ---------- The object ----------

  class TraceReassembler {
    var active: bool
    var header: FragmentHeader
    var nextFragment: int
    var record: bytes
    const up: Setup

    ghost function Abstract(): State
      reads this
    {
      if active then Active(header, nextFragment, record) else Idle
    }

    /** `expected_session_id` zero is refused by the source; here zero stands for none given. */
    constructor (session: int)
      ensures Abstract() == Idle && up == Setup(session, Crc16Of)
    {
      up := Setup(session, Crc16Of);
      active, nextFragment, record := false, 0, [];
      header := FragmentHeader(0, 0, 0, 0, BEGIN, 0, 0, 0, 0);
    }

    method Reset()
      modifies this
      ensures Abstract() == Idle
    {
      active, nextFragment, record := false, 0, [];
    }

    /** Take one fragment: the checks in order, then extend, then finish or wait. */
    method Accept(f: TraceFragment) returns (r: Accepted)
      modifies this
      ensures r == StepFragment(up, old(Abstract()), f).result
      ensures Abstract() == StepFragment(up, old(Abstract()), f).state
    {
      if up.session != 0 && f.header.sessionId != up.session {
        Reset();
        return Failed(OtherSession);
      }
      if !active {
        if f.header.fragmentIndex != 0 {
          Reset();
          return Failed(FirstOutOfOrder);
        }
        active, header, nextFragment, record := true, f.header, 0, [];
      } else if !SameRecord(header, f.header) {
        Reset();
        return Failed(OtherRecord);
      }
      if f.header.fragmentIndex != nextFragment {
        Reset();
        return Failed(OutOfOrder);
      }
      if |record| + |f.data| > f.header.logicalLength {
        Reset();
        return Failed(ExceedsLength);
      }
      record := record + f.data;
      nextFragment := nextFragment + 1;
      if nextFragment < f.header.fragmentCount {
        return More;
      }
      var payload, first := record, header;
      Reset();
      if |payload| != f.header.logicalLength {
        return Failed(Truncated);
      }
      if up.checksum(payload) != f.header.logicalCrc16 {
        return Failed(CrcMismatch);
      }
      return Complete(TraceRecord(first, payload));
    }
  }
}
