/**
  The trace assembler: an ordered stream of HIL events becomes one complete capture, or is
  refused. Record bodies are read by a parser given from outside; the laws hold for every
  such parser.
  */
module HilAssembler {
  import opened Struct
  import F = HilFragments

  const TRACE_FRAGMENT_EVENT := 0xA0
  const OUTPUT_BLOCKED_EVENT := 0xA1
  const COMPLETE := 0

  /** A parsed record: the fields the assembler looks at; `rest` stands for the others. */
  datatype Parsed =
    | Begin(sessionId: int, captureId: int, configRevision: int, configCrc16: int, requestedSteps: int, rest: bytes)
    | Config(revision: int, valid: bool, persistent: bool, payloadCrc16: int, rest: bytes)
    | Step(stepSequence: int, revision: int, valid: bool, persistent: bool, rest: bytes)
    | Marker(stepSequence: int, rest: bytes)
    | Blocked(stepSequence: int, rest: bytes)
    | End(reason: int, requestedSteps: int, recordedSteps: int, emittedRecords: int, emittedFragments: int, rest: bytes)

  function Kind(p: Parsed): F.RecordType {
    match p
    case Begin(_, _, _, _, _, _) => F.BEGIN
    case Config(_, _, _, _, _) => F.CONFIG
    case Step(_, _, _, _, _) => F.STEP
    case Marker(_, _) => F.MARKER
    case Blocked(_, _) => F.OUTPUT_BLOCKED
    case End(_, _, _, _, _, _) => F.END
  }

  datatype Body = Read(parsed: Parsed) | Unreadable

  /** What an assembler is built on: the reassembler's set-up, the fragment decoder and the
      body parser. The laws hold for every decoder that is `Checked`. */
  datatype Setup = Setup(fragments: F.Setup, decode: bytes -> F.FragmentResult, body: F.TraceRecord -> Body)

  /** The decoder lets only valid fragments through. */
  ghost predicate Checked(up: Setup) {
    forall payload :: up.decode(payload).Decoded? ==> F.Valid(up.decode(payload).fragment)
  }

  lemma DecodeFragmentChecked(up: Setup)
    requires up.decode == F.DecodeFragment
    ensures Checked(up)
  {
    forall payload | up.decode(payload).Decoded? ensures F.Valid(up.decode(payload).fragment) {
      F.DecodedIsValid(payload);
    }
  }

  datatype ParseResult = Good(parsed: Parsed) | Wrong(error: F.TraceError)

  /** The checksum again, the body by record type, then the checks that tie it to its envelope. */
  function ParseRecord(up: Setup, r: F.TraceRecord): ParseResult {
    if up.fragments.checksum(r.payload) != r.header.logicalCrc16 then Wrong(F.CrcMismatch)
    else
      var b := up.body(r);
      if b.Unreadable? || Kind(b.parsed) != r.header.recordType then Wrong(F.BadBody)
      else if b.parsed.Begin?
              && (b.parsed.sessionId != r.header.sessionId || b.parsed.captureId != r.header.captureId
                  || !(1 <= b.parsed.requestedSteps <= 32)) then Wrong(F.BadBody)
      else if b.parsed.End? && b.parsed.recordedSteps > b.parsed.requestedSteps then Wrong(F.BadBody)
      else Good(b.parsed)
  }

  /** The ties between a body and the envelope it came in: its type, and for Begin its session
      and capture, with 1 to 32 steps asked for. */
  predicate Tied(h: F.FragmentHeader, p: Parsed) {
    Kind(p) == h.recordType
    && (p.Begin? ==> p.sessionId == h.sessionId && p.captureId == h.captureId && 1 <= p.requestedSteps <= 32)
  }

  /** End records no more steps than were asked for. */
  predicate EndWithin(p: Parsed) {
    p.End? ==> p.recordedSteps <= p.requestedSteps
  }

  /** A record is parsed exactly when its checksum is right, its body can be read and is tied to
      the envelope, and then to that body. */
  lemma ParsedIff(up: Setup, r: F.TraceRecord, p: Parsed)
    ensures ParseRecord(up, r) == Good(p) <==>
              up.fragments.checksum(r.payload) == r.header.logicalCrc16 && up.body(r) == Read(p)
              && Tied(r.header, p) && EndWithin(p)
  {
  }

  // ---------- What a well-formed capture is ----------

  /** The records of one kind, in order. */
  function Select(rs: seq<Parsed>, k: F.RecordType): seq<Parsed> {
    if rs == [] then []
    else
      var front, p := Select(rs[..|rs| - 1], k), rs[|rs| - 1];
      if Kind(p) == k then front + [p] else front
  }

  function Sum(counts: seq<int>): int {
    if counts == [] then 0 else Sum(counts[..|counts| - 1]) + counts[|counts| - 1]
  }

  /** Record `p` may follow the records `pre`, whose fragment counts are `counts`. */
  predicate Admits(pre: seq<Parsed>, counts: seq<int>, p: Parsed) {
    if pre == [] then p.Begin?
    else
      var begin, steps, configs := pre[0], Select(pre, F.STEP), Select(pre, F.CONFIG);
      begin.Begin? && Select(pre, F.END) == []
      && match p
         case Begin(_, _, _, _, _, _) => false
         case Config(revision, _, _, crc, _) =>
           configs == [] && steps == [] && revision == begin.configRevision && crc == begin.configCrc16
         case Step(n, revision, valid, persistent, _) =>
           |configs| == 1 && configs[0].Config? && revision == configs[0].revision && valid == configs[0].valid
           && persistent == configs[0].persistent && n == |steps| + 1 && |steps| < begin.requestedSteps
         case Marker(n, _) => 1 <= n <= |steps|
         case Blocked(n, _) => 1 <= n <= |steps|
         case End(reason, requested, recorded, records, fragments, _) =>
           |configs| == 1 && requested == begin.requestedSteps && recorded == |steps|
           && records == |pre| && fragments == Sum(counts) && (reason == COMPLETE ==> recorded == requested)
  }

  predicate WellFormed(rs: seq<Parsed>, counts: seq<int>) {
    |rs| == |counts|
    && (rs == [] || (var n := |rs| - 1; WellFormed(rs[..n], counts[..n]) && Admits(rs[..n], counts[..n], rs[n])))
  }

  // ---------- The state machine ----------

  datatype Maybe = Absent | Present(value: Parsed)

  /** `counts` records the fragment count of every accepted record. */
  datatype Fields = State(
    reassembly: F.State, begin: Maybe, config: Maybe, end: Maybe, nextSeq: int, records: seq<Parsed>,
    steps: seq<Parsed>, markers: seq<Parsed>, blocked: seq<Parsed>, fragmentsBeforeEnd: int, counts: seq<int>)

  /** The records the fields hold have the constructors they are named for. */
  ghost predicate Typed(st: Fields) {
    (st.begin.Present? ==> st.begin.value.Begin?) && (st.config.Present? ==> st.config.value.Config?)
  }

  type State = st: Fields | Typed(st) witness State(F.Idle, Absent, Absent, Absent, 1, [], [], [], [], 0, [])

  const FRESH: State := State(F.Idle, Absent, Absent, Absent, 1, [], [], [], [], 0, [])

  datatype Result = Nothing | Returned(parsed: Parsed) | Raised(error: F.TraceError)

  datatype Outcome = Outcome(state: State, result: Result)

  /** A record after Begin: which list it goes to, or why it is refused. */
  function Following(st: State, p: Parsed): Outcome
    requires st.begin.Present?
  {
    var begin := st.begin.value;
    match p
    case Begin(_, _, _, _, _, _) => Outcome(st, Raised(F.SecondBegin))
    case Config(revision, _, _, crc, _) =>
      if st.config.Present? || st.steps != [] then Outcome(st, Raised(F.ConfigTwice))
      else if revision != begin.configRevision then Outcome(st, Raised(F.ConfigRevision))
      else if crc != begin.configCrc16 then Outcome(st, Raised(F.ConfigCrc))
      else Outcome(st.(config := Present(p)), Nothing)
    case Step(n, revision, valid, persistent, _) =>
      if st.config.Absent? then Outcome(st, Raised(F.StepBeforeConfig))
      else if revision != st.config.value.revision || valid != st.config.value.valid
              || persistent != st.config.value.persistent then Outcome(st, Raised(F.StepConfig))
      else if n != |st.steps| + 1 then Outcome(st, Raised(F.StepGap))
      else if |st.steps| >= begin.requestedSteps then Outcome(st, Raised(F.TooManySteps))
      else Outcome(st.(steps := st.steps + [p]), Nothing)
    case Marker(n, _) =>
      if !(1 <= n <= |st.steps|) then Outcome(st, Raised(F.NoSuchStep))
      else Outcome(st.(markers := st.markers + [p]), Nothing)
    case Blocked(n, _) =>
      if !(1 <= n <= |st.steps|) then Outcome(st, Raised(F.NoSuchStep))
      else Outcome(st.(blocked := st.blocked + [p]), Nothing)
    case End(reason, requested, recorded, records, fragments, _) =>
      if st.config.Absent? then Outcome(st, Raised(F.EndBeforeConfig))
      else if requested != begin.requestedSteps || recorded != |st.steps| || records != |st.records|
              || fragments != st.fragmentsBeforeEnd || (reason == COMPLETE && recorded != requested)
           then Outcome(st, Raised(F.EndCounters))
      else Outcome(st.(end := Present(p)), Nothing)
  }

  function Append(st: State, h: F.FragmentHeader, p: Parsed): State {
    st.(records := st.records + [p], counts := st.counts + [h.fragmentCount],
        fragmentsBeforeEnd := if p.End? then st.fragmentsBeforeEnd else st.fragmentsBeforeEnd + h.fragmentCount)
  }

  /** One logical record; what is written before an error stays written. */
  function AcceptRecord(up: Setup, st: State, h: F.FragmentHeader, p: Parsed): Outcome
  {
    if h.recordSeq != st.nextSeq then Outcome(st, Raised(F.SequenceGap))
    else
      var st1 := st.(nextSeq := st.nextSeq + 1);
      if st.begin.Absent? then
        if !p.Begin? then Outcome(st1, Raised(F.BeginNotFirst))
        else
          var st2 := st1.(begin := Present(p));
          if up.fragments.session != 0 && p.sessionId != up.fragments.session
          then Outcome(st2, Raised(F.BeginOtherSession))
          else Outcome(Append(st2, h, p), Returned(p))
      else if h.sessionId != st.begin.value.sessionId || h.captureId != st.begin.value.captureId
      then Outcome(st1, Raised(F.OtherCapture))
      else
        var o := Following(st1, p);
        if o.result.Raised? then o else Outcome(Append(o.state, h, p), Returned(p))
  }

  // ---------- The invariant ----------

  function Listed(m: Maybe): seq<Parsed> {
    if m.Present? then [m.value] else []
  }

  /** The fields are views of the list of accepted records, which is always well-formed. */
  ghost predicate Consistent(st: State) {
    WellFormed(st.records, st.counts)
    && (st.begin.Absent? <==> st.records == [])
    && (st.begin.Present? ==> st.records[0] == st.begin.value && st.begin.value.Begin?)
    && Listed(st.config) == Select(st.records, F.CONFIG) && Listed(st.end) == Select(st.records, F.END)
    && (st.config.Present? ==> st.config.value.Config?)
    && st.steps == Select(st.records, F.STEP) && st.markers == Select(st.records, F.MARKER)
    && st.blocked == Select(st.records, F.OUTPUT_BLOCKED)
    && (st.end.Absent? ==> st.fragmentsBeforeEnd == Sum(st.counts))
  }

  lemma SelectSnoc(rs: seq<Parsed>, p: Parsed, k: F.RecordType)
    ensures Select(rs + [p], k) == if Kind(p) == k then Select(rs, k) + [p] else Select(rs, k)
  {
    assert (rs + [p])[..|rs|] == rs;
  }

  lemma SumSnoc(counts: seq<int>, c: int)
    ensures Sum(counts + [c]) == Sum(counts) + c
  {
    assert (counts + [c])[..|counts|] == counts;
  }

  lemma WellFormedSnoc(rs: seq<Parsed>, counts: seq<int>, p: Parsed, c: int)
    requires WellFormed(rs, counts)
    ensures WellFormed(rs + [p], counts + [c]) <==> Admits(rs, counts, p)
  {
    assert (rs + [p])[..|rs|] == rs && (counts + [c])[..|counts|] == counts;
  }

  /** The header fits the session and the body was tied to it when it was parsed. */
  predicate Bound(up: Setup, h: F.FragmentHeader, p: Parsed) {
    (up.fragments.session != 0 ==> h.sessionId == up.fragments.session)
    && (p.Begin? ==> p.sessionId == h.sessionId)
  }

  lemma FollowingAdmits(st: State, p: Parsed)
    requires Consistent(st) && st.begin.Present? && st.end.Absent?
    ensures Following(st, p).result.Raised? <==> !Admits(st.records, st.counts, p)
    ensures Following(st, p).result.Raised? ==> Following(st, p).state == st
  {
  }

  lemma SelectAll(rs: seq<Parsed>, p: Parsed)
    ensures forall k :: Select(rs + [p], k) == if Kind(p) == k then Select(rs, k) + [p] else Select(rs, k)
  {
    forall k ensures Select(rs + [p], k) == if Kind(p) == k then Select(rs, k) + [p] else Select(rs, k) {
      SelectSnoc(rs, p, k);
    }
  }

  /** The record is the next one of the capture that is under way. */
  predicate Next(st: State, h: F.FragmentHeader) {
    h.recordSeq == st.nextSeq
    && (st.begin.Present? ==>
          st.begin.value.Begin? && h.sessionId == st.begin.value.sessionId && h.captureId == st.begin.value.captureId)
  }

  lemma SelectNothing()
    ensures forall k :: Select([], k) == []
  {
  }

  /** Begin opens the capture. */
  lemma OpeningConsistent(st: State, h: F.FragmentHeader, p: Parsed)
    requires Consistent(st) && st.begin.Absent? && p.Begin?
    ensures Consistent(Append(st.(begin := Present(p)), h, p))
  {
    SelectNothing();
    SelectAll(st.records, p);
    SumSnoc(st.counts, h.fragmentCount);
    WellFormedSnoc(st.records, st.counts, p, h.fragmentCount);
  }

  /** An admitted record goes to the one list that is the view of its kind. */
  lemma FollowingConsistent(st: State, h: F.FragmentHeader, p: Parsed)
    requires Consistent(st) && st.begin.Present? && st.end.Absent? && Admits(st.records, st.counts, p)
    ensures var o := Following(st, p);
            Consistent(Append(o.state, h, p)) && o.result == Nothing
            && o.state.records == st.records && o.state.counts == st.counts && o.state.nextSeq == st.nextSeq
  {
    FollowingAdmits(st, p);
    SelectAll(st.records, p);
    SumSnoc(st.counts, h.fragmentCount);
    WellFormedSnoc(st.records, st.counts, p, h.fragmentCount);
  }

  /** What accepting a record does to the state. */
  ghost predicate Taken(st: State, h: F.FragmentHeader, p: Parsed, o: Outcome) {
    if Next(st, h) && Admits(st.records, st.counts, p) then
      o.result == Returned(p) && o.state.records == st.records + [p]
      && o.state.counts == st.counts + [h.fragmentCount] && o.state.nextSeq == st.nextSeq + 1
    else
      o.result.Raised?
      && o.state == if h.recordSeq == st.nextSeq then st.(nextSeq := st.nextSeq + 1) else st
  }

  lemma AcceptFirst(up: Setup, st: State, h: F.FragmentHeader, p: Parsed)
    requires Consistent(st) && st.begin.Absent? && st.end.Absent? && Bound(up, h, p)
    ensures Consistent(AcceptRecord(up, st, h, p).state) && Taken(st, h, p, AcceptRecord(up, st, h, p))
    ensures AcceptRecord(up, st, h, p).state.reassembly == st.reassembly
  {
    if p.Begin? {
      OpeningConsistent(st.(nextSeq := st.nextSeq + 1), h, p);
    }
  }

  lemma LaterIsFollowing(up: Setup, st: State, h: F.FragmentHeader, p: Parsed)
    requires st.begin.Present? && Next(st, h)
    ensures var o := Following(st.(nextSeq := st.nextSeq + 1), p);
            AcceptRecord(up, st, h, p) == if o.result.Raised? then o else Outcome(Append(o.state, h, p), Returned(p))
  {
  }

  lemma AcceptAdmitted(up: Setup, st: State, h: F.FragmentHeader, p: Parsed)
    requires Consistent(st) && st.begin.Present? && st.end.Absent? && Next(st, h)
    requires Admits(st.records, st.counts, p)
    ensures Consistent(AcceptRecord(up, st, h, p).state) && Taken(st, h, p, AcceptRecord(up, st, h, p))
    ensures AcceptRecord(up, st, h, p).state.reassembly == st.reassembly
  {
    LaterIsFollowing(up, st, h, p);
    FollowingConsistent(st.(nextSeq := st.nextSeq + 1), h, p);
  }

  lemma AcceptRefused(up: Setup, st: State, h: F.FragmentHeader, p: Parsed)
    requires Consistent(st) && st.begin.Present? && st.end.Absent? && Next(st, h)
    requires !Admits(st.records, st.counts, p)
    ensures Consistent(AcceptRecord(up, st, h, p).state) && Taken(st, h, p, AcceptRecord(up, st, h, p))
    ensures AcceptRecord(up, st, h, p).state.reassembly == st.reassembly
  {
    LaterIsFollowing(up, st, h, p);
    FollowingAdmits(st.(nextSeq := st.nextSeq + 1), p);
  }

  /** A record is taken exactly when it may come next, and then it is appended; a refused one
      changes nothing but the expected number. The fields keep mirroring the list. */
  lemma AcceptKeepsConsistent(up: Setup, st: State, h: F.FragmentHeader, p: Parsed)
    requires Consistent(st) && st.end.Absent? && Bound(up, h, p)
    ensures Consistent(AcceptRecord(up, st, h, p).state) && Taken(st, h, p, AcceptRecord(up, st, h, p))
    ensures AcceptRecord(up, st, h, p).state.reassembly == st.reassembly
  {
    if st.begin.Absent? {
      AcceptFirst(up, st, h, p);
    } else if Next(st, h) {
      if Admits(st.records, st.counts, p) {
        AcceptAdmitted(up, st, h, p);
      } else {
        AcceptRefused(up, st, h, p);
      }
    }
  }

  // ---------- Events ----------

  datatype Event = Event(id: int, payload: bytes)

  /** Output-blocked records have an event identifier of their own. */
  predicate RightEvent(id: int, t: F.RecordType) {
    if t == F.OUTPUT_BLOCKED then id == OUTPUT_BLOCKED_EVENT else id == TRACE_FRAGMENT_EVENT
  }

  function AcceptFragment(up: Setup, st: State, f: F.TraceFragment): Outcome
  {
    var step := F.StepFragment(up.fragments, st.reassembly, f);
    var st1 := st.(reassembly := step.state);
    match step.result
    case Failed(e) => Outcome(st1, Raised(e))
    case More => Outcome(st1, Nothing)
    case Complete(record) =>
      match ParseRecord(up, record)
      case Wrong(e) => Outcome(st1, Raised(e))
      case Good(p) => AcceptRecord(up, st1, record.header, p)
  }

  function AcceptEvent(up: Setup, st: State, e: Event): Outcome
  {
    if st.end.Present? then Outcome(st, Raised(F.AfterEnd))
    else if e.id != TRACE_FRAGMENT_EVENT && e.id != OUTPUT_BLOCKED_EVENT then Outcome(st, Raised(F.UnsupportedEvent))
    else
      match up.decode(e.payload)
      case Malformed(error) => Outcome(st, Raised(error))
      case Decoded(f) =>
        if !RightEvent(e.id, f.header.recordType) then Outcome(st, Raised(F.WrongEvent))
        else AcceptFragment(up, st, f)
  }

  /** An event with an identifier that is not one of the two, a payload that does not decode, or
      the identifier of the other kind of record raises, and changes nothing. */
  lemma WrongEventRaises(up: Setup, st: State, e: Event)
    requires (e.id != 0xA0 && e.id != 0xA1) || up.decode(e.payload).Malformed?
             || (up.decode(e.payload).fragment.header.recordType == F.OUTPUT_BLOCKED) != (e.id == 0xA1)
    ensures AcceptEvent(up, st, e).result.Raised? && AcceptEvent(up, st, e).state == st
  {
  }

  /** How many fragments of the record under way the reassembler holds. */
  function Held(s: F.State): int {
    if s.Active? then s.next else 0
  }

  /** A completed record's header carries the configured session, and its fragment count is
      the number of fragments that were put together. */
  lemma CompletedHeader(up: Setup, s: F.State, f: F.TraceFragment)
    requires F.Reachable(s) && F.Valid(f) && F.StepFragment(up.fragments, s, f).result.Complete?
    ensures var h := F.StepFragment(up.fragments, s, f).result.record.header;
            (up.fragments.session != 0 ==> h.sessionId == up.fragments.session)
            && h.fragmentCount == Held(s) + 1
  {
  }

  /** The invariant of every run. */
  ghost predicate Sound(st: State) {
    Consistent(st) && F.Reachable(st.reassembly) && (st.end.Present? ==> st.reassembly.Idle?)
  }

  /** Fragments in the records taken so far and in the one under way. */
  function Progress(st: State): int {
    Sum(st.counts) + Held(st.reassembly)
  }

  lemma CompletedRecord(up: Setup, st: State, r: F.TraceRecord, n: int)
    requires Sound(st) && st.end.Absent? && st.reassembly.Idle?
    requires up.fragments.session != 0 ==> r.header.sessionId == up.fragments.session
    requires r.header.fragmentCount == n && ParseRecord(up, r).Good?
    ensures var o := AcceptRecord(up, st, r.header, ParseRecord(up, r).parsed);
            Sound(o.state) && (!o.result.Raised? ==> Progress(o.state) == Sum(st.counts) + n)
  {
    AcceptKeepsConsistent(up, st, r.header, ParseRecord(up, r).parsed);
    SumSnoc(st.counts, n);
  }

  /** Every fragment keeps the invariant, and one that does not raise is counted once. */
  lemma FragmentSound(up: Setup, st: State, f: F.TraceFragment)
    requires Sound(st) && st.end.Absent? && F.Valid(f)
    ensures var o := AcceptFragment(up, st, f);
            Sound(o.state) && (!o.result.Raised? ==> Progress(o.state) == Progress(st) + 1)
  {
    F.AcceptReachable(up.fragments, st.reassembly, f);
    var step := F.StepFragment(up.fragments, st.reassembly, f);
    if step.result.Complete? {
      CompletedHeader(up, st.reassembly, f);
      if ParseRecord(up, step.result.record).Good? {
        CompletedRecord(up, st.(reassembly := F.Idle), step.result.record, Held(st.reassembly) + 1);
      }
    }
  }

  lemma EventSound(up: Setup, st: State, e: Event)
    requires Checked(up) && Sound(st)
    ensures var o := AcceptEvent(up, st, e);
            Sound(o.state) && (!o.result.Raised? ==> Progress(o.state) == Progress(st) + 1)
            && (st.end.Present? ==> o.state == st && o.result.Raised?)
  {
    var d := up.decode(e.payload);
    if st.end.Absent? && d.Decoded? {
      FragmentSound(up, st, d.fragment);
    }
  }

  // ---------- Whole runs ----------

  datatype Call = Accept(event: Event) | Reset

  /** The reassembler keeps its partial record across a reset of the assembler. */
  function StepCall(up: Setup, st: State, c: Call): State
  {
    match c
    case Accept(e) => AcceptEvent(up, st, e).state
    case Reset => FRESH.(reassembly := st.reassembly)
  }

  /** The state after any calls at all, whether they raise or not. */
  function Run(up: Setup, calls: seq<Call>): State
  {
    if calls == [] then FRESH else StepCall(up, Run(up, calls[..|calls| - 1]), calls[|calls| - 1])
  }

  lemma FreshSound(s: F.State)
    requires F.Reachable(s)
    ensures Sound(FRESH.(reassembly := s))
  {
    SelectNothing();
  }

  /** Over every run, raising calls included, the accepted records form a well-formed capture
      and the assembler's fields are its views. */
  lemma {:induction false} RunSound(up: Setup, calls: seq<Call>)
    requires Checked(up)
    ensures Sound(Run(up, calls))
  {
    if calls == [] {
      FreshSound(F.Idle);
    } else {
      RunSound(up, calls[..|calls| - 1]);
      var st := Run(up, calls[..|calls| - 1]);
      match calls[|calls| - 1]
      case Accept(e) => EventSound(up, st, e);
      case Reset => FreshSound(st.reassembly);
    }
  }

  /** After the end no event changes anything. */
  lemma {:induction false} NothingAfterEnd(up: Setup, calls: seq<Call>, more: seq<Call>)
    requires Run(up, calls).end.Present? && forall c :: c in more ==> c.Accept?
    ensures Run(up, calls + more) == Run(up, calls)
  {
    if more == [] {
      assert calls + more == calls;
    } else {
      var front, c := more[..|more| - 1], more[|more| - 1];
      NothingAfterEnd(up, calls, front);
      assert (calls + more)[..|calls + more| - 1] == calls + front;
      assert (calls + more)[|calls + more| - 1] == c;
    }
  }

  /** The capture under way is of the expected session, if one is expected. */
  predicate InSession(up: Setup, st: State) {
    up.fragments.session != 0 && st.begin.Present? ==> st.begin.value.sessionId == up.fragments.session
  }

  lemma FragmentInSession(up: Setup, st: State, f: F.TraceFragment)
    requires F.Reachable(st.reassembly) && F.Valid(f) && InSession(up, st)
    ensures InSession(up, AcceptFragment(up, st, f).state)
  {
    var step := F.StepFragment(up.fragments, st.reassembly, f);
    if step.result.Complete? {
      CompletedHeader(up, st.reassembly, f);
    }
  }

  lemma EventInSession(up: Setup, st: State, e: Event)
    requires Checked(up) && Sound(st) && InSession(up, st)
    ensures InSession(up, AcceptEvent(up, st, e).state)
  {
    var d := up.decode(e.payload);
    if st.end.Absent? && d.Decoded? {
      FragmentInSession(up, st, d.fragment);
    }
  }

  /** Over every run, only captures of the expected session are ever begun. */
  lemma {:induction false} RunInSession(up: Setup, calls: seq<Call>)
    requires Checked(up)
    ensures InSession(up, Run(up, calls))
  {
    if calls != [] {
      RunInSession(up, calls[..|calls| - 1]);
      RunSound(up, calls[..|calls| - 1]);
      var st := Run(up, calls[..|calls| - 1]);
      match calls[|calls| - 1]
      case Accept(e) => EventInSession(up, st, e);
      case Reset =>
    }
  }

  // ---------- What a well-formed capture looks like ----------

  lemma {:induction false} PrefixWellFormed(rs: seq<Parsed>, counts: seq<int>, i: nat)
    requires WellFormed(rs, counts) && i < |rs|
    ensures WellFormed(rs[..i], counts[..i]) && Admits(rs[..i], counts[..i], rs[i])
  {
    var n := |rs| - 1;
    if i < n {
      PrefixWellFormed(rs[..n], counts[..n], i);
      assert rs[..n][..i] == rs[..i] && counts[..n][..i] == counts[..i];
    }
  }

  /** A selection holds exactly the records of its kind. */
  lemma {:induction false} SelectContains(rs: seq<Parsed>, k: F.RecordType, i: nat)
    requires i < |rs| && Kind(rs[i]) == k
    ensures |Select(rs[..i], k)| < |Select(rs, k)| && Select(rs, k)[|Select(rs[..i], k)|] == rs[i]
  {
    var n := |rs| - 1;
    if i < n {
      SelectContains(rs[..n], k, i);
      assert rs[..n][..i] == rs[..i];
    }
  }

  /** The steps of a well-formed capture are numbered 1, 2, … */
  lemma {:induction false} StepsNumbered(rs: seq<Parsed>, counts: seq<int>, j: nat)
    requires WellFormed(rs, counts) && j < |Select(rs, F.STEP)|
    ensures Select(rs, F.STEP)[j].Step? && Select(rs, F.STEP)[j].stepSequence == j + 1
  {
    var n := |rs| - 1;
    if j < |Select(rs[..n], F.STEP)| {
      StepsNumbered(rs[..n], counts[..n], j);
    }
  }

  function StepsBefore(rs: seq<Parsed>, i: nat): nat
    requires i <= |rs|
  {
    |Select(rs[..i], F.STEP)|
  }

  /** A complete capture, read position by position: Begin first and only there, End last and
      only there, one Config at `c` that matches Begin, every step after it, matching it and
      numbered 1, 2, …, up to the requested count, markers and blocked outputs on steps
      recorded earlier, and End counters that match what came before it. */
  ghost predicate Capture(rs: seq<Parsed>, counts: seq<int>, c: nat) {
    var n := |rs| - 1;
    |rs| == |counts| && 0 < c < n
    && (forall i :: 0 <= i <= n ==> (rs[i].Begin? <==> i == 0))
    && (forall i :: 0 <= i <= n ==> (rs[i].End? <==> i == n))
    && (forall i :: 0 <= i <= n ==> (rs[i].Config? <==> i == c))
    && rs[c].revision == rs[0].configRevision && rs[c].payloadCrc16 == rs[0].configCrc16
    && (forall i :: 0 <= i <= n && rs[i].Step? ==> StepAt(rs, c, i))
    && (forall i :: 0 <= i <= n && rs[i].Marker? ==> 1 <= rs[i].stepSequence <= StepsBefore(rs, i))
    && (forall i :: 0 <= i <= n && rs[i].Blocked? ==> 1 <= rs[i].stepSequence <= StepsBefore(rs, i))
    && rs[n].requestedSteps == rs[0].requestedSteps && rs[n].recordedSteps == StepsBefore(rs, n)
    && rs[n].emittedRecords == n && rs[n].emittedFragments == Sum(counts[..n])
    && (rs[n].reason == COMPLETE ==> rs[n].recordedSteps == rs[n].requestedSteps)
  }

  predicate StepAt(rs: seq<Parsed>, c: nat, i: nat)
    requires c < |rs| && i < |rs| && rs[0].Begin? && rs[c].Config? && rs[i].Step?
  {
    c < i && rs[i].stepSequence == StepsBefore(rs, i) + 1 && rs[i].stepSequence <= rs[0].requestedSteps
    && rs[i].revision == rs[c].revision && rs[i].valid == rs[c].valid && rs[i].persistent == rs[c].persistent
  }

  lemma {:induction false} SelectIsOne(rs: seq<Parsed>, k: F.RecordType, c: int)
    requires forall i :: 0 <= i < |rs| ==> (Kind(rs[i]) == k <==> i == c)
    ensures Select(rs, k) == if 0 <= c < |rs| then [rs[c]] else []
  {
    if rs != [] {
      SelectIsOne(rs[..|rs| - 1], k, c);
    }
  }

  /** A record selected from a prefix has a position in it. */
  lemma {:induction false} SelectedAt(rs: seq<Parsed>, k: F.RecordType, j: nat) returns (i: nat)
    requires j < |Select(rs, k)|
    ensures i < |rs| && rs[i] == Select(rs, k)[j] && Kind(rs[i]) == k && |Select(rs[..i], k)| == j
  {
    var n := |rs| - 1;
    if j < |Select(rs[..n], k)| {
      i := SelectedAt(rs[..n], k, j);
      assert rs[..n][..i] == rs[..i];
    } else {
      i := n;
    }
  }

  lemma FirstKept(rs: seq<Parsed>, i: nat)
    requires 0 < i <= |rs|
    ensures rs[..i] != [] && rs[..i][0] == rs[0]
  {
  }

  /** Only the first record is Begin, and nothing follows End. */
  lemma EndsInPlace(rs: seq<Parsed>, counts: seq<int>, i: nat)
    requires WellFormed(rs, counts) && rs != [] && i < |rs|
    ensures rs[i].Begin? <==> i == 0
    ensures rs[i].End? ==> i == |rs| - 1
  {
    PrefixWellFormed(rs, counts, i);
    var n := |rs| - 1;
    if i < n && rs[i].End? {
      PrefixWellFormed(rs, counts, n);
      SelectContains(rs[..n], F.END, i);
    }
  }

  /** Where the one configuration is, once there is one. */
  lemma ConfigAt(rs: seq<Parsed>, counts: seq<int>, i: nat, c: nat)
    requires WellFormed(rs, counts) && c < i < |rs| && rs[c].Config? && |Select(rs[..i], F.CONFIG)| == 1
    ensures Select(rs[..i], F.CONFIG)[0] == rs[c]
  {
    SelectContains(rs[..i], F.CONFIG, c);
  }

  lemma ConfigOnce(rs: seq<Parsed>, counts: seq<int>, c: nat, d: nat)
    requires WellFormed(rs, counts) && c < d < |rs| && rs[c].Config?
    ensures !rs[d].Config?
  {
    PrefixWellFormed(rs, counts, d);
    SelectContains(rs[..d], F.CONFIG, c);
  }

  lemma StepInPlace(rs: seq<Parsed>, counts: seq<int>, c: nat, i: nat)
    requires WellFormed(rs, counts) && c < |rs| && i < |rs| && rs[0].Begin? && rs[c].Config? && rs[i].Step?
    ensures StepAt(rs, c, i)
  {
    PrefixWellFormed(rs, counts, i);
    FirstKept(rs, i);
    if c < i {
      ConfigAt(rs, counts, i, c);
    } else {
      PrefixWellFormed(rs, counts, c);
      SelectContains(rs[..c], F.STEP, i);
    }
  }

  lemma ConfigInPlace(rs: seq<Parsed>, counts: seq<int>) returns (c: nat)
    requires WellFormed(rs, counts) && rs != [] && rs[|rs| - 1].End?
    ensures 0 < c < |rs| - 1 && rs[0].Begin? && rs[c].Config?
    ensures rs[c].revision == rs[0].configRevision && rs[c].payloadCrc16 == rs[0].configCrc16
  {
    var n := |rs| - 1;
    PrefixWellFormed(rs, counts, n);
    FirstKept(rs, n);
    c := SelectedAt(rs[..n], F.CONFIG, 0);
    PrefixWellFormed(rs, counts, c);
    FirstKept(rs, c);
  }

  /** A well-formed list that has an End is a complete capture. */
  lemma WellFormedIsCapture(rs: seq<Parsed>, counts: seq<int>) returns (c: nat)
    requires WellFormed(rs, counts) && rs != [] && rs[|rs| - 1].End?
    ensures Capture(rs, counts, c)
  {
    c := ConfigInPlace(rs, counts);
    var n := |rs| - 1;
    forall i | 0 <= i <= n
      ensures (rs[i].Begin? <==> i == 0) && (rs[i].End? <==> i == n) && (rs[i].Config? <==> i == c)
      ensures rs[i].Step? ==> StepAt(rs, c, i)
      ensures rs[i].Marker? ==> 1 <= rs[i].stepSequence <= StepsBefore(rs, i)
      ensures rs[i].Blocked? ==> 1 <= rs[i].stepSequence <= StepsBefore(rs, i)
    {
      InPlace(rs, counts, c, i);
    }
    PrefixWellFormed(rs, counts, n);
    FirstKept(rs, n);
  }

  lemma InPlace(rs: seq<Parsed>, counts: seq<int>, c: nat, i: nat)
    requires WellFormed(rs, counts) && c < |rs| && i < |rs| && rs[0].Begin? && rs[c].Config? && rs[|rs| - 1].End?
    ensures (rs[i].Begin? <==> i == 0) && (rs[i].End? <==> i == |rs| - 1) && (rs[i].Config? <==> i == c)
    ensures rs[i].Step? ==> StepAt(rs, c, i)
    ensures rs[i].Marker? ==> 1 <= rs[i].stepSequence <= StepsBefore(rs, i)
    ensures rs[i].Blocked? ==> 1 <= rs[i].stepSequence <= StepsBefore(rs, i)
  {
    EndsInPlace(rs, counts, i);
    if rs[i].Config? && i != c {
      ConfigOnce(rs, counts, if i < c then i else c, if i < c then c else i);
    }
    if rs[i].Step? {
      StepInPlace(rs, counts, c, i);
    }
    PrefixWellFormed(rs, counts, i);
  }

  lemma CaptureAdmits(rs: seq<Parsed>, counts: seq<int>, c: nat, i: nat)
    requires Capture(rs, counts, c) && i < |rs|
    ensures Admits(rs[..i], counts[..i], rs[i])
  {
    SelectIsOne(rs[..i], F.CONFIG, c);
    SelectIsOne(rs[..i], F.END, -1);
    if i > 0 {
      FirstKept(rs, i);
    }
    if i <= c {
      NoStepsBefore(rs, c, i);
    }
  }

  lemma {:induction false} NoStepsBefore(rs: seq<Parsed>, c: nat, i: nat)
    requires i <= c < |rs| && forall j :: 0 <= j < c ==> !rs[j].Step?
    ensures Select(rs[..i], F.STEP) == []
  {
    if i > 0 {
      NoStepsBefore(rs, c, i - 1);
      assert rs[..i][..i - 1] == rs[..i - 1];
    }
  }

  lemma {:induction false} AdmittedIsWellFormed(rs: seq<Parsed>, counts: seq<int>)
    requires |rs| == |counts| && forall i :: 0 <= i < |rs| ==> Admits(rs[..i], counts[..i], rs[i])
    ensures WellFormed(rs, counts)
  {
    if rs != [] {
      var n := |rs| - 1;
      forall i | 0 <= i < n ensures Admits(rs[..n][..i], counts[..n][..i], rs[..n][i]) {
        assert rs[..n][..i] == rs[..i] && counts[..n][..i] == counts[..i];
      }
      AdmittedIsWellFormed(rs[..n], counts[..n]);
    }
  }

  /** Conversely, every complete capture is well-formed. */
  lemma CaptureIsWellFormed(rs: seq<Parsed>, counts: seq<int>, c: nat)
    requires Capture(rs, counts, c)
    ensures WellFormed(rs, counts)
  {
    forall i | 0 <= i < |rs| ensures Admits(rs[..i], counts[..i], rs[i]) {
      CaptureAdmits(rs, counts, c, i);
    }
    AdmittedIsWellFormed(rs, counts);
  }

  /** No more steps are recorded than Begin asked for. */
  lemma {:induction false} StepsWithin(rs: seq<Parsed>, counts: seq<int>)
    requires WellFormed(rs, counts) && rs != [] && rs[0].Begin? && rs[0].requestedSteps >= 0
    ensures |Select(rs, F.STEP)| <= rs[0].requestedSteps
  {
    var n := |rs| - 1;
    if n == 0 {
      SelectNothing();
      assert rs[..0] == [];
    } else {
      FirstKept(rs, n);
      StepsWithin(rs[..n], counts[..n]);
    }
  }

  /** So the End of a capture fits. */
  lemma CaptureEndWithin(rs: seq<Parsed>, counts: seq<int>, c: nat, i: nat)
    requires Capture(rs, counts, c) && rs[0].requestedSteps >= 0 && i < |rs|
    ensures EndWithin(rs[i])
  {
    var n := |rs| - 1;
    CaptureIsWellFormed(rs, counts, c);
    PrefixWellFormed(rs, counts, n);
    FirstKept(rs, n);
    StepsWithin(rs[..n], counts[..n]);
  }

  /** The number a marker carries is that of a step recorded before it. */
  lemma MarkedStepExists(rs: seq<Parsed>, counts: seq<int>, i: nat, number: int) returns (j: nat)
    requires WellFormed(rs, counts) && i < |rs| && 1 <= number <= StepsBefore(rs, i)
    ensures j < i && rs[j].Step? && rs[j].stepSequence == number
  {
    PrefixWellFormed(rs, counts, i);
    StepsNumbered(rs[..i], counts[..i], number - 1);
    j := SelectedAt(rs[..i], F.STEP, number - 1);
  }

  // ---------- Finalizing ----------

  datatype Trace = Trace(begin: Parsed, config: Parsed, steps: seq<Parsed>, markers: seq<Parsed>,
                         blocked: seq<Parsed>, end: Parsed, records: seq<Parsed>)

  datatype Finalized = Whole(trace: Trace) | Refused(error: F.TraceError)

  function Finalize(st: State): Finalized {
    if st.begin.Absent? || st.config.Absent? || st.end.Absent? then Refused(F.Incomplete)
    else Whole(Trace(st.begin.value, st.config.value, st.steps, st.markers, st.blocked, st.end.value, st.records))
  }

  /** The trace's fields are the views of its record list. */
  predicate Views(t: Trace) {
    t.records != [] && t.begin == t.records[0] && t.end == t.records[|t.records| - 1]
    && Select(t.records, F.CONFIG) == [t.config] && t.steps == Select(t.records, F.STEP)
    && t.markers == Select(t.records, F.MARKER) && t.blocked == Select(t.records, F.OUTPUT_BLOCKED)
  }

  lemma EndIsLast(st: State)
    requires Consistent(st) && st.end.Present?
    ensures st.records != [] && st.records[|st.records| - 1] == st.end.value && st.end.value.End?
  {
    var rs := st.records;
    var i := SelectedAt(rs, F.END, 0);
    EndsInPlace(rs, st.counts, i);
  }

  /** End's counter and the fragments of End itself make up all fragments. */
  lemma EndAccounts(records: seq<Parsed>, counts: seq<int>, c: nat)
    requires Capture(records, counts, c)
    ensures var n := |records| - 1;
            records[n].End? && records[n].emittedFragments + counts[n] == Sum(counts)
  {
  }

  /** A sound state that finalizes holds a complete capture. */
  lemma {:induction false} FinalState(st: State) returns (c: nat)
    requires Consistent(st) && Finalize(st).Whole?
    ensures Capture(st.records, st.counts, c) && st.records[c] == st.config.value
    ensures Views(Finalize(st).trace) && Finalize(st).trace.records == st.records
  {
    EndIsLast(st);
    c := WellFormedIsCapture(st.records, st.counts);
    SelectIsOne(st.records, F.CONFIG, c);
  }

  /** The main law: whatever was fed before, in whatever order and with whatever errors, a
      trace that is returned is a complete capture, and its fields are views of it. */
  lemma {:induction false} FinalizedIsCapture(up: Setup, calls: seq<Call>) returns (c: nat)
    requires Checked(up) && Finalize(Run(up, calls)).Whole?
    ensures var st := Run(up, calls);
            Capture(st.records, st.counts, c) && st.records[c] == st.config.value
            && Views(Finalize(st).trace) && Finalize(st).trace.records == st.records
  {
    RunSound(up, calls);
    c := FinalState(Run(up, calls));
  }

  /** Finalizing succeeds exactly when the end was reached. */
  lemma FinalizedIffEnded(up: Setup, calls: seq<Call>)
    requires Checked(up)
    ensures Finalize(Run(up, calls)).Whole? <==> Run(up, calls).end.Present?
  {
    RunSound(up, calls);
    var st := Run(up, calls);
    if st.end.Present? {
      EndIsLast(st);
      var c := WellFormedIsCapture(st.records, st.counts);
      SelectIsOne(st.records, F.CONFIG, c);
    }
  }
}
