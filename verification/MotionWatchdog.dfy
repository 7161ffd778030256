/**
  The Jetson motion adapter: bounded high-level requests, forwarded through a heartbeat gate
  and stopped when their time is up. Times and lengths are reals; clock readings, heartbeats
  and firmware replies come from outside.
  */
module MotionWatchdog {

  // ---------- Mapping a request ----------

  const GAIT_COUNT := 6
  const MAX_BODY_HEIGHT_MM := 120
  const MAX_STRIDE_MM := 80
  const MAX_STEP_HEIGHT_MM := 50
  const MAX_POSE_TRANSLATION_MM := 50.0
  const MAX_POSE_ROTATION_RAD := 0.4363
  const MAXIMUM_VALIDITY_MS := 1000
  const DEGREES_PER_RADIAN := 57.29577951308232

  /** A floating-point input: a number, or an infinity or not-a-number. */
  datatype Num = Finite(value: real) | NonFinite

  /** `values` holds the fourteen floating-point fields in the order they are listed. */
  datatype Input = Input(gait: int, values: seq<Num>, validForSec: int, validForNanosec: int)

  datatype Mapped = Mapped(
    gait: int, bodyHeightMm: int, strideMm: int, stepHeightMm: int, duty: int, speed: int,
    vx: real, vy: real, wz: real, poseMm: seq<real>, poseDeg: seq<real>, validity: real)

  datatype MapResult = Bounded(mapped: Mapped) | UnknownGait | NotFinite | NoValidity

  function Clamp(x: real, low: real, high: real): (r: real)
    requires low <= high
    ensures low <= r <= high && (low <= x <= high ==> r == x)
  {
    var atLeast := if x < low then low else x;
    if atLeast > high then high else atLeast
  }

  function Round(x: real): (n: int)
    ensures n as real - 0.5 <= x < n as real + 0.5
  {
    (x + 0.5).Floor
  }

  function Millimetres(x: real, max: int): (n: int)
    requires max >= 0
    ensures 0 <= n <= max
  {
    Round(Clamp(x * 1000.0, 0.0, max as real))
  }

  function Unit(x: real): (n: int)
    ensures 0 <= n <= 255
  {
    Round(Clamp(x, 0.0, 1.0) * 255.0)
  }

  function Translation(x: real): real {
    Clamp(x * 1000.0, -MAX_POSE_TRANSLATION_MM, MAX_POSE_TRANSLATION_MM)
  }

  function Rotation(x: real): real {
    Clamp(x, -MAX_POSE_ROTATION_RAD, MAX_POSE_ROTATION_RAD) * DEGREES_PER_RADIAN
  }

  predicate AllFinite(vs: seq<Num>) {
    forall i :: 0 <= i < |vs| ==> vs[i].Finite?
  }

  function RequestedMs(c: Input): int {
    c.validForSec * 1000 + c.validForNanosec / 1_000_000
  }

  /** The request with every field brought into the firmware's motion envelope. */
  function MapCommand(c: Input): MapResult
    requires |c.values| == 14
  {
    if !(0 <= c.gait < GAIT_COUNT) then UnknownGait
    else if !AllFinite(c.values) then NotFinite
    else if RequestedMs(c) <= 0 then NoValidity
    else
      var v := c.values;
      var ms := if RequestedMs(c) < MAXIMUM_VALIDITY_MS then RequestedMs(c) else MAXIMUM_VALIDITY_MS;
      Bounded(Mapped(
        c.gait, Millimetres(v[0].value, MAX_BODY_HEIGHT_MM), Millimetres(v[1].value, MAX_STRIDE_MM),
        Millimetres(v[2].value, MAX_STEP_HEIGHT_MM), Unit(v[3].value), Unit(v[4].value),
        Clamp(v[5].value, -1.0, 1.0), Clamp(v[6].value, -1.0, 1.0), Clamp(v[7].value, -1.0, 1.0),
        [Translation(v[8].value), Translation(v[9].value), Translation(v[10].value)],
        [Rotation(v[11].value), Rotation(v[12].value), Rotation(v[13].value)],
        ms as real / 1000.0))
  }

  /** The firmware's motion envelope. */
  predicate InEnvelope(m: Mapped) {
    0 <= m.gait < GAIT_COUNT && 0 <= m.bodyHeightMm <= MAX_BODY_HEIGHT_MM && 0 <= m.strideMm <= MAX_STRIDE_MM
    && 0 <= m.stepHeightMm <= MAX_STEP_HEIGHT_MM && 0 <= m.duty <= 255 && 0 <= m.speed <= 255
    && -1.0 <= m.vx <= 1.0 && -1.0 <= m.vy <= 1.0 && -1.0 <= m.wz <= 1.0
    && |m.poseMm| == 3 && |m.poseDeg| == 3
    && (forall i :: 0 <= i < 3 ==> -MAX_POSE_TRANSLATION_MM <= m.poseMm[i] <= MAX_POSE_TRANSLATION_MM)
    && (forall i :: 0 <= i < 3 ==> -25.0 < m.poseDeg[i] < 25.0)
    && 0.0 < m.validity <= 1.0
  }

  /** Whatever is asked, what is forwarded lies in the envelope and is valid for at most a second. */
  lemma MappedInEnvelope(c: Input)
    requires |c.values| == 14 && MapCommand(c).Bounded?
    ensures InEnvelope(MapCommand(c).mapped)
  {
    var m := MapCommand(c).mapped;
    forall i | 0 <= i < 3 ensures -25.0 < m.poseDeg[i] < 25.0 {
      RotationBound(c.values[11 + i].value);
    }
  }

  lemma RotationBound(x: real)
    ensures -25.0 < Rotation(x) < 25.0
  {
    var y := Clamp(x, -MAX_POSE_ROTATION_RAD, MAX_POSE_ROTATION_RAD);
    assert -MAX_POSE_ROTATION_RAD * DEGREES_PER_RADIAN <= y * DEGREES_PER_RADIAN <= MAX_POSE_ROTATION_RAD * DEGREES_PER_RADIAN;
  }

  /** A request is mapped exactly when its gait is one of the six, every number is finite, and it
      is valid for at least a millisecond. */
  lemma MappedIff(c: Input)
    requires |c.values| == 14
    ensures MapCommand(c).Bounded? <==>
              0 <= c.gait <= 5 && (forall i :: 0 <= i < 14 ==> c.values[i].Finite?)
              && c.validForSec * 1_000_000_000 + c.validForNanosec >= 1_000_000
  {
  }

  /** `y` is `x` if that lies between the bounds, and the nearer bound if not. */
  predicate Limited(x: real, low: real, high: real, y: real) {
    (x < low ==> y == low) && (x > high ==> y == high) && (low <= x <= high ==> y == x)
  }

  /** `n` is the integer nearest to `x`, the higher one at a half, between the bounds; beyond
      them it is the nearer bound. */
  predicate LimitedInteger(x: real, low: int, high: int, n: int) {
    (x < low as real ==> n == low) && (x > high as real ==> n == high)
    && (low as real <= x <= high as real ==> n as real - 0.5 <= x < n as real + 0.5)
  }

  /** `deg` is an angle of `rad` radians in degrees, at most 0.4363 radians either way. */
  predicate LimitedAngle(rad: real, deg: real) {
    (rad < -0.4363 ==> deg == -0.4363 * DEGREES_PER_RADIAN) && (rad > 0.4363 ==> deg == 0.4363 * DEGREES_PER_RADIAN)
    && (-0.4363 <= rad <= 0.4363 ==> deg == rad * DEGREES_PER_RADIAN)
  }

  lemma Halves(x: real, max: int)
    requires max >= 0
    ensures LimitedInteger(x * 1000.0, 0, max, Millimetres(x, max))
    ensures LimitedInteger(x * 255.0, 0, 255, Unit(x))
  {
  }

  /** Every field of what is forwarded comes from its own field of the request: passed on where
      it lies in the envelope, and brought to the nearer bound where it does not. */
  lemma MappedFieldByField(c: Input)
    requires |c.values| == 14 && MapCommand(c).Bounded?
    ensures forall i :: 0 <= i < 14 ==> c.values[i].Finite?
    ensures var m, v := MapCommand(c).mapped, c.values;
            m.gait == c.gait
            && LimitedInteger(v[0].value * 1000.0, 0, 120, m.bodyHeightMm)
            && LimitedInteger(v[1].value * 1000.0, 0, 80, m.strideMm)
            && LimitedInteger(v[2].value * 1000.0, 0, 50, m.stepHeightMm)
            && LimitedInteger(v[3].value * 255.0, 0, 255, m.duty) && LimitedInteger(v[4].value * 255.0, 0, 255, m.speed)
            && Limited(v[5].value, -1.0, 1.0, m.vx) && Limited(v[6].value, -1.0, 1.0, m.vy)
            && Limited(v[7].value, -1.0, 1.0, m.wz)
    ensures var m, v := MapCommand(c).mapped, c.values;
            |m.poseMm| == 3 && |m.poseDeg| == 3
            && Limited(v[8].value * 1000.0, -50.0, 50.0, m.poseMm[0])
            && Limited(v[9].value * 1000.0, -50.0, 50.0, m.poseMm[1])
            && Limited(v[10].value * 1000.0, -50.0, 50.0, m.poseMm[2])
            && LimitedAngle(v[11].value, m.poseDeg[0]) && LimitedAngle(v[12].value, m.poseDeg[1])
            && LimitedAngle(v[13].value, m.poseDeg[2])
  {
    var v := c.values;
    Halves(v[0].value, MAX_BODY_HEIGHT_MM);
    Halves(v[1].value, MAX_STRIDE_MM);
    Halves(v[2].value, MAX_STEP_HEIGHT_MM);
    Halves(v[3].value, 0);
    Halves(v[4].value, 0);
  }

  /** It is valid for the whole milliseconds of what was asked for, and for at most a second. */
  lemma MappedValidity(c: Input)
    requires |c.values| == 14 && MapCommand(c).Bounded?
    ensures var asked, ms := c.validForSec * 1_000_000_000 + c.validForNanosec, MapCommand(c).mapped.validity * 1000.0;
            if asked >= 1_000_000_000 then ms == 1000.0
            else ms == ms.Floor as real && ms.Floor * 1_000_000 <= asked < (ms.Floor + 1) * 1_000_000
  {
    var n := if RequestedMs(c) < MAXIMUM_VALIDITY_MS then RequestedMs(c) else MAXIMUM_VALIDITY_MS;
    assert MapCommand(c).mapped.validity == n as real / 1000.0;
    assert MapCommand(c).mapped.validity * 1000.0 == n as real;
    assert (n as real).Floor == n;
  }

  // ---------- The heartbeat gate ----------

  datatype Heartbeat = Never | At(time: real)

  /** What holds at one call to the bridge, and how the firmware answers if the call goes through. */
  datatype Moment = Moment(now: real, started: bool, connected: bool, heartbeat: Heartbeat, timeout: real, accepts: bool)

  predicate Fresh(m: Moment) {
    m.connected && m.heartbeat.At? && m.now - m.heartbeat.time <= m.timeout
  }

  predicate MotionReady(m: Moment) {
    m.started && Fresh(m)
  }

  /** A setter is accepted when the gate is open and the firmware says so. */
  predicate Accepted(m: Moment) {
    MotionReady(m) && m.accepts
  }

  // ---------- The adapter ----------

  datatype Setter = Gait | GaitParams | BodyTwist | BodyPose

  const GROUP := [Gait, GaitParams, BodyTwist, BodyPose]

  /** A call on the bridge; `passed` tells whether the gate let it through to the firmware. */
  datatype BridgeCall = Set(setter: Setter, command: Mapped, passed: bool, ok: bool) | Stop

  datatype Deadline = Unset | Due(time: real)

  /** `acceptedAt` is when the command that set the deadline was accepted. */
  datatype State = State(deadline: Deadline, trace: seq<BridgeCall>, acceptedAt: real)

  const START := State(Unset, [], 0.0)

  datatype Outcome = Outcome(state: State, result: bool)

  /** `expire_if_needed`. */
  function Expire(s: State, now: real): Outcome {
    if s.deadline.Unset? || now < s.deadline.time then Outcome(s, false)
    else Outcome(State(Unset, s.trace + [Stop], s.acceptedAt), true)
  }

  function CallOf(i: nat, m: Mapped, at: Moment): BridgeCall
    requires i < 4
  {
    Set(GROUP[i], m, MotionReady(at), Accepted(at))
  }

  /** The setters from the `i`th on; the first that is not accepted is followed by a stop. */
  function Forward(s: State, m: Mapped, i: nat, at: seq<Moment>, end: real): Outcome
    requires |at| == 4 && i <= 4
    decreases 4 - i
  {
    if i == 4 then Outcome(State(Due(end + m.validity), s.trace, end), true)
    else if Accepted(at[i]) then Forward(s.(trace := s.trace + [CallOf(i, m, at[i])]), m, i + 1, at, end)
    else Outcome(State(Unset, s.trace + [CallOf(i, m, at[i])] + [Stop], s.acceptedAt), false)
  }

  /** `accept`: the clock is read at `start` and at `end`, the four setters see `at`. */
  function Accept(s: State, c: Input, start: real, at: seq<Moment>, end: real): Outcome
    requires |c.values| == 14 && |at| == 4
  {
    var s1 := Expire(s, start).state;
    var r := MapCommand(c);
    if !r.Bounded? then Outcome(s1, false) else Forward(s1, r.mapped, 0, at, end)
  }

  // ---------- What every run keeps ----------

  function Last(t: seq<BridgeCall>): BridgeCall
    requires t != []
  {
    t[|t| - 1]
  }

  /** The first `n` setters of one command, all accepted. */
  ghost predicate Group(t: seq<BridgeCall>, m: Mapped, n: nat)
    requires n <= 4
  {
    |t| >= n && forall i :: 0 <= i < n ==> t[|t| - n + i] == Set(GROUP[i], m, true, true)
  }

  /** Two stops are never adjacent; a call that was not accepted is followed by a stop; and a
      setter other than the first follows its predecessor of the same command. */
  predicate Orderly(t: seq<BridgeCall>) {
    forall i :: 0 <= i < |t| - 1 ==> Follows(t[i], t[i + 1])
  }

  predicate Follows(a: BridgeCall, b: BridgeCall) {
    match b
    case Stop => a.Set? && (a.ok ==> a.setter == BodyPose)
    case Set(Gait, _, _, _) => a.Stop? || (a.ok && a.setter == BodyPose)
    case Set(setter, m, _, _) =>
      a.Set? && a.ok && a.command == m
      && (setter == GaitParams ==> a.setter == Gait) && (setter == BodyTwist ==> a.setter == GaitParams)
      && (setter == BodyPose ==> a.setter == BodyTwist)
  }

  /** Only calls the gate let through are ever accepted, and only envelope commands are sent. */
  predicate Guarded(t: seq<BridgeCall>) {
    forall i :: 0 <= i < |t| && t[i].Set? ==> (t[i].ok ==> t[i].passed) && InEnvelope(t[i].command)
  }

  ghost predicate Inv(s: State) {
    (s.deadline.Unset? <==> s.trace == [] || Last(s.trace) == Stop)
    && (s.deadline.Due? ==> exists m :: DueFor(s, m))
    && Orderly(s.trace) && Guarded(s.trace) && (s.trace != [] ==> s.trace[0].Set? && s.trace[0].setter == Gait)
  }

  /** The deadline belongs to command `m`, whose four setters are the last four calls. */
  ghost predicate DueFor(s: State, m: Mapped)
    requires s.deadline.Due?
  {
    Group(s.trace, m, 4) && s.deadline.time == s.acceptedAt + m.validity && 0.0 < m.validity <= 1.0
  }

  lemma SnocOrderly(t: seq<BridgeCall>, c: BridgeCall)
    requires Orderly(t) && (t != [] ==> Follows(Last(t), c))
    ensures Orderly(t + [c])
  {
  }

  lemma ExpireKeepsInv(s: State, now: real)
    requires Inv(s)
    ensures Inv(Expire(s, now).state)
    ensures Expire(s, now).result <==> s.deadline.Due? && s.deadline.time <= now
    ensures Expire(s, now).state.deadline.Due? ==> now < Expire(s, now).state.deadline.time
  {
    if Expire(s, now).result {
      var m :| DueFor(s, m);
      assert Last(s.trace) == s.trace[|s.trace| - 4 + 3] == Set(GROUP[3], m, true, true);
      SnocOrderly(s.trace, Stop);
    }
  }

  /** The trace may take the next setter of command `m` as its `i`th. */
  ghost predicate ReadyFor(t: seq<BridgeCall>, m: Mapped, i: nat)
    requires i <= 4
  {
    Orderly(t) && Guarded(t) && (t != [] ==> t[0].Set? && t[0].setter == Gait)
    && Group(t, m, i)
    && (i == 0 && t != [] ==> Last(t).Stop? || (Last(t).ok && Last(t).setter == BodyPose))
  }

  lemma SetterFollows(t: seq<BridgeCall>, m: Mapped, i: nat, at: Moment)
    requires i < 4 && ReadyFor(t, m, i) && InEnvelope(m)
    ensures t != [] ==> Follows(Last(t), CallOf(i, m, at))
    ensures Orderly(t + [CallOf(i, m, at)]) && Guarded(t + [CallOf(i, m, at)])
  {
    if i > 0 {
      assert Last(t) == t[|t| - i + (i - 1)] == Set(GROUP[i - 1], m, true, true);
    }
    SnocOrderly(t, CallOf(i, m, at));
  }

  lemma GroupGrows(t: seq<BridgeCall>, m: Mapped, i: nat, at: Moment)
    requires i < 4 && Group(t, m, i) && Accepted(at)
    ensures Group(t + [CallOf(i, m, at)], m, i + 1)
  {
    var u := t + [CallOf(i, m, at)];
    forall j | 0 <= j < i + 1 ensures u[|u| - (i + 1) + j] == Set(GROUP[j], m, true, true) {
      if j < i {
        assert t[|t| - i + j] == Set(GROUP[j], m, true, true);
      }
    }
  }

  /** The setters go out in order; all accepted sets the deadline, the first refusal stops. */
  lemma {:induction false} ForwardKeepsInv(s: State, m: Mapped, i: nat, at: seq<Moment>, end: real)
    requires |at| == 4 && i <= 4 && ReadyFor(s.trace, m, i) && InEnvelope(m)
    ensures var o := Forward(s, m, i, at, end);
            Inv(o.state) && (o.result <==> forall j :: i <= j < 4 ==> Accepted(at[j]))
            && (o.result ==> o.state.deadline == Due(end + m.validity) && o.state.acceptedAt == end)
            && (!o.result ==> o.state.trace != [] && Last(o.state.trace) == Stop)
    decreases 4 - i
  {
    if i == 4 {
      AllSent(s.trace, m, end);
    } else if Accepted(at[i]) {
      ReadyForNext(s.trace, m, i, at[i]);
      ForwardKeepsInv(s.(trace := s.trace + [CallOf(i, m, at[i])]), m, i + 1, at, end);
    } else {
      RefusalStops(s.trace, m, i, at[i], s.acceptedAt);
    }
  }

  lemma AllSent(t: seq<BridgeCall>, m: Mapped, end: real)
    requires ReadyFor(t, m, 4) && InEnvelope(m)
    ensures Inv(State(Due(end + m.validity), t, end))
  {
    assert DueFor(State(Due(end + m.validity), t, end), m);
    assert Last(t) == t[|t| - 4 + 3] == Set(GROUP[3], m, true, true);
  }

  lemma ReadyForNext(t: seq<BridgeCall>, m: Mapped, i: nat, at: Moment)
    requires i < 4 && ReadyFor(t, m, i) && InEnvelope(m) && Accepted(at)
    ensures ReadyFor(t + [CallOf(i, m, at)], m, i + 1)
  {
    SetterFollows(t, m, i, at);
    GroupGrows(t, m, i, at);
  }

  lemma RefusalStops(t: seq<BridgeCall>, m: Mapped, i: nat, at: Moment, acceptedAt: real)
    requires i < 4 && ReadyFor(t, m, i) && InEnvelope(m) && !Accepted(at)
    ensures Inv(State(Unset, t + [CallOf(i, m, at)] + [Stop], acceptedAt))
  {
    SetterFollows(t, m, i, at);
    SnocOrderly(t + [CallOf(i, m, at)], Stop);
  }

  lemma ReadyWhenIdle(s: State, m: Mapped)
    requires Inv(s)
    ensures ReadyFor(s.trace, m, 0)
  {
    if s.deadline.Due? {
      var m' :| DueFor(s, m');
      assert Last(s.trace) == s.trace[|s.trace| - 4 + 3] == Set(GROUP[3], m', true, true);
    }
  }

  /** One request: it is accepted exactly when it is well formed and all four setters are; a
      well-formed one that is not accepted ends in a stop with no deadline; a malformed one
      does no more than an expiry poll. */
  lemma AcceptKeepsInv(s: State, c: Input, start: real, at: seq<Moment>, end: real)
    requires Inv(s) && |c.values| == 14 && |at| == 4
    ensures var o := Accept(s, c, start, at, end);
            Inv(o.state)
            && (o.result <==> MapCommand(c).Bounded? && forall j :: 0 <= j < 4 ==> Accepted(at[j]))
            && (o.result ==> o.state.deadline.Due? && end < o.state.deadline.time <= end + 1.0 && o.state.acceptedAt == end)
            && (!o.result && MapCommand(c).Bounded? ==> o.state.deadline == Unset && Last(o.state.trace) == Stop)
            && (!MapCommand(c).Bounded? ==> o.state == Expire(s, start).state)
  {
    ExpireKeepsInv(s, start);
    if MapCommand(c).Bounded? {
      MappedInEnvelope(c);
      ReadyWhenIdle(Expire(s, start).state, MapCommand(c).mapped);
      ForwardKeepsInv(Expire(s, start).state, MapCommand(c).mapped, 0, at, end);
    }
  }

  /** The first `n` calls of a request. */
  function Calls(m: Mapped, at: seq<Moment>, n: nat): seq<BridgeCall>
    requires |at| == 4 && n <= 4
  {
    if n == 0 then [] else Calls(m, at, n - 1) + [CallOf(n - 1, m, at[n - 1])]
  }

  /** What is sent on from the `i`th setter: all of the rest, or as far as the first one that
      is not accepted, and then a stop. */
  lemma {:induction false} ForwardSends(s: State, m: Mapped, i: nat, at: seq<Moment>, end: real, before: seq<BridgeCall>)
    returns (k: nat)
    requires |at| == 4 && i <= 4 && s.trace == before + Calls(m, at, i)
    ensures i <= k <= 4 && (forall j :: i <= j < k ==> Accepted(at[j])) && (k < 4 ==> !Accepted(at[k]))
    ensures Forward(s, m, i, at, end).state
         == if k == 4 then State(Due(end + m.validity), before + Calls(m, at, 4), end)
            else State(Unset, before + Calls(m, at, k + 1) + [Stop], s.acceptedAt)
    decreases 4 - i
  {
    if i < 4 {
      assert before + Calls(m, at, i + 1) == s.trace + [CallOf(i, m, at[i])];
    }
    if i == 4 || !Accepted(at[i]) {
      k := i;
    } else {
      k := ForwardSends(s.(trace := s.trace + [CallOf(i, m, at[i])]), m, i + 1, at, end, before);
    }
  }

  /** A well-formed request puts its own command through the setters in turn: after the expiry
      poll the calls are the four of them, and the deadline is its validity from the end; or they
      go as far as the first that is not accepted, and a stop follows. */
  lemma AcceptSends(s: State, c: Input, start: real, at: seq<Moment>, end: real) returns (k: nat)
    requires |c.values| == 14 && |at| == 4 && MapCommand(c).Bounded?
    ensures k <= 4 && (forall j :: 0 <= j < k ==> Accepted(at[j])) && (k < 4 ==> !Accepted(at[k]))
    ensures var m, polled := MapCommand(c).mapped, Expire(s, start).state;
            Accept(s, c, start, at, end).state
            == if k == 4 then State(Due(end + m.validity), polled.trace + Calls(m, at, 4), end)
               else State(Unset, polled.trace + Calls(m, at, k + 1) + [Stop], polled.acceptedAt)
  {
    var polled := Expire(s, start).state;
    assert polled.trace == polled.trace + [];
    k := ForwardSends(polled, MapCommand(c).mapped, 0, at, end, polled.trace);
  }

  /** A heartbeat that is stale at any of the four setters ends the request in a stop. */
  lemma StaleHeartbeatStops(s: State, c: Input, start: real, at: seq<Moment>, end: real, j: nat)
    requires Inv(s) && |c.values| == 14 && |at| == 4 && MapCommand(c).Bounded?
    requires j < 4
    requires !at[j].connected || at[j].heartbeat == Never || at[j].now > at[j].heartbeat.time + at[j].timeout
    ensures var o := Accept(s, c, start, at, end);
            !o.result && o.state.deadline == Unset && o.state.trace != [] && Last(o.state.trace) == Stop
  {
    AcceptKeepsInv(s, c, start, at, end);
    assert !Accepted(at[j]);
  }

  datatype Op = Request(command: Input, start: real, at: seq<Moment>, end: real) | Poll(now: real)

  predicate WellTyped(op: Op) {
    op.Request? ==> |op.command.values| == 14 && |op.at| == 4
  }

  function Step(s: State, op: Op): State
    requires WellTyped(op)
  {
    match op
    case Request(c, start, at, end) => Accept(s, c, start, at, end).state
    case Poll(now) => Expire(s, now).state
  }

  function Run(ops: seq<Op>): State
    requires forall op :: op in ops ==> WellTyped(op)
  {
    if ops == [] then START else Step(Run(ops[..|ops| - 1]), ops[|ops| - 1])
  }

  /** Every run of requests and polls, with any clock, any heartbeats and any replies. */
  lemma {:induction false} RunKeepsInv(ops: seq<Op>)
    requires forall op :: op in ops ==> WellTyped(op)
    ensures Inv(Run(ops))
  {
    if ops != [] {
      var s, op := Run(ops[..|ops| - 1]), ops[|ops| - 1];
      RunKeepsInv(ops[..|ops| - 1]);
      assert op in ops;
      match op
      case Request(c, start, at, end) => AcceptKeepsInv(s, c, start, at, end);
      case Poll(now) => ExpireKeepsInv(s, now);
    }
  }

  /** A poll one second after the last acceptance, or later, finds the robot stopped or stops it. */
  lemma PolledInTimeStops(ops: seq<Op>, now: real)
    requires forall op :: op in ops ==> WellTyped(op)
    requires Run(ops).acceptedAt + 1.0 <= now
    ensures var t := Expire(Run(ops), now).state.trace;
            t == [] || Last(t) == Stop
  {
    RunKeepsInv(ops);
    ExpireKeepsInv(Run(ops), now);
  }

  // ---------- The life of the bridge ----------

  /** Where one call of `start` stands between its two critical sections: it has looked at the
      flags, had its greeting answered, its heartbeat, its subscriptions; or it has returned. */
  datatype Phase = Checked | Greeted | Beating | Ready | Over

  /** `linkShut`: the stream was closed, which nothing undoes. `revived`: a start finished after
      the flags were last set to closed. */
  datatype Life = Life(
    started: bool, closed: bool, heartbeat: Heartbeat, linkShut: bool, starts: seq<Phase>, revived: bool)

  const UNUSED := Life(false, false, Never, false, [], false)

  /** What any thread may do next. `close` is two events: the flags, under the lock, and then
      the link. `Reply` is an answer, or none, to what the `k`th start waits for. */
  datatype Event =
    | Heard(now: real) | Check | Reply(k: nat, ok: bool, now: real) | Finish(k: nat) | CloseFlags | ShutLink

  function AfterReply(p: Phase, ok: bool): Phase {
    if p == Ready || p == Over then p
    else if !ok then Over
    else if p == Checked then Greeted
    else if p == Greeted then Beating
    else Ready
  }

  /** Only the first section of a start looks at `closed`; the second does not. */
  function After(l: Life, e: Event): Life {
    match e
    case Heard(now) => l.(heartbeat := At(now))
    case Check => if l.closed || l.started then l else l.(starts := l.starts + [Checked])
    case Reply(k, ok, now) =>
      if k >= |l.starts| then l
      else l.(starts := l.starts[k := AfterReply(l.starts[k], ok)],
              heartbeat := if l.starts[k] == Greeted && ok then At(now) else l.heartbeat)
    case Finish(k) =>
      if k >= |l.starts| || l.starts[k] != Ready then l
      else l.(starts := l.starts[k := Over], started := true, revived := l.closed)
    case CloseFlags => l.(started := false, closed := true, revived := false)
    case ShutLink => l.(linkShut := l.linkShut || l.closed)
  }

  function RunEvents(l: Life, es: seq<Event>): Life {
    if es == [] then l else After(RunEvents(l, es[..|es| - 1]), es[|es| - 1])
  }

  /** What a setter meets; on a link that was shut nothing is answered. */
  function Meets(l: Life, timeout: real, now: real, connected: bool, accepts: bool): Moment {
    Moment(now, l.started, connected, l.heartbeat, timeout, accepts && !l.linkShut)
  }

  /** A closed bridge is started exactly when a start finished after the close, and only a
      closed one has its link shut. */
  predicate Lawful(l: Life) {
    (l.closed ==> (l.started <==> l.revived)) && (!l.closed ==> !l.revived) && (l.linkShut ==> l.closed)
  }

  lemma {:induction false} EveryRunLawful(l: Life, es: seq<Event>)
    requires Lawful(l)
    ensures Lawful(RunEvents(l, es)) && (l.closed ==> RunEvents(l, es).closed)
  {
    if es != [] {
      EveryRunLawful(l, es[..|es| - 1]);
    }
  }

  /** Once `close` has shut the link, no setter is accepted, whatever any thread does and
      whatever the client says about being connected. */
  lemma {:induction false} NothingAfterShut(l: Life, es: seq<Event>, timeout: real, now: real, connected: bool, accepts: bool)
    requires l.linkShut
    ensures RunEvents(l, es).linkShut && !Accepted(Meets(RunEvents(l, es), timeout, now, connected, accepts))
  {
    if es != [] {
      NothingAfterShut(l, es[..|es| - 1], timeout, now, connected, accepts);
    }
  }

  predicate UnderWay(l: Life) {
    exists k :: 0 <= k < |l.starts| && l.starts[k] != Over
  }

  /** After its flags are set to closed, a bridge with no start under way is never started again. */
  lemma {:induction false} NoStartNoRevival(l: Life, es: seq<Event>)
    requires l.closed && !l.started && !UnderWay(l)
    ensures var r := RunEvents(l, es); r.closed && !r.started && !UnderWay(r)
  {
    if es != [] {
      NoStartNoRevival(l, es[..|es| - 1]);
    }
  }

  lemma Snoc(l: Life, es: seq<Event>, e: Event)
    ensures RunEvents(l, es + [e]) == After(RunEvents(l, es), e)
  {
    assert (es + [e])[..|es|] == es;
  }

  /** How many of its three exchanges a start has behind it. */
  function Rank(p: Phase): nat {
    match p
    case Checked => 0
    case Greeted => 1
    case Beating => 2
    case Ready => 3
    case Over => 0
  }

  ghost predicate Progress(l: Life, r: Life, k: nat, n: nat) {
    r.linkShut == l.linkShut && k < |r.starts| && r.starts[k] != Over && Rank(r.starts[k]) >= n
  }

  lemma OneReply(l: Life, es: seq<Event>, k: nat, n: nat)
    requires n < 3 && Progress(l, RunEvents(l, es), k, n)
    ensures Progress(l, RunEvents(l, es + [Reply(k, true, 0.0)]), k, n + 1)
  {
    Snoc(l, es, Reply(k, true, 0.0));
  }

  /** A start under way can finish, and a heartbeat be heard after it. */
  lemma CanFinish(l: Life, k: nat) returns (es: seq<Event>)
    requires k < |l.starts| && l.starts[k] != Over
    ensures var r := RunEvents(l, es);
            r.started && r.heartbeat == At(0.0) && r.linkShut == l.linkShut
  {
    es := [];
    for n := 0 to 3
      invariant Progress(l, RunEvents(l, es), k, n)
    {
      OneReply(l, es, k, n);
      es := es + [Reply(k, true, 0.0)];
    }
    Snoc(l, es, Finish(k));
    es := es + [Finish(k)];
    Snoc(l, es, Heard(0.0));
    es := es + [Heard(0.0)];
  }

  /** Some continuation leads to an accepted setter. */
  ghost predicate CanPass(l: Life, timeout: real) {
    exists es: seq<Event>, now: real :: Accepted(Meets(RunEvents(l, es), timeout, now, true, true))
  }

  /** From the moment its flags say closed, a bridge can let a setter through exactly when a
      start is under way and the link is not shut yet. */
  lemma CanPassIff(l: Life, timeout: real)
    requires l.closed && !l.started && timeout >= 0.0
    ensures CanPass(l, timeout) <==> UnderWay(l) && !l.linkShut
  {
    if CanPass(l, timeout) {
      var es, now :| Accepted(Meets(RunEvents(l, es), timeout, now, true, true));
      if l.linkShut {
        NothingAfterShut(l, es, timeout, now, true, true);
      } else if !UnderWay(l) {
        NoStartNoRevival(l, es);
      }
    }
    if UnderWay(l) && !l.linkShut {
      var k :| 0 <= k < |l.starts| && l.starts[k] != Over;
      var es := CanFinish(l, k);
      assert Accepted(Meets(RunEvents(l, es), timeout, 0.0, true, true));
    }
  }

  /** What other threads do before a setter, and what the setter finds outside the bridge. */
  datatype Turn = Turn(events: seq<Event>, now: real, connected: bool, accepts: bool)

  /** The bridge when the setter of turn `n - 1` runs. */
  function LifeAt(l: Life, turns: seq<Turn>, n: nat): Life
    requires n <= |turns|
  {
    if n == 0 then l else RunEvents(LifeAt(l, turns, n - 1), turns[n - 1].events)
  }

  function MomentAt(l: Life, timeout: real, t: Turn): Moment {
    Meets(l, timeout, t.now, t.connected, t.accepts)
  }

  function Moments(l: Life, timeout: real, turns: seq<Turn>): (at: seq<Moment>)
    ensures |at| == |turns|
  {
    seq(|turns|, i requires 0 <= i < |turns| => MomentAt(LifeAt(l, turns, i + 1), timeout, turns[i]))
  }

  /** A request made of a bridge whose link is shut ends in a stop, whatever runs beside it. */
  lemma ShutBridgeStops(s: State, c: Input, start: real, l: Life, timeout: real, turns: seq<Turn>, end: real)
    requires Inv(s) && |c.values| == 14 && |turns| == 4 && MapCommand(c).Bounded? && l.linkShut
    ensures var o := Accept(s, c, start, Moments(l, timeout, turns), end);
            !o.result && o.state.deadline == Unset && o.state.trace != [] && Last(o.state.trace) == Stop
  {
    var at, t := Moments(l, timeout, turns), turns[0];
    assert LifeAt(l, turns, 0) == l;
    NothingAfterShut(l, t.events, timeout, t.now, t.connected, t.accepts);
    assert at[0] == MomentAt(LifeAt(l, turns, 1), timeout, t);
    AcceptKeepsInv(s, c, start, at, end);
  }

  // ---------- The objects ----------

  datatype StartCheck = ClosedAlready | StartedAlready | Proceed

  /** The bridge's liveness state; `trace` is the record of calls made on it, and `starts` says
      where each call of `start` stands. Each method up to `ShutLink` is one step of a thread. */
  class JetsonBridge {
    var started: bool
    var closed: bool
    var heartbeat: Heartbeat
    var linkShut: bool
    var starts: seq<Phase>
    const timeout: real
    var trace: seq<BridgeCall>
    ghost var revived: bool

    ghost function Abstract(): Life
      reads this
    {
      Life(started, closed, heartbeat, linkShut, starts, revived)
    }

    ghost predicate Valid()
      reads this
    {
      Lawful(Abstract())
    }

    constructor (timeout: real)
      ensures Valid() && Abstract() == UNUSED && trace == [] && this.timeout == timeout
    {
      started, closed, heartbeat, linkShut := false, false, Never, false;
      starts, trace, revived := [], [], false;
      this.timeout := timeout;
    }

    /** A heartbeat was answered: its time is recorded. */
    method Beat(now: real)
      requires Valid()
      modifies this`heartbeat
      ensures Valid() && Abstract() == After(old(Abstract()), Heard(now))
    {
      heartbeat := At(now);
    }

    /** The first section of `start`: a closed bridge raises, a started one is left alone. */
    method CheckStart() returns (r: StartCheck)
      requires Valid()
      modifies this`starts
      ensures Valid() && Abstract() == After(old(Abstract()), Check)
      ensures r == if closed then ClosedAlready else if started then StartedAlready else Proceed
      ensures r == Proceed ==> |starts| == |old(starts)| + 1 && starts[|starts| - 1] == Checked
    {
      if closed { return ClosedAlready; }
      if started { return StartedAlready; }
      starts := starts + [Checked];
      return Proceed;
    }

    /** The next exchange of a start: it goes on or gives up; its heartbeat is recorded. */
    method TakeReply(k: nat, ok: bool, now: real)
      requires Valid()
      modifies this`starts, this`heartbeat
      ensures Valid() && Abstract() == After(old(Abstract()), Reply(k, ok, now))
    {
      if k >= |starts| { return; }
      var p := starts[k];
      match p {
        case Checked => starts := starts[k := if ok then Greeted else Over];
        case Greeted =>
          starts := starts[k := if ok then Beating else Over];
          if ok {
            Beat(now);
          }
        case Beating => starts := starts[k := if ok then Ready else Over];
        case Ready =>
        case Over =>
      }
      assert starts == old(starts)[k := AfterReply(p, ok)];
    }

    /** The second section of `start`, which does not look at `closed` again. */
    method FinishStart(k: nat) returns (ok: bool)
      requires Valid()
      modifies this`started, this`starts, this`revived
      ensures Valid() && Abstract() == After(old(Abstract()), Finish(k))
      ensures ok <==> k < |old(starts)| && old(starts)[k] == Ready
      ensures ok ==> started
    {
      if k >= |starts| || starts[k] != Ready { return false; }
      starts := starts[k := Over];
      started, revived := true, closed;
      return true;
    }

    /** The locked section of `close`. */
    method SetClosed()
      requires Valid()
      modifies this`started, this`closed, this`revived
      ensures Valid() && Abstract() == After(old(Abstract()), CloseFlags)
    {
      started, closed, revived := false, true, false;
    }

    /** The end of `close`: the client is stopped and its stream closed. */
    method StopClient()
      requires Valid()
      modifies this`linkShut
      ensures Valid() && Abstract() == After(old(Abstract()), ShutLink)
    {
      linkShut := linkShut || closed;
    }

    /** Whatever other threads do, in the order they do it, they do by the steps above. */
    method Others(events: seq<Event>)
      requires Valid()
      modifies this
      ensures Valid() && trace == old(trace) && Abstract() == RunEvents(old(Abstract()), events)
    {
      ghost var l := Abstract();
      for i := 0 to |events|
        invariant Valid() && trace == old(trace) && Abstract() == RunEvents(l, events[..i])
      {
        Snoc(l, events[..i], events[i]);
        assert events[..i + 1] == events[..i] + [events[i]];
        match events[i] {
          case Heard(now) => Beat(now);
          case Check => var _ := CheckStart();
          case Reply(k, ok, now) => TakeReply(k, ok, now);
          case Finish(k) => var _ := FinishStart(k);
          case CloseFlags => SetClosed();
          case ShutLink => StopClient();
        }
      }
      assert events[..|events|] == events;
    }

    /** `start` when no other thread runs: started exactly after handshake, heartbeat and
        subscriptions; a closed bridge raises and a started one is left alone. */
    method Start(hello: bool, answered: bool, now: real, subscribed: bool) returns (r: StartCheck, ok: bool)
      requires Valid()
      modifies this
      ensures Valid() && trace == old(trace) && closed == old(closed) && linkShut == old(linkShut)
      ensures r == if closed then ClosedAlready else if old(started) then StartedAlready else Proceed
      ensures r != Proceed ==> !ok && Abstract() == old(Abstract())
      ensures r == Proceed ==> (ok <==> hello && answered && subscribed) && started == ok
      ensures r == Proceed ==> heartbeat == if hello && answered then At(now) else old(heartbeat)
      ensures r == Proceed ==> starts == old(starts) + [Over]
    {
      r := CheckStart();
      if r != Proceed { return r, false; }
      var k := |starts| - 1;
      TakeReply(k, hello, now);
      TakeReply(k, answered, now);
      TakeReply(k, subscribed, now);
      ok := FinishStart(k);
    }

    /** `close`, with other threads between its two parts: once it returns the link is shut. */
    method Close(between: seq<Event>)
      requires Valid()
      modifies this
      ensures Valid() && trace == old(trace) && closed && linkShut
      ensures Abstract() == After(RunEvents(After(old(Abstract()), CloseFlags), between), ShutLink)
    {
      SetClosed();
      EveryRunLawful(Abstract(), between);
      Others(between);
      StopClient();
    }

    /** A motion setter: nothing is forwarded unless the bridge is started and its heartbeat
        fresh. On a closed bridge that takes a start that finished after the close, and a link
        that is not shut yet. */
    method Forwarded(setter: Setter, m: Mapped, now: real, connected: bool, accepts: bool) returns (ok: bool)
      requires Valid()
      modifies this`trace
      ensures Valid() && ok == Accepted(Meets(Abstract(), timeout, now, connected, accepts))
      ensures linkShut ==> !ok
      ensures closed ==> (ok <==> revived && Fresh(Meets(Abstract(), timeout, now, connected, accepts)) && accepts && !linkShut)
      ensures trace == old(trace) + [Set(setter, m, MotionReady(Meets(Abstract(), timeout, now, connected, accepts)), ok)]
    {
      var ready := started && connected && heartbeat.At? && now - heartbeat.time <= timeout;
      ok := ready && accepts && !linkShut;
      trace := trace + [Set(setter, m, ready, ok)];
    }

    /** A stop goes out whatever the heartbeat. */
    method StopMotion()
      requires Valid()
      modifies this`trace
      ensures Valid() && trace == old(trace) + [Stop]
    {
      trace := trace + [Stop];
    }
  }

  /** A new bridge on which a start has had all its replies. */
  method StartedSoFar(now: real) returns (b: JetsonBridge)
    ensures fresh(b) && b.Valid() && b.timeout == 1.0
    ensures b.Abstract() == Life(false, false, At(now), false, [Ready], false)
  {
    b := new JetsonBridge(1.0);
    var _ := b.CheckStart();
    b.TakeReply(0, true, now);
    b.TakeReply(0, true, now);
    b.TakeReply(0, true, now);
    assert b.starts == [Ready];
  }

  /** If that start finishes after the flags say closed, a setter passes until `close` shuts the
      link, and then none does. */
  method CloseDuringStart(now: real, m: Mapped) returns (b: JetsonBridge, during: bool, after: bool)
    ensures b.closed && b.started && during && !after
  {
    b := StartedSoFar(now);
    b.SetClosed();
    var _ := b.FinishStart(0);
    during := b.Forwarded(Gait, m, now, true, true);
    b.StopClient();
    after := b.Forwarded(Gait, m, now, true, true);
  }

  /** The adapter over its bridge. Before each of the four setters other threads may start,
      close or beat the bridge: that is the setter's turn. */
  class MotionCommandAdapter {
    const bridge: JetsonBridge
    var expiresAt: Deadline
    var refused: bool
    ghost var acceptedAt: real

    ghost function Abstract(): State
      reads this, bridge
    {
      State(expiresAt, bridge.trace, acceptedAt)
    }

    ghost predicate Valid()
      reads this, bridge
    {
      bridge.Valid() && Inv(Abstract())
    }

    constructor (bridge: JetsonBridge)
      requires bridge.Valid() && bridge.trace == []
      ensures Valid() && Abstract() == START && this.bridge == bridge
    {
      this.bridge := bridge;
      expiresAt, refused, acceptedAt := Unset, false, 0.0;
    }

    method ExpireIfNeeded(now: real) returns (stopped: bool)
      requires Valid()
      modifies this`expiresAt, bridge`trace
      ensures Valid() && Outcome(Abstract(), stopped) == Expire(old(Abstract()), now)
    {
      ExpireKeepsInv(Abstract(), now);
      if expiresAt.Unset? || now < expiresAt.time {
        return false;
      }
      expiresAt := Unset;
      bridge.StopMotion();
      return true;
    }

    /** One setter, after whatever other threads did; a refusal is followed by a stop. */
    method Send(i: nat, m: Mapped, t: Turn) returns (ok: bool)
      requires bridge.Valid() && i < 4
      modifies this`expiresAt, this`refused, bridge
      ensures bridge.Valid() && bridge.Abstract() == RunEvents(old(bridge.Abstract()), t.events)
      ensures ok == Accepted(MomentAt(bridge.Abstract(), bridge.timeout, t))
      ensures bridge.trace == old(bridge.trace) + [CallOf(i, m, MomentAt(bridge.Abstract(), bridge.timeout, t))]
                            + if ok then [] else [Stop]
      ensures expiresAt == if ok then old(expiresAt) else Unset
      ensures refused == if ok then old(refused) else true
    {
      bridge.Others(t.events);
      ok := bridge.Forwarded(GROUP[i], m, t.now, t.connected, t.accepts);
      if !ok {
        refused := true;
        expiresAt := Unset;
        bridge.StopMotion();
      }
    }

    /** Forward one request: the four setters in turn until one is refused. */
    method AcceptRequest(c: Input, start: real, turns: seq<Turn>, end: real) returns (ok: bool)
      requires Valid() && |c.values| == 14 && |turns| == 4
      modifies this, bridge
      ensures Valid() && refused == !ok
      ensures Outcome(Abstract(), ok)
           == Accept(old(Abstract()), c, start, Moments(old(bridge.Abstract()), bridge.timeout, turns), end)
    {
      AcceptKeepsInv(Abstract(), c, start, Moments(bridge.Abstract(), bridge.timeout, turns), end);
      var _ := ExpireIfNeeded(start);
      var r := MapCommand(c);
      if !r.Bounded? {
        refused := true;
        return false;
      }
      refused := false;
      ok := ForwardAll(r.mapped, turns, end);
    }

    /** The setters of a mapped request and the new deadline. */
    method ForwardAll(m: Mapped, turns: seq<Turn>, end: real) returns (ok: bool)
      requires bridge.Valid() && |turns| == 4 && !refused
      modifies this, bridge
      ensures bridge.Valid() && refused == !ok
      ensures Outcome(Abstract(), ok)
           == Forward(old(Abstract()), m, 0, Moments(old(bridge.Abstract()), bridge.timeout, turns), end)
    {
      ghost var before, life := Abstract(), bridge.Abstract();
      ghost var at := Moments(life, bridge.timeout, turns);
      var i := 0;
      while i < 4
        invariant 0 <= i <= 4 && bridge.Valid() && !refused
        invariant expiresAt == before.deadline && acceptedAt == before.acceptedAt
        invariant bridge.Abstract() == LifeAt(life, turns, i)
        invariant Forward(before, m, 0, at, end) == Forward(Abstract(), m, i, at, end)
      {
        ghost var t := bridge.trace;
        ok := Send(i, m, turns[i]);
        assert at[i] == MomentAt(bridge.Abstract(), bridge.timeout, turns[i]);
        if !ok {
          return;
        }
        assert bridge.trace == t + [CallOf(i, m, at[i])];
        i := i + 1;
      }
      expiresAt := Due(end + m.validity);
      acceptedAt := end;
      return true;
    }
  }
}
