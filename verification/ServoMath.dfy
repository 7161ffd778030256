/**
  Servo positions: ticks, angles and rounded centidegrees, and the map from joints to
  servos. Angles are exact; 4096 ticks make a turn, so one tick is 1125/128 centidegrees.
  */
module ServoMath {
  import opened RobotConfigs

  const SERVO_CENTER_TICK := 2048
  const TICKS_PER_DEG := 4096.0 / 360.0

  // ---------- Rounding ----------

  /** `r` is an integer nearest to `x`. */
  predicate Nearest(r: int, x: real) {
    -0.5 <= r as real - x <= 0.5
  }

  /** Half away from zero, as C rounds. */
  function Lround(x: real): (r: int)
    ensures Nearest(r, x)
  {
    if x >= 0.0 then (x + 0.5).Floor else -((-x + 0.5).Floor)
  }

  /** Half to even, as Python rounds. */
  function PyRound(x: real): (r: int)
    ensures Nearest(r, x)
  {
    var f := x.Floor;
    var part := x - f as real;
    if part < 0.5 then f else if part > 0.5 then f + 1 else if f % 2 == 0 then f else f + 1
  }

  /** Close to an integer, rounding gives that integer, whichever way halves go. */
  lemma NearestIsUnique(r: int, x: real, n: int)
    requires Nearest(r, x) && -0.5 < n as real - x < 0.5
    ensures r == n
  {
    assert -1.0 < (r - n) as real < 1.0;
  }

  lemma RoundsExactly(n: int)
    ensures Lround(n as real) == n && PyRound(n as real) == n
  {
    NearestIsUnique(Lround(n as real), n as real, n);
    NearestIsUnique(PyRound(n as real), n as real, n);
  }

  /** Both are the nearest integer; at a half C goes away from zero and Python to the even one. */
  lemma HalvesRound(n: int)
    ensures Lround(n as real + 0.5) == if n >= 0 then n + 1 else n
    ensures PyRound(n as real + 0.5) % 2 == 0 && n <= PyRound(n as real + 0.5) <= n + 1
  {
    var x := n as real + 0.5;
    assert x.Floor == n;
    if n < 0 {
      assert (-x + 0.5).Floor == -n;
    }
  }

  // ---------- Ticks and angles ----------

  /** The joint angle of a tick, in degrees. */
  function TickToAngle(s: ServoConfig, tick: int): real {
    s.sign as real * ((tick - SERVO_CENTER_TICK - s.trim) as real / TICKS_PER_DEG)
  }

  datatype JointCommand = JointCommand(tick: int, clampedLow: bool, clampedHigh: bool, unmapped: bool)

  function RawTick(s: ServoConfig, angle: real): int {
    SERVO_CENTER_TICK + s.trim + s.sign * Lround(angle * TICKS_PER_DEG)
  }

  /** The goal tick of an angle: into the servo's travel, then into the device's range. */
  function AngleToTick(s: ServoConfig, angle: real): JointCommand {
    var raw := RawTick(s, angle);
    var low := raw < s.minTick;
    var a := if low then s.minTick else raw;
    var high := a > s.maxTick;
    var b := if high then s.maxTick else a;
    var low2 := b < 0;
    var c := if low2 then 0 else b;
    var high2 := c > SERVO_MAX_TICK;
    JointCommand(if high2 then SERVO_MAX_TICK else c, low || low2, high || high2, false)
  }

  /** Tick 2048, moved by the trim, is straight, and a quarter turn is 1024 ticks to the side the
      sign says. */
  lemma TicksOfTurn(s: ServoConfig)
    requires s.sign == 1 || s.sign == -1
    ensures TickToAngle(s, 2048 + s.trim) == 0.0
    ensures TickToAngle(s, 2048 + s.trim + 1024 * s.sign) == 90.0
  {
    assert TICKS_PER_DEG == 512.0 / 45.0;
    assert 1024.0 / TICKS_PER_DEG == 90.0 && -1024.0 / TICKS_PER_DEG == -90.0;
  }

  /** The goal of an angle: the tick nearest to it, if that is in travel, and the nearer end of
      travel if not, which the flags say. */
  lemma GoalInTravel(s: ServoConfig, angle: real)
    requires ValidServo(s)
    ensures var raw, j := RawTick(s, angle), AngleToTick(s, angle);
            Nearest(s.sign * (raw - 2048 - s.trim), angle * (512.0 / 45.0))
            && j.tick == (if raw < s.minTick then s.minTick else if raw > s.maxTick then s.maxTick else raw)
            && (j.clampedLow <==> raw < s.minTick) && (j.clampedHigh <==> raw > s.maxTick) && !j.unmapped
  {
    var n := Lround(angle * TICKS_PER_DEG);
    assert TICKS_PER_DEG == 512.0 / 45.0;
    assert s.sign * (s.sign * n) == n;
  }

  /** Whatever the servo record says, the goal is one the device has, and a flag says so when it is
      above or below the tick nearest to the angle. */
  lemma GoalInDevice(s: ServoConfig, angle: real)
    ensures var raw, j := RawTick(s, angle), AngleToTick(s, angle);
            0 <= j.tick <= 4095 && (j.tick > raw ==> j.clampedLow) && (j.tick < raw ==> j.clampedHigh)
  {
  }

  /** An angle in centidegrees, exactly. */
  function Centidegrees(angle: real): real {
    angle * 100.0
  }

  lemma TickIsCentidegrees(s: ServoConfig, tick: int)
    requires s.sign == 1 || s.sign == -1
    ensures Centidegrees(TickToAngle(s, tick)) * (128.0 / 1125.0) == (s.sign * (tick - SERVO_CENTER_TICK - s.trim)) as real
  {
    var d := (tick - SERVO_CENTER_TICK - s.trim) as real;
    assert TICKS_PER_DEG == 512.0 / 45.0;
    assert d / TICKS_PER_DEG == d * (45.0 / 512.0);
    if s.sign == 1 {
      assert TickToAngle(s, tick) == d * (45.0 / 512.0);
    } else {
      assert TickToAngle(s, tick) == -(d * (45.0 / 512.0));
    }
  }

  /** Centidegrees nearest to a whole number of ticks round back to that number. */
  lemma TicksComeBack(c: int, exact: real, ticks: int)
    requires Nearest(c, exact) && exact * (128.0 / 1125.0) == ticks as real
    ensures Lround((c as real / 100.0) * TICKS_PER_DEG) == ticks
  {
    var x := (c as real / 100.0) * TICKS_PER_DEG;
    assert TICKS_PER_DEG == 512.0 / 45.0;
    assert x == c as real * (128.0 / 1125.0);
    assert x - ticks as real == (c as real - exact) * (128.0 / 1125.0);
    NearestIsUnique(Lround(x), x, ticks);
  }

  /** Every tick within travel survives the way over centidegrees, rounded either way, and
      comes back unclamped. */
  lemma TickRoundTrip(s: ServoConfig, tick: int, c: int)
    requires ValidServo(s) && s.minTick <= tick <= s.maxTick && Nearest(c, Centidegrees(TickToAngle(s, tick)))
    ensures AngleToTick(s, c as real / 100.0) == JointCommand(tick, false, false, false)
  {
    var d := tick - SERVO_CENTER_TICK - s.trim;
    TickIsCentidegrees(s, tick);
    TicksComeBack(c, Centidegrees(TickToAngle(s, tick)), s.sign * d);
    assert s.sign * (s.sign * d) == d;
  }

  /** Unclamped, centidegrees come back within four. */
  lemma CentidegreesRoundTrip(s: ServoConfig, c: int, back: int)
    requires ValidServo(s)
    requires var j := AngleToTick(s, c as real / 100.0);
             !j.clampedLow && !j.clampedHigh && Nearest(back, Centidegrees(TickToAngle(s, j.tick)))
    ensures -4 <= back - c <= 4
  {
    var x := (c as real / 100.0) * TICKS_PER_DEG;
    var ticks := Lround(x);
    var tick := SERVO_CENTER_TICK + s.trim + s.sign * ticks;
    assert AngleToTick(s, c as real / 100.0).tick == tick;
    TickIsCentidegrees(s, tick);
    assert s.sign * (s.sign * ticks) == ticks;
    var exact := Centidegrees(TickToAngle(s, tick));
    assert exact * (128.0 / 1125.0) == ticks as real;
    WithinFour(c, exact, ticks, back);
  }

  lemma WithinFour(c: int, exact: real, ticks: int, back: int)
    requires Nearest(ticks, (c as real / 100.0) * TICKS_PER_DEG) && exact * (128.0 / 1125.0) == ticks as real
    requires Nearest(back, exact)
    ensures -4 <= back - c <= 4
  {
    assert TICKS_PER_DEG == 512.0 / 45.0;
    assert (c as real / 100.0) * TICKS_PER_DEG == c as real * (128.0 / 1125.0);
    assert -0.5 <= (exact - c as real) * (128.0 / 1125.0) <= 0.5;
    assert -4.9 < (back - c) as real < 4.9;
  }

  /** The bound is reached: four centidegrees round to no tick at all. */
  lemma FourIsReached(s: ServoConfig)
    requires ValidServo(s) && s.trim == 0 && s.minTick <= SERVO_CENTER_TICK <= s.maxTick
    ensures AngleToTick(s, 4.0 / 100.0) == JointCommand(SERVO_CENTER_TICK, false, false, false)
    ensures TickToAngle(s, SERVO_CENTER_TICK) == 0.0
  {
    var x := 4.0 / 100.0 * TICKS_PER_DEG;
    NearestIsUnique(Lround(x), x, 0);
  }

  // ---------- The servo map ----------

  /** The indexes; a later servo replaces an earlier one in the same place. */
  function BySlot(servos: seq<ServoConfig>): map<Slot, ServoConfig> {
    if servos == [] then map[]
    else var s := servos[|servos| - 1]; BySlot(servos[..|servos| - 1])[Slot(s.leg, s.joint) := s]
  }

  function ById(servos: seq<ServoConfig>): map<int, ServoConfig> {
    if servos == [] then map[]
    else var s := servos[|servos| - 1]; ById(servos[..|servos| - 1])[s.id := s]
  }

  lemma {:induction false} SlotHoldsServo(servos: seq<ServoConfig>, i: nat)
    requires i < |servos| && DistinctSlots(servos)
    ensures Slot(servos[i].leg, servos[i].joint) in BySlot(servos)
    ensures BySlot(servos)[Slot(servos[i].leg, servos[i].joint)] == servos[i]
  {
    if i < |servos| - 1 {
      SlotHoldsServo(servos[..|servos| - 1], i);
    }
  }

  lemma {:induction false} IdHoldsServo(servos: seq<ServoConfig>, i: nat)
    requires i < |servos| && DistinctIds(servos)
    ensures servos[i].id in ById(servos) && ById(servos)[servos[i].id] == servos[i]
  {
    if i < |servos| - 1 {
      IdHoldsServo(servos[..|servos| - 1], i);
    }
  }

  /** On a valid configuration every joint has a servo, and the two indexes agree on it. */
  lemma MapIsTotal(c: RobotConfig, leg: int, joint: int)
    requires Valid(c) && 0 <= leg < NUM_LEGS && 0 <= joint < JOINTS_PER_LEG
    ensures Slot(leg, joint) in BySlot(c.servos)
    ensures var s := BySlot(c.servos)[Slot(leg, joint)];
            ValidServo(s) && s.leg == leg && s.joint == joint && s in c.servos
            && s.id in ById(c.servos) && ById(c.servos)[s.id] == s
  {
    assert HasSlot(c.servos, leg, joint);
    var i :| 0 <= i < |c.servos| && c.servos[i].leg == leg && c.servos[i].joint == joint;
    SlotHoldsServo(c.servos, i);
    IdHoldsServo(c.servos, i);
  }

  /** The map as the program holds it. */
  class ServoMap {
    const bySlot: map<Slot, ServoConfig>
    const byId: map<int, ServoConfig>

    constructor (c: RobotConfig)
      ensures bySlot == BySlot(c.servos) && byId == ById(c.servos)
    {
      var slots: map<Slot, ServoConfig>, ids: map<int, ServoConfig> := map[], map[];
      for i := 0 to |c.servos|
        invariant slots == BySlot(c.servos[..i]) && ids == ById(c.servos[..i])
      {
        var s := c.servos[i];
        assert c.servos[..i + 1][..i] == c.servos[..i];
        slots := slots[Slot(s.leg, s.joint) := s];
        ids := ids[s.id := s];
      }
      assert c.servos[..|c.servos|] == c.servos;
      bySlot, byId := slots, ids;
    }
  }

  function MapAngleToTick(servos: seq<ServoConfig>, leg: int, joint: int, angle: real): JointCommand {
    if Slot(leg, joint) in BySlot(servos) then AngleToTick(BySlot(servos)[Slot(leg, joint)], angle)
    else JointCommand(SERVO_CENTER_TICK, false, false, true)
  }

  /** A joint that no servo serves is marked so, and one that is served goes by its servo. */
  lemma UnmappedIff(servos: seq<ServoConfig>, leg: int, joint: int, angle: real)
    ensures var j := MapAngleToTick(servos, leg, joint, angle);
            (j.unmapped <==> forall i :: 0 <= i < |servos| ==> servos[i].leg != leg || servos[i].joint != joint)
            && (j.unmapped ==> j == JointCommand(2048, false, false, true))
  {
    SlotServed(servos, leg, joint);
  }

  lemma {:induction false} SlotServed(servos: seq<ServoConfig>, leg: int, joint: int)
    ensures Slot(leg, joint) in BySlot(servos) <==>
              exists i :: 0 <= i < |servos| && servos[i].leg == leg && servos[i].joint == joint
  {
    if servos != [] {
      var n := |servos| - 1;
      SlotServed(servos[..n], leg, joint);
      assert servos[n].leg == leg && servos[n].joint == joint ==> Slot(leg, joint) in BySlot(servos);
      forall i | 0 <= i < n && servos[i].leg == leg && servos[i].joint == joint
        ensures Slot(leg, joint) in BySlot(servos)
      {
        assert servos[..n][i] == servos[i];
      }
    }
  }

  /** The calibration path: the tick is clamped to the device, its angle rounded to
      centidegrees, half to even. */
  function CommandedCdeg(s: ServoConfig, tick: int): int {
    var t := if tick < 0 then 0 else if tick > SERVO_MAX_TICK then SERVO_MAX_TICK else tick;
    PyRound(Centidegrees(TickToAngle(s, t)))
  }

  /** A tick outside the device counts as the nearer end of its range. */
  lemma CommandedAtEnds(s: ServoConfig, tick: int)
    ensures tick < 0 ==> CommandedCdeg(s, tick) == CommandedCdeg(s, 0)
    ensures tick > 4095 ==> CommandedCdeg(s, tick) == CommandedCdeg(s, 4095)
  {
  }

  /** On every valid configuration, for every joint and every tick in its travel, the command
      sent makes the servo go to that tick. */
  lemma CalibrationTickIsExact(c: RobotConfig, leg: int, joint: int, tick: int)
    requires Valid(c) && 0 <= leg < NUM_LEGS && 0 <= joint < JOINTS_PER_LEG
    ensures Slot(leg, joint) in BySlot(c.servos)
    ensures var s := BySlot(c.servos)[Slot(leg, joint)];
            s.minTick <= tick <= s.maxTick ==>
              MapAngleToTick(c.servos, leg, joint, CommandedCdeg(s, tick) as real / 100.0)
              == JointCommand(tick, false, false, false)
  {
    MapIsTotal(c, leg, joint);
    var s := BySlot(c.servos)[Slot(leg, joint)];
    if s.minTick <= tick <= s.maxTick {
      TickRoundTrip(s, tick, CommandedCdeg(s, tick));
    }
  }

  /** The command fits the signed sixteen-bit field it is sent in exactly when the tick is at
      most 3728 ticks from the trimmed centre. */
  lemma CommandFitsWire(s: ServoConfig, tick: int)
    requires ValidServo(s) && 0 <= tick <= SERVO_MAX_TICK
    ensures -0x8000 <= CommandedCdeg(s, tick) <= 0x7FFF <==> -3728 <= tick - SERVO_CENTER_TICK - s.trim <= 3728
  {
    var d := s.sign * (tick - SERVO_CENTER_TICK - s.trim);
    TickIsCentidegrees(s, tick);
    var exact := Centidegrees(TickToAngle(s, tick));
    assert exact == d as real * (1125.0 / 128.0);
    assert Nearest(CommandedCdeg(s, tick), exact);
  }
}
