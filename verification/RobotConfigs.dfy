/** The robot configuration: its records, its built-in profiles and its validation rules. */
module RobotConfigs {

  const NUM_LEGS := 6
  const JOINTS_PER_LEG := 3
  const NUM_SERVOS := 18
  const NUM_FOOT_SENSORS := 6
  const NUM_RC_ANALOG_INPUTS := 8
  const ROBOT_NAME_LEN := 16
  const SCHEMA_VERSION := 9
  const SERVO_MAX_TICK := 4095

  const RC_CENTERED_ANALOG := 0
  const RC_UNIPOLAR_ANALOG := 1
  const RC_RELATIVE_ENCODER := 2

  datatype LinkLengths = LinkLengths(coxa: int, femur: int, tibia: int)

  datatype BodyGeometry = BodyGeometry(homeRadius: int, homeFootZ: int, coxaLift: int)

  datatype LegGeometry = LegGeometry(x: int, y: int, z: int, yaw: int)

  datatype ServoConfig = ServoConfig(id: int, leg: int, joint: int, sign: int, trim: int, minTick: int, maxTick: int)

  datatype GaitDefaults = GaitDefaults(bodyHeight: int, stride: int, stepHeight: int, duty: int, speed: int, gait: int)

  datatype RcChannel = RcChannel(
    source: int, kind: int, minRaw: int, centerRaw: int, maxRaw: int, isReversed: int, deadband: int, expo: int,
    filterTau: int, debounce: int)

  datatype BodyLimits = BodyLimits(
    maxForward: int, maxReverse: int, maxLateral: int, maxYaw: int, forwardAccel: int, forwardDecel: int,
    lateralAccel: int, lateralDecel: int, yawAccel: int, yawDecel: int, heightRise: int, heightLower: int,
    translationRate: int, rotationRate: int)

  datatype FootSensorCal = FootSensorCal(baseline: int, near: int, touch: int, load: int, enabled: int)

  /** The name is a string of Unicode code points. */
  datatype RobotConfig = RobotConfig(
    schemaVersion: int, robotName: seq<int>, links: LinkLengths, geometry: BodyGeometry, legs: seq<LegGeometry>,
    servos: seq<ServoConfig>, gait: GaitDefaults, channels: seq<RcChannel>, bodyCommand: BodyLimits,
    feet: seq<FootSensorCal>, features: int)

  // ---------- Built-in profiles ----------

  const PROFILE_LINKS := LinkLengths(5200, 6651, 11716)
  const PROFILE_GEOMETRY := BodyGeometry(12675, -13173, 0)
  const PROFILE_GAIT := GaitDefaults(132, 60, 30, 159, 128, 0)
  const DEFAULT_BODY := BodyLimits(1000, 1000, 1000, 1000, 1200, 1800, 1000, 1500, 1500, 2000, 20, 30, 60, 500)

  function ProfileLeg(i: int): LegGeometry {
    if i == 0 then LegGeometry(-656, -1156, 0, 13500)
    else if i == 1 then LegGeometry(656, -1156, 0, -13500)
    else if i == 2 then LegGeometry(698, 0, 0, -9000)
    else if i == 3 then LegGeometry(656, 1156, 0, -4500)
    else if i == 4 then LegGeometry(-656, 1156, 0, 4500)
    else LegGeometry(-698, 0, 0, 9000)
  }

  function ProfileLegs(): seq<LegGeometry> {
    seq(NUM_LEGS, i => ProfileLeg(i))
  }

  function ProfileServo(i: int): ServoConfig {
    ServoConfig(i + 1, i / JOINTS_PER_LEG, i % JOINTS_PER_LEG, 1, 0, 1024, 3072)
  }

  function ProfileServos(): seq<ServoConfig> {
    seq(NUM_SERVOS, i => ProfileServo(i))
  }

  function DefaultChannel(i: int): RcChannel {
    if i < 4 then RcChannel(i + 1, RC_CENTERED_ANALOG, -1000, 0, 1000, 0, 13, 0, 60, 0)
    else if i < 6 then RcChannel(i + 1, RC_UNIPOLAR_ANALOG, 0, 0, 1000, 0, 0, 0, 120, 0)
    else RcChannel(i + 1, RC_RELATIVE_ENCODER, 0, 0, 2047, 0, 0, 0, 0, 0)
  }

  function DefaultChannels(): seq<RcChannel> {
    seq(NUM_RC_ANALOG_INPUTS, i => DefaultChannel(i))
  }

  /** Replace the kinematics only. */
  function WithKinematicsProfile(c: RobotConfig): RobotConfig {
    c.(links := PROFILE_LINKS, geometry := PROFILE_GEOMETRY, legs := ProfileLegs(), gait := PROFILE_GAIT)
  }

  /** Replace the kinematics and the servo records. */
  function WithMotionProfile(c: RobotConfig): RobotConfig {
    WithKinematicsProfile(c).(servos := ProfileServos())
  }

  // ---------- Validation ----------

  predicate ValidName(name: seq<int>) {
    |Ascii(name)| < ROBOT_NAME_LEN
  }

  /** The characters that survive an ASCII encoding that drops the others. */
  function Ascii(name: seq<int>): seq<int> {
    if name == [] then []
    else if 0 <= name[0] < 128 then [name[0]] + Ascii(name[1..])
    else Ascii(name[1..])
  }

  function Square(x: int): int {
    x * x
  }

  /** The home stance is in reach of the two links; lengths are compared by their squares. */
  predicate HomeReachable(l: LinkLengths, g: BodyGeometry) {
    var d2 := Square(g.homeRadius - l.coxa) + Square(g.homeFootZ);
    Square(l.femur - l.tibia) <= d2 <= Square(l.femur + l.tibia)
  }

  predicate ValidStance(l: LinkLengths, g: BodyGeometry) {
    1 <= l.coxa <= 0xFFFF && 1 <= l.femur <= 0xFFFF && 1 <= l.tibia <= 0xFFFF
    && 1 <= g.homeRadius <= 0xFFFF && -0x8000 <= g.homeFootZ <= 0x7FFF && 0 <= g.coxaLift <= 0xFFFF
    && HomeReachable(l, g)
  }

  predicate ValidLeg(l: LegGeometry) {
    -0x8000 <= l.x <= 0x7FFF && -0x8000 <= l.y <= 0x7FFF && -0x8000 <= l.z <= 0x7FFF && -0x8000 <= l.yaw <= 0x7FFF
  }

  /** Duty and speed are not range-checked. */
  predicate ValidGait(g: GaitDefaults) {
    0 <= g.gait <= 5 && 40 <= g.bodyHeight <= 160 && 0 <= g.stride <= 80 && 0 <= g.stepHeight <= 50
  }

  function ExpectedKind(source: int): int {
    if source - 1 < 4 then RC_CENTERED_ANALOG else if source - 1 < 6 then RC_UNIPOLAR_ANALOG else RC_RELATIVE_ENCODER
  }

  predicate ValidChannel(c: RcChannel) {
    1 <= c.source <= NUM_RC_ANALOG_INPUTS && c.kind == ExpectedKind(c.source)
    && c.minRaw < c.maxRaw && c.minRaw <= c.centerRaw <= c.maxRaw
    && (c.kind == RC_CENTERED_ANALOG ==> c.centerRaw != c.minRaw && c.centerRaw != c.maxRaw)
    && (c.isReversed == 0 || c.isReversed == 1) && 0 <= c.deadband <= 128 && 0 <= c.expo <= 255
    && 0 <= c.filterTau <= 1000 && 0 <= c.debounce <= 2000
  }

  predicate ValidBody(b: BodyLimits) {
    1 <= b.maxForward <= 1000 && 1 <= b.maxReverse <= 1000 && 1 <= b.maxLateral <= 1000 && 1 <= b.maxYaw <= 1000
    && 1 <= b.forwardAccel <= 5000 && 1 <= b.forwardDecel <= 5000 && 1 <= b.lateralAccel <= 5000
    && 1 <= b.lateralDecel <= 5000 && 1 <= b.yawAccel <= 5000 && 1 <= b.yawDecel <= 5000
    && 1 <= b.heightRise <= 200 && 1 <= b.heightLower <= 200
    && 1 <= b.translationRate <= 200 && 1 <= b.rotationRate <= 2000
  }

  predicate ValidServo(s: ServoConfig) {
    1 <= s.id <= 253 && 0 <= s.leg < NUM_LEGS && 0 <= s.joint < JOINTS_PER_LEG && (s.sign == 1 || s.sign == -1)
    && -0x8000 <= s.trim <= 0x7FFF && 0 <= s.minTick < s.maxTick <= SERVO_MAX_TICK
  }

  predicate ValidFoot(f: FootSensorCal) {
    -0x8000_0000 <= f.baseline <= 0x7FFF_FFFF
    && 0 <= f.near <= 0xFFFF && 0 <= f.touch <= 0xFFFF && 0 <= f.load <= 0xFFFF
    && (f.enabled != 0 ==> f.near != 0 && f.touch != 0 && f.load != 0 && f.touch <= f.load)
  }

  predicate DistinctIds(servos: seq<ServoConfig>) {
    forall i, j :: 0 <= i < j < |servos| ==> servos[i].id != servos[j].id
  }

  predicate DistinctSlots(servos: seq<ServoConfig>) {
    forall i, j :: 0 <= i < j < |servos| ==> servos[i].leg != servos[j].leg || servos[i].joint != servos[j].joint
  }

  predicate DistinctSources(channels: seq<RcChannel>) {
    forall i, j :: 0 <= i < j < |channels| ==> channels[i].source != channels[j].source
  }

  predicate CoversSlots(servos: seq<ServoConfig>) {
    forall leg, joint :: 0 <= leg < NUM_LEGS && 0 <= joint < JOINTS_PER_LEG ==> HasSlot(servos, leg, joint)
  }

  predicate HasSlot(servos: seq<ServoConfig>, leg: int, joint: int) {
    exists i :: 0 <= i < |servos| && servos[i].leg == leg && servos[i].joint == joint
  }

  predicate HasSource(channels: seq<RcChannel>, source: int) {
    exists i :: 0 <= i < |channels| && channels[i].source == source
  }

  predicate CoversSources(channels: seq<RcChannel>) {
    forall source :: 1 <= source <= NUM_RC_ANALOG_INPUTS ==> HasSource(channels, source)
  }

  /** What `validate_robot_config` accepts: no violation is reported. */
  predicate Valid(c: RobotConfig) {
    c.schemaVersion == SCHEMA_VERSION && ValidName(c.robotName) && ValidStance(c.links, c.geometry)
    && |c.legs| == NUM_LEGS && (forall i :: 0 <= i < |c.legs| ==> ValidLeg(c.legs[i]))
    && ValidGait(c.gait) && 0 <= c.features < 32
    && ValidRc(c.channels) && ValidBody(c.bodyCommand) && ValidServos(c.servos)
    && |c.feet| == NUM_FOOT_SENSORS && (forall i :: 0 <= i < |c.feet| ==> ValidFoot(c.feet[i]))
  }

  predicate ValidRc(channels: seq<RcChannel>) {
    |channels| == NUM_RC_ANALOG_INPUTS && (forall i :: 0 <= i < |channels| ==> ValidChannel(channels[i]))
    && DistinctSources(channels) && CoversSources(channels)
  }

  predicate ValidServos(servos: seq<ServoConfig>) {
    |servos| == NUM_SERVOS && (forall i :: 0 <= i < |servos| ==> ValidServo(servos[i]))
    && DistinctIds(servos) && DistinctSlots(servos) && CoversSlots(servos)
  }

  // ---------- Counting violations ----------

  function One(violated: bool): nat {
    if violated then 1 else 0
  }

  function OutOf(low: int, x: int, high: int): nat {
    One(!(low <= x <= high))
  }

  /** The reach check is made only when the four lengths are in range. */
  function StanceErrors(l: LinkLengths, g: BodyGeometry): nat {
    OutOf(1, l.coxa, 0xFFFF) + OutOf(1, l.femur, 0xFFFF) + OutOf(1, l.tibia, 0xFFFF)
    + OutOf(1, g.homeRadius, 0xFFFF) + OutOf(-0x8000, g.homeFootZ, 0x7FFF) + OutOf(0, g.coxaLift, 0xFFFF)
    + One(0 < l.coxa <= 0xFFFF && 0 < l.femur <= 0xFFFF && 0 < l.tibia <= 0xFFFF && 0 < g.homeRadius <= 0xFFFF
          && !HomeReachable(l, g))
  }

  function LegErrors(l: LegGeometry): nat {
    OutOf(-0x8000, l.x, 0x7FFF) + OutOf(-0x8000, l.y, 0x7FFF) + OutOf(-0x8000, l.z, 0x7FFF)
    + OutOf(-0x8000, l.yaw, 0x7FFF)
  }

  function GaitErrors(g: GaitDefaults): nat {
    OutOf(0, g.gait, 5) + OutOf(40, g.bodyHeight, 160) + OutOf(0, g.stride, 80) + OutOf(0, g.stepHeight, 50)
  }

  function ScaleErrors(b: BodyLimits): nat {
    OutOf(1, b.maxForward, 1000) + OutOf(1, b.maxReverse, 1000) + OutOf(1, b.maxLateral, 1000)
    + OutOf(1, b.maxYaw, 1000)
  }

  function AccelErrors(b: BodyLimits): nat {
    OutOf(1, b.forwardAccel, 5000) + OutOf(1, b.forwardDecel, 5000) + OutOf(1, b.lateralAccel, 5000)
    + OutOf(1, b.lateralDecel, 5000) + OutOf(1, b.yawAccel, 5000) + OutOf(1, b.yawDecel, 5000)
  }

  function RateErrors(b: BodyLimits): nat {
    OutOf(1, b.heightRise, 200) + OutOf(1, b.heightLower, 200) + OutOf(1, b.translationRate, 200)
    + OutOf(1, b.rotationRate, 2000)
  }

  function BodyErrors(b: BodyLimits): nat {
    ScaleErrors(b) + AccelErrors(b) + RateErrors(b)
  }

  /** What is wrong with a channel by itself, its source aside. */
  function ChannelErrors(c: RcChannel): nat {
    One(c.kind != ExpectedKind(c.source)) + One(c.minRaw >= c.maxRaw) + OutOf(c.minRaw, c.centerRaw, c.maxRaw)
    + One(c.kind == RC_CENTERED_ANALOG && (c.centerRaw == c.minRaw || c.centerRaw == c.maxRaw))
    + OutOf(0, c.isReversed, 1) + OutOf(0, c.deadband, 128) + OutOf(0, c.expo, 255)
    + OutOf(0, c.filterTau, 1000) + OutOf(0, c.debounce, 2000)
  }

  predicate SourceSeen(channels: seq<RcChannel>, n: nat, source: int)
    requires n <= |channels|
  {
    exists k :: 0 <= k < n && channels[k].source == source
  }

  /** A source out of range or, in range, seen before. */
  function SourceErrors(channels: seq<RcChannel>, n: nat): nat
    requires n < |channels|
  {
    var source := channels[n].source;
    if !(1 <= source <= NUM_RC_ANALOG_INPUTS) then 1 else One(SourceSeen(channels, n, source))
  }

  function ChannelsErrors(channels: seq<RcChannel>, n: nat): nat
    requires n <= |channels|
  {
    if n == 0 then 0
    else ChannelsErrors(channels, n - 1) + SourceErrors(channels, n - 1) + ChannelErrors(channels[n - 1])
  }

  /** The sources are exactly one to eight. */
  predicate SourcesAreAll(channels: seq<RcChannel>) {
    CoversSources(channels) && forall k :: 0 <= k < |channels| ==> 1 <= channels[k].source <= NUM_RC_ANALOG_INPUTS
  }

  function RcErrors(channels: seq<RcChannel>): nat {
    One(|channels| != NUM_RC_ANALOG_INPUTS) + ChannelsErrors(channels, |channels|) + One(!SourcesAreAll(channels))
  }

  /** What is wrong with a servo by itself, its identifier and slot aside. */
  function ServoErrors(s: ServoConfig): nat {
    OutOf(0, s.leg, NUM_LEGS - 1) + OutOf(0, s.joint, JOINTS_PER_LEG - 1) + One(s.sign != -1 && s.sign != 1)
    + OutOf(-0x8000, s.trim, 0x7FFF) + OutOf(0, s.minTick, SERVO_MAX_TICK) + OutOf(0, s.maxTick, SERVO_MAX_TICK)
    + One(s.minTick >= s.maxTick)
  }

  predicate IdSeen(servos: seq<ServoConfig>, n: nat, id: int)
    requires n <= |servos|
  {
    exists k :: 0 <= k < n && servos[k].id == id
  }

  predicate SlotSeen(servos: seq<ServoConfig>, n: nat, leg: int, joint: int)
    requires n <= |servos|
  {
    exists k :: 0 <= k < n && servos[k].leg == leg && servos[k].joint == joint
  }

  datatype Slot = Slot(leg: int, joint: int)

  /** An identifier out of range or, in range, seen before, and a slot seen before. */
  function PlaceErrors(servos: seq<ServoConfig>, n: nat): nat
    requires n < |servos|
  {
    var s := servos[n];
    (if !(1 <= s.id <= 253) then 1 else One(IdSeen(servos, n, s.id))) + One(SlotSeen(servos, n, s.leg, s.joint))
  }

  function ServosErrors(servos: seq<ServoConfig>, n: nat): nat
    requires n <= |servos|
  {
    if n == 0 then 0
    else ServosErrors(servos, n - 1) + PlaceErrors(servos, n - 1) + ServoErrors(servos[n - 1])
  }

  /** The slots are exactly the legs' joints. */
  predicate SlotsAreAll(servos: seq<ServoConfig>) {
    CoversSlots(servos)
    && forall k :: 0 <= k < |servos| ==> 0 <= servos[k].leg < NUM_LEGS && 0 <= servos[k].joint < JOINTS_PER_LEG
  }

  function MapErrors(servos: seq<ServoConfig>): nat {
    One(|servos| != NUM_SERVOS) + ServosErrors(servos, |servos|) + One(!SlotsAreAll(servos))
  }

  /** An enabled sensor needs thresholds, in order. */
  function FootErrors(f: FootSensorCal): nat {
    OutOf(-0x8000_0000, f.baseline, 0x7FFF_FFFF) + OutOf(0, f.near, 0xFFFF) + OutOf(0, f.touch, 0xFFFF)
    + OutOf(0, f.load, 0xFFFF) + One(f.enabled != 0 && (f.near == 0 || f.touch == 0 || f.load == 0))
    + One(f.enabled != 0 && f.load < f.touch)
  }

  function LegsErrors(legs: seq<LegGeometry>, n: nat): nat
    requires n <= |legs|
  {
    if n == 0 then 0 else LegsErrors(legs, n - 1) + LegErrors(legs[n - 1])
  }

  function FeetErrors(feet: seq<FootSensorCal>, n: nat): nat
    requires n <= |feet|
  {
    if n == 0 then 0 else FeetErrors(feet, n - 1) + FootErrors(feet[n - 1])
  }

  /** How many violations `validate_robot_config` reports. */
  function Violations(c: RobotConfig): nat {
    One(c.schemaVersion != SCHEMA_VERSION) + One(|Ascii(c.robotName)| >= ROBOT_NAME_LEN)
    + StanceErrors(c.links, c.geometry) + One(|c.legs| != NUM_LEGS) + LegsErrors(c.legs, |c.legs|)
    + GaitErrors(c.gait) + One(!(0 <= c.features < 32)) + RcErrors(c.channels) + BodyErrors(c.bodyCommand)
    + MapErrors(c.servos) + One(|c.feet| != NUM_FOOT_SENSORS) + FeetErrors(c.feet, |c.feet|)
  }

  // ---------- No violation means valid ----------

  lemma {:induction false} LegsZero(legs: seq<LegGeometry>, n: nat)
    requires n <= |legs|
    ensures LegsErrors(legs, n) == 0 <==> forall k :: 0 <= k < n ==> ValidLeg(legs[k])
  {
    if n > 0 {
      LegsZero(legs, n - 1);
    }
  }

  lemma FootZero(f: FootSensorCal)
    ensures FootErrors(f) == 0 <==> ValidFoot(f)
  {
  }

  lemma {:induction false} FeetZero(feet: seq<FootSensorCal>, n: nat)
    requires n <= |feet|
    ensures FeetErrors(feet, n) == 0 <==> forall k :: 0 <= k < n ==> ValidFoot(feet[k])
  {
    if n > 0 {
      FeetZero(feet, n - 1);
      FootZero(feet[n - 1]);
    }
  }

  lemma ChannelZero(c: RcChannel)
    ensures 1 <= c.source <= NUM_RC_ANALOG_INPUTS && ChannelErrors(c) == 0 <==> ValidChannel(c)
  {
  }

  /** Distinct among the first `n`. */
  predicate DistinctUpTo(channels: seq<RcChannel>, n: nat)
    requires n <= |channels|
  {
    forall i, j :: 0 <= i < j < n ==> channels[i].source != channels[j].source
  }

  lemma {:induction false} ChannelsZero(channels: seq<RcChannel>, n: nat)
    requires n <= |channels|
    ensures ChannelsErrors(channels, n) == 0 <==>
              (forall k :: 0 <= k < n ==> ValidChannel(channels[k])) && DistinctUpTo(channels, n)
  {
    if n > 0 {
      ChannelsZero(channels, n - 1);
      ChannelZero(channels[n - 1]);
      DistinctNext(channels, n - 1);
    }
  }

  lemma DistinctNext(channels: seq<RcChannel>, n: nat)
    requires n < |channels|
    ensures DistinctUpTo(channels, n + 1) <==>
              DistinctUpTo(channels, n) && !SourceSeen(channels, n, channels[n].source)
  {
  }

  lemma RcZero(channels: seq<RcChannel>)
    ensures RcErrors(channels) == 0 <==> ValidRc(channels)
  {
    ChannelsZero(channels, |channels|);
  }

  lemma ServoZero(s: ServoConfig)
    ensures 1 <= s.id <= 253 && ServoErrors(s) == 0 <==> ValidServo(s)
  {
  }

  predicate PlacesDistinct(servos: seq<ServoConfig>, n: nat)
    requires n <= |servos|
  {
    (forall i, j :: 0 <= i < j < n ==> servos[i].id != servos[j].id)
    && forall i, j :: 0 <= i < j < n ==> servos[i].leg != servos[j].leg || servos[i].joint != servos[j].joint
  }

  lemma PlacesNext(servos: seq<ServoConfig>, n: nat)
    requires n < |servos|
    ensures PlacesDistinct(servos, n + 1) <==>
              PlacesDistinct(servos, n) && !IdSeen(servos, n, servos[n].id)
              && !SlotSeen(servos, n, servos[n].leg, servos[n].joint)
  {
  }

  lemma {:induction false} ServosZero(servos: seq<ServoConfig>, n: nat)
    requires n <= |servos|
    ensures ServosErrors(servos, n) == 0 <==>
              (forall k :: 0 <= k < n ==> ValidServo(servos[k])) && PlacesDistinct(servos, n)
  {
    if n > 0 {
      ServosZero(servos, n - 1);
      ServoZero(servos[n - 1]);
      PlacesNext(servos, n - 1);
    }
  }

  lemma MapZero(servos: seq<ServoConfig>)
    ensures MapErrors(servos) == 0 <==> ValidServos(servos)
  {
    ServosZero(servos, |servos|);
  }

  lemma SimpleZero(c: RobotConfig)
    ensures StanceErrors(c.links, c.geometry) == 0 <==> ValidStance(c.links, c.geometry)
    ensures GaitErrors(c.gait) == 0 <==> ValidGait(c.gait)
    ensures BodyErrors(c.bodyCommand) == 0 <==> ValidBody(c.bodyCommand)
  {
  }

  /** No violation is counted exactly when the configuration is valid. */
  lemma NoViolations(c: RobotConfig)
    ensures Violations(c) == 0 <==> Valid(c)
  {
    SimpleZero(c);
    LegsZero(c.legs, |c.legs|);
    RcZero(c.channels);
    MapZero(c.servos);
    FeetZero(c.feet, |c.feet|);
  }

  // ---------- The validator ----------

  method CheckRange(low: int, x: int, high: int, errors: nat) returns (n: nat)
    ensures n == errors + OutOf(low, x, high)
  {
    n := errors;
    if x < low || x > high {
      n := n + 1;
    }
  }

  method CheckStance(l: LinkLengths, g: BodyGeometry) returns (errors: nat)
    ensures errors == StanceErrors(l, g)
  {
    errors := CheckRange(1, l.coxa, 0xFFFF, 0);
    errors := CheckRange(1, l.femur, 0xFFFF, errors);
    errors := CheckRange(1, l.tibia, 0xFFFF, errors);
    errors := CheckRange(1, g.homeRadius, 0xFFFF, errors);
    errors := CheckRange(-0x8000, g.homeFootZ, 0x7FFF, errors);
    errors := CheckRange(0, g.coxaLift, 0xFFFF, errors);
    if 0 < l.coxa <= 0xFFFF && 0 < l.femur <= 0xFFFF && 0 < l.tibia <= 0xFFFF && 0 < g.homeRadius <= 0xFFFF {
      var along, down := g.homeRadius - l.coxa, g.homeFootZ;
      var d2 := along * along + down * down;
      var low, high := l.femur - l.tibia, l.femur + l.tibia;
      if d2 < low * low || d2 > high * high {
        errors := errors + 1;
      }
    }
  }

  method CheckLegs(legs: seq<LegGeometry>) returns (errors: nat)
    ensures errors == One(|legs| != NUM_LEGS) + LegsErrors(legs, |legs|)
  {
    errors := 0;
    if |legs| != NUM_LEGS { errors := 1; }
    for i := 0 to |legs|
      invariant errors == One(|legs| != NUM_LEGS) + LegsErrors(legs, i)
    {
      errors := CheckRange(-0x8000, legs[i].x, 0x7FFF, errors);
      errors := CheckRange(-0x8000, legs[i].y, 0x7FFF, errors);
      errors := CheckRange(-0x8000, legs[i].z, 0x7FFF, errors);
      errors := CheckRange(-0x8000, legs[i].yaw, 0x7FFF, errors);
    }
  }

  method CheckGait(g: GaitDefaults) returns (errors: nat)
    ensures errors == GaitErrors(g)
  {
    errors := CheckRange(0, g.gait, 5, 0);
    errors := CheckRange(40, g.bodyHeight, 160, errors);
    errors := CheckRange(0, g.stride, 80, errors);
    errors := CheckRange(0, g.stepHeight, 50, errors);
  }

  method CheckBody(b: BodyLimits) returns (errors: nat)
    ensures errors == BodyErrors(b)
  {
    errors := 0;
    var scales := [b.maxForward, b.maxReverse, b.maxLateral, b.maxYaw];
    errors := CheckAll(scales, 1000);
    assert errors == ScaleErrors(b) by { FourOut(scales, 1000); }
    var accels := [b.forwardAccel, b.forwardDecel, b.lateralAccel, b.lateralDecel, b.yawAccel, b.yawDecel];
    var more := CheckAll(accels, 5000);
    assert more == AccelErrors(b) by { SixOut(accels, 5000); }
    errors := errors + more;
    errors := CheckRange(1, b.heightRise, 200, errors);
    errors := CheckRange(1, b.heightLower, 200, errors);
    errors := CheckRange(1, b.translationRate, 200, errors);
    errors := CheckRange(1, b.rotationRate, 2000, errors);
  }

  /** How many of the first `n` values lie outside one to `high`. */
  function CountOut(values: seq<int>, high: int, n: nat): nat
    requires n <= |values|
  {
    if n == 0 then 0 else CountOut(values, high, n - 1) + OutOf(1, values[n - 1], high)
  }

  lemma FourOut(v: seq<int>, high: int)
    requires |v| == 4
    ensures CountOut(v, high, 4) == OutOf(1, v[0], high) + OutOf(1, v[1], high) + OutOf(1, v[2], high) + OutOf(1, v[3], high)
  {
    assert CountOut(v, high, 1) == OutOf(1, v[0], high);
    assert CountOut(v, high, 2) == OutOf(1, v[0], high) + OutOf(1, v[1], high);
  }

  lemma SixOut(v: seq<int>, high: int)
    requires |v| == 6
    ensures CountOut(v, high, 6) == OutOf(1, v[0], high) + OutOf(1, v[1], high) + OutOf(1, v[2], high) + OutOf(1, v[3], high)
                                    + OutOf(1, v[4], high) + OutOf(1, v[5], high)
  {
    assert CountOut(v, high, 1) == OutOf(1, v[0], high);
    assert CountOut(v, high, 2) == OutOf(1, v[0], high) + OutOf(1, v[1], high);
    assert CountOut(v, high, 3) == CountOut(v, high, 2) + OutOf(1, v[2], high);
    assert CountOut(v, high, 4) == CountOut(v, high, 3) + OutOf(1, v[3], high);
    assert CountOut(v, high, 5) == CountOut(v, high, 4) + OutOf(1, v[4], high);
  }

  /** The loop over named values with a common bound. */
  method CheckAll(values: seq<int>, high: int) returns (errors: nat)
    ensures errors == CountOut(values, high, |values|)
  {
    errors := 0;
    for i := 0 to |values|
      invariant errors == CountOut(values, high, i)
    {
      errors := CheckRange(1, values[i], high, errors);
    }
  }

  /** A channel by itself. */
  method CheckChannel(c: RcChannel) returns (errors: nat)
    ensures errors == ChannelErrors(c)
  {
    errors := 0;
    if c.kind != ExpectedKind(c.source) { errors := errors + 1; }
    if c.minRaw >= c.maxRaw { errors := errors + 1; }
    errors := CheckRange(c.minRaw, c.centerRaw, c.maxRaw, errors);
    if c.kind == RC_CENTERED_ANALOG && (c.centerRaw == c.minRaw || c.centerRaw == c.maxRaw) { errors := errors + 1; }
    if c.isReversed != 0 && c.isReversed != 1 { errors := errors + 1; }
    errors := CheckRange(0, c.deadband, 128, errors);
    errors := CheckRange(0, c.expo, 255, errors);
    errors := CheckRange(0, c.filterTau, 1000, errors);
    errors := CheckRange(0, c.debounce, 2000, errors);
  }

  /** The channel loop, with the set of sources seen so far. */
  method CheckChannels(channels: seq<RcChannel>) returns (errors: nat)
    ensures errors == RcErrors(channels)
  {
    errors := 0;
    if |channels| != NUM_RC_ANALOG_INPUTS { errors := 1; }
    var sources: set<int> := {};
    for i := 0 to |channels|
      invariant forall x :: x in sources <==> SourceSeen(channels, i, x)
      invariant errors == One(|channels| != NUM_RC_ANALOG_INPUTS) + ChannelsErrors(channels, i)
    {
      var c := channels[i];
      if c.source < 1 || c.source > NUM_RC_ANALOG_INPUTS {
        errors := errors + 1;
      } else if c.source in sources {
        errors := errors + 1;
      }
      sources := sources + {c.source};
      var own := CheckChannel(c);
      errors := errors + own;
    }
    var expected := {1, 2, 3, 4, 5, 6, 7, 8};
    SourcesEqual(channels, sources, expected);
    if sources != expected {
      errors := errors + 1;
    }
  }

  lemma SourcesEqual(channels: seq<RcChannel>, sources: set<int>, expected: set<int>)
    requires forall x :: x in sources <==> SourceSeen(channels, |channels|, x)
    requires expected == {1, 2, 3, 4, 5, 6, 7, 8}
    ensures sources == expected <==> SourcesAreAll(channels)
  {
    if sources == expected {
      forall x | 1 <= x <= NUM_RC_ANALOG_INPUTS ensures HasSource(channels, x) {
        assert x in expected && SourceSeen(channels, |channels|, x);
      }
      forall k | 0 <= k < |channels| ensures 1 <= channels[k].source <= NUM_RC_ANALOG_INPUTS {
        assert SourceSeen(channels, |channels|, channels[k].source);
      }
    }
    if SourcesAreAll(channels) {
      forall x ensures x in sources <==> x in expected {
        if x in expected {
          assert HasSource(channels, x);
        }
      }
    }
  }

  /** A servo by itself. */
  method CheckServo(s: ServoConfig) returns (errors: nat)
    ensures errors == ServoErrors(s)
  {
    errors := CheckRange(0, s.leg, NUM_LEGS - 1, 0);
    errors := CheckRange(0, s.joint, JOINTS_PER_LEG - 1, errors);
    if s.sign != -1 && s.sign != 1 { errors := errors + 1; }
    errors := CheckRange(-0x8000, s.trim, 0x7FFF, errors);
    errors := CheckRange(0, s.minTick, SERVO_MAX_TICK, errors);
    errors := CheckRange(0, s.maxTick, SERVO_MAX_TICK, errors);
    if s.minTick >= s.maxTick { errors := errors + 1; }
  }

  /** The servo loop: one pass with the sets of identifiers and slots seen so far. */
  method CheckServos(servos: seq<ServoConfig>) returns (errors: nat)
    ensures errors == MapErrors(servos)
  {
    errors := 0;
    if |servos| != NUM_SERVOS { errors := 1; }
    var ids: set<int>, slots: set<Slot> := {}, {};
    for i := 0 to |servos|
      invariant forall x :: x in ids <==> IdSeen(servos, i, x)
      invariant forall leg, joint :: Slot(leg, joint) in slots <==> SlotSeen(servos, i, leg, joint)
      invariant errors == One(|servos| != NUM_SERVOS) + ServosErrors(servos, i)
    {
      var s := servos[i];
      if s.id < 1 || s.id > 253 {
        errors := errors + 1;
      } else if s.id in ids {
        errors := errors + 1;
      }
      ids := ids + {s.id};
      if Slot(s.leg, s.joint) in slots {
        errors := errors + 1;
      }
      slots := slots + {Slot(s.leg, s.joint)};
      var own := CheckServo(s);
      errors := errors + own;
    }
    var expected := set leg, joint | 0 <= leg < NUM_LEGS && 0 <= joint < JOINTS_PER_LEG :: Slot(leg, joint);
    SlotsEqual(servos, slots, expected);
    if slots != expected {
      errors := errors + 1;
    }
  }

  lemma SlotsEqual(servos: seq<ServoConfig>, slots: set<Slot>, expected: set<Slot>)
    requires forall leg, joint :: Slot(leg, joint) in slots <==> SlotSeen(servos, |servos|, leg, joint)
    requires expected == set leg, joint | 0 <= leg < NUM_LEGS && 0 <= joint < JOINTS_PER_LEG :: Slot(leg, joint)
    ensures slots == expected <==> SlotsAreAll(servos)
  {
    if slots == expected {
      forall leg, joint | 0 <= leg < NUM_LEGS && 0 <= joint < JOINTS_PER_LEG ensures HasSlot(servos, leg, joint) {
        assert Slot(leg, joint) in expected && SlotSeen(servos, |servos|, leg, joint);
      }
      forall k | 0 <= k < |servos| ensures 0 <= servos[k].leg < NUM_LEGS && 0 <= servos[k].joint < JOINTS_PER_LEG {
        assert SlotSeen(servos, |servos|, servos[k].leg, servos[k].joint);
        assert Slot(servos[k].leg, servos[k].joint) in slots;
      }
    }
    if SlotsAreAll(servos) {
      forall slot: Slot ensures slot in slots <==> slot in expected {
        assert slot == Slot(slot.leg, slot.joint);
        if slot in expected {
          assert HasSlot(servos, slot.leg, slot.joint);
        }
      }
    }
  }

  method CheckFeet(feet: seq<FootSensorCal>) returns (errors: nat)
    ensures errors == One(|feet| != NUM_FOOT_SENSORS) + FeetErrors(feet, |feet|)
  {
    errors := 0;
    if |feet| != NUM_FOOT_SENSORS { errors := 1; }
    for i := 0 to |feet|
      invariant errors == One(|feet| != NUM_FOOT_SENSORS) + FeetErrors(feet, i)
    {
      var f := feet[i];
      errors := CheckRange(-0x8000_0000, f.baseline, 0x7FFF_FFFF, errors);
      errors := CheckRange(0, f.near, 0xFFFF, errors);
      errors := CheckRange(0, f.touch, 0xFFFF, errors);
      errors := CheckRange(0, f.load, 0xFFFF, errors);
      if f.enabled != 0 {
        if f.near == 0 || f.touch == 0 || f.load == 0 { errors := errors + 1; }
        if f.load < f.touch { errors := errors + 1; }
      }
    }
  }

  /** The length of the name without what is not ASCII. */
  method AsciiLength(name: seq<int>) returns (n: nat)
    ensures n == |Ascii(name)|
  {
    n := 0;
    assert name[0..] == name;
    for i := 0 to |name|
      invariant |Ascii(name)| == n + |Ascii(name[i..])|
    {
      assert name[i..][1..] == name[i + 1..];
      if 0 <= name[i] < 128 {
        n := n + 1;
      }
    }
  }

  /** `validate_robot_config`: exactly the violations are counted, and there is none exactly
      when the configuration is valid. */
  method Validate(c: RobotConfig) returns (errors: nat)
    ensures errors == Violations(c)
    ensures errors == 0 <==> Valid(c)
  {
    errors := 0;
    if c.schemaVersion != SCHEMA_VERSION { errors := errors + 1; }
    var length := AsciiLength(c.robotName);
    if length >= ROBOT_NAME_LEN { errors := errors + 1; }
    var stance := CheckStance(c.links, c.geometry);
    var legs := CheckLegs(c.legs);
    var gait := CheckGait(c.gait);
    errors := errors + stance + legs + gait;
    if c.features < 0 || c.features >= 32 { errors := errors + 1; }
    var channels := CheckChannels(c.channels);
    var body := CheckBody(c.bodyCommand);
    var servos := CheckServos(c.servos);
    var feet := CheckFeet(c.feet);
    errors := errors + channels + body + servos + feet;
    NoViolations(c);
  }

  // ---------- The compiled defaults ----------

  const DEFAULT_NAME := [0x48, 0x65, 0x78, 0x4E, 0x61, 0x76]

  function DefaultFeet(): seq<FootSensorCal> {
    seq(NUM_FOOT_SENSORS, i => FootSensorCal(0, 0, 0, 0, 0))
  }

  function DefaultConfig(): RobotConfig {
    RobotConfig(SCHEMA_VERSION, DEFAULT_NAME, PROFILE_LINKS, PROFILE_GEOMETRY, ProfileLegs(), ProfileServos(),
                PROFILE_GAIT, DefaultChannels(), DEFAULT_BODY, DefaultFeet(), 4)
  }

  lemma ProfileServosValid()
    ensures ValidServos(ProfileServos())
  {
    var servos := ProfileServos();
    forall leg, joint | 0 <= leg < NUM_LEGS && 0 <= joint < JOINTS_PER_LEG
      ensures HasSlot(servos, leg, joint)
    {
      var i := leg * JOINTS_PER_LEG + joint;
      assert servos[i] == ProfileServo(i);
    }
  }

  lemma DefaultChannelsValid()
    ensures ValidRc(DefaultChannels())
  {
    var channels := DefaultChannels();
    forall source | 1 <= source <= NUM_RC_ANALOG_INPUTS
      ensures HasSource(channels, source)
    {
      assert channels[source - 1] == DefaultChannel(source - 1);
    }
  }

  lemma DefaultNameValid()
    ensures ValidName(DEFAULT_NAME)
  {
    NameLength(DEFAULT_NAME);
  }

  lemma ProfileStanceValid()
    ensures ValidStance(PROFILE_LINKS, PROFILE_GEOMETRY)
  {
  }

  /** The compiled defaults pass validation: the home stance is in reach and every slot is served. */
  lemma DefaultIsValid()
    ensures Valid(DefaultConfig())
  {
    ProfileServosValid();
    DefaultChannelsValid();
    DefaultNameValid();
    ProfileStanceValid();
  }

  lemma {:induction false} NameLength(name: seq<int>)
    ensures |Ascii(name)| <= |name|
    ensures (forall i :: 0 <= i < |name| ==> 0 <= name[i] < 128) ==> Ascii(name) == name
  {
    if name != [] {
      NameLength(name[1..]);
    }
  }
}
