/**
  The serialized robot configuration: six older schemas are read and migrated, one is
  written.
  */
module ConfigCodec {
  import opened Struct
  import opened Tables
  import opened RobotConfigs

  const CONFIG_PAYLOAD_SIZE := 485
  const PAYLOAD_SIZE_V4 := 457
  const PAYLOAD_SIZE_V3 := 337

  // ---------- Records as rows ----------

  const LINKS_FORMAT: Format := [U16, U16, U16]
  const GEOMETRY_FORMAT: Format := [U16, I16, U16]
  const LEG_FORMAT: Format := [I16, I16, I16, I16]
  const SERVO_FORMAT: Format := [U8, U8, U8, I8] + [I16, U16, U16]
  const GAIT_FORMAT: Format := [U16, U16, U16] + [U8, U8, U8]
  const RC_FORMAT: Format := [U8, U8, I16, I16, I16] + [U8, U8, U8, U16, U16]
  const BODY_FORMAT: Format := [U16, U16, U16, U16, U16] + [U16, U16, U16, U16, U16] + [U16, U16, U16, U16]
  const FOOT_FORMAT: Format := [I32, U16, U16, U16, U8]

  function LinksRow(l: LinkLengths): Row { [l.coxa, l.femur, l.tibia] }

  function RowLinks(r: Row): LinkLengths
    requires |r| == 3
  { LinkLengths(r[0], r[1], r[2]) }

  function GeometryRow(g: BodyGeometry): Row { [g.homeRadius, g.homeFootZ, g.coxaLift] }

  function RowGeometry(r: Row): BodyGeometry
    requires |r| == 3
  { BodyGeometry(r[0], r[1], r[2]) }

  function LegRow(l: LegGeometry): Row { [l.x, l.y, l.z, l.yaw] }

  function RowLeg(r: Row): LegGeometry
    requires |r| == 4
  { LegGeometry(r[0], r[1], r[2], r[3]) }

  function ServoRow(s: ServoConfig): Row { [s.id, s.leg, s.joint, s.sign, s.trim, s.minTick, s.maxTick] }

  function RowServo(r: Row): ServoConfig
    requires |r| == 7
  { ServoConfig(r[0], r[1], r[2], r[3], r[4], r[5], r[6]) }

  function GaitRow(g: GaitDefaults): Row { [g.bodyHeight, g.stride, g.stepHeight, g.duty, g.speed, g.gait] }

  function RowGait(r: Row): GaitDefaults
    requires |r| == 6
  { GaitDefaults(r[0], r[1], r[2], r[3], r[4], r[5]) }

  function RcRow(c: RcChannel): Row {
    [c.source, c.kind, c.minRaw, c.centerRaw, c.maxRaw, c.isReversed, c.deadband, c.expo, c.filterTau, c.debounce]
  }

  function RowRc(r: Row): RcChannel
    requires |r| == 10
  { RcChannel(r[0], r[1], r[2], r[3], r[4], r[5], r[6], r[7], r[8], r[9]) }

  function BodyRow(b: BodyLimits): Row {
    [b.maxForward, b.maxReverse, b.maxLateral, b.maxYaw, b.forwardAccel, b.forwardDecel, b.lateralAccel,
     b.lateralDecel, b.yawAccel, b.yawDecel, b.heightRise, b.heightLower, b.translationRate, b.rotationRate]
  }

  function RowBody(r: Row): BodyLimits
    requires |r| == 14
  { BodyLimits(r[0], r[1], r[2], r[3], r[4], r[5], r[6], r[7], r[8], r[9], r[10], r[11], r[12], r[13]) }

  function FootRow(f: FootSensorCal): Row { [f.baseline, f.near, f.touch, f.load, f.enabled] }

  function RowFoot(r: Row): FootSensorCal
    requires |r| == 5
  { FootSensorCal(r[0], r[1], r[2], r[3], r[4]) }

  // ---------- Lists of records ----------

  predicate Wide(rows: seq<Row>, n: nat) {
    forall i :: 0 <= i < |rows| ==> |rows[i]| == n
  }

  function LegRows(legs: seq<LegGeometry>): seq<Row> { seq(|legs|, i requires 0 <= i < |legs| => LegRow(legs[i])) }

  function Legs(rows: seq<Row>): seq<LegGeometry>
    requires Wide(rows, 4)
  { seq(|rows|, i requires 0 <= i < |rows| => RowLeg(rows[i])) }

  function ServoRows(servos: seq<ServoConfig>): seq<Row> {
    seq(|servos|, i requires 0 <= i < |servos| => ServoRow(servos[i]))
  }

  function Servos(rows: seq<Row>): seq<ServoConfig>
    requires Wide(rows, 7)
  { seq(|rows|, i requires 0 <= i < |rows| => RowServo(rows[i])) }

  function RcRows(cs: seq<RcChannel>): seq<Row> { seq(|cs|, i requires 0 <= i < |cs| => RcRow(cs[i])) }

  function Channels(rows: seq<Row>): seq<RcChannel>
    requires Wide(rows, 10)
  { seq(|rows|, i requires 0 <= i < |rows| => RowRc(rows[i])) }

  function FootRows(fs: seq<FootSensorCal>): seq<Row> { seq(|fs|, i requires 0 <= i < |fs| => FootRow(fs[i])) }

  function Feet(rows: seq<Row>): seq<FootSensorCal>
    requires Wide(rows, 5)
  { seq(|rows|, i requires 0 <= i < |rows| => RowFoot(rows[i])) }

  /** Rows and records are the same thing, list by list. */
  lemma RowsAreRecords(legs: seq<Row>, servos: seq<Row>, channels: seq<Row>, feet: seq<Row>)
    requires Wide(legs, 4) && Wide(servos, 7) && Wide(channels, 10) && Wide(feet, 5)
    ensures LegRows(Legs(legs)) == legs && ServoRows(Servos(servos)) == servos
    ensures RcRows(Channels(channels)) == channels && FootRows(Feet(feet)) == feet
  {
    forall i | 0 <= i < |legs| ensures LegRow(RowLeg(legs[i])) == legs[i] { }
    forall i | 0 <= i < |servos| ensures ServoRow(RowServo(servos[i])) == servos[i] { }
    forall i | 0 <= i < |channels| ensures RcRow(RowRc(channels[i])) == channels[i] { }
    forall i | 0 <= i < |feet| ensures FootRow(RowFoot(feet[i])) == feet[i] { }
  }

  lemma RecordsAreRows(legs: seq<LegGeometry>, servos: seq<ServoConfig>, channels: seq<RcChannel>, feet: seq<FootSensorCal>)
    ensures Wide(LegRows(legs), 4) && Legs(LegRows(legs)) == legs
    ensures Wide(ServoRows(servos), 7) && Servos(ServoRows(servos)) == servos
    ensures Wide(RcRows(channels), 10) && Channels(RcRows(channels)) == channels
    ensures Wide(FootRows(feet), 5) && Feet(FootRows(feet)) == feet
  {
  }

  // ---------- The name ----------

  const REPLACEMENT := 0xFFFD

  predicate IsAscii(name: seq<int>) {
    forall i :: 0 <= i < |name| ==> 0 <= name[i] < 128
  }

  /** Sixteen values: at most fifteen characters, the rest NUL. */
  function NameField(name: seq<int>): (f: seq<int>)
    ensures |f| == ROBOT_NAME_LEN
  {
    seq(ROBOT_NAME_LEN, i requires 0 <= i < ROBOT_NAME_LEN => if i < |name| && i < ROBOT_NAME_LEN - 1 then name[i] else 0)
  }

  /** Up to the first NUL, with every byte that is not ASCII replaced. */
  function TrimName(field: seq<int>): (name: seq<int>) {
    if field == [] || field[0] == 0 then []
    else [if field[0] < 128 then field[0] else REPLACEMENT] + TrimName(field[1..])
  }

  function NameRows(field: seq<int>): seq<Row> { seq(|field|, i requires 0 <= i < |field| => [field[i]]) }

  function NameOf(rows: seq<Row>): seq<int>
    requires Wide(rows, 1)
  { seq(|rows|, i requires 0 <= i < |rows| => rows[i][0]) }

  /** The position of the first NUL, or the length. */
  function FirstNul(field: seq<int>): (n: nat)
    ensures n <= |field| && (n < |field| ==> field[n] == 0) && forall i :: 0 <= i < n ==> field[i] != 0
  {
    if field == [] || field[0] == 0 then 0 else 1 + FirstNul(field[1..])
  }

  lemma {:induction false} TrimNameIs(field: seq<int>)
    ensures |TrimName(field)| == FirstNul(field)
    ensures forall i :: 0 <= i < FirstNul(field) ==>
              TrimName(field)[i] == if field[i] < 128 then field[i] else REPLACEMENT
  {
    if field != [] && field[0] != 0 {
      TrimNameIs(field[1..]);
    }
  }

  /** A name comes back unless it is too long or holds a NUL. */
  lemma NameRoundTrip(name: seq<int>)
    requires IsAscii(name)
    ensures TrimName(NameField(name)) == name <==> |name| < ROBOT_NAME_LEN && 0 !in name
  {
    var f := NameField(name);
    TrimNameIs(f);
    var n := FirstNul(f);
    if |name| < ROBOT_NAME_LEN && 0 !in name {
      assert f[|name|] == 0;
      assert forall i :: 0 <= i < |name| ==> f[i] == name[i] && name[i] in name;
    } else if |name| < ROBOT_NAME_LEN {
      var k :| 0 <= k < |name| && name[k] == 0;
      assert f[k] == 0;
    } else {
      assert f[ROBOT_NAME_LEN - 1] == 0;
    }
  }

  /** A name field that encoding and decoding leaves alone once it was decoded. */
  predicate CleanName(field: seq<int>) {
    FirstNul(field) < ROBOT_NAME_LEN && forall i :: 0 <= i < FirstNul(field) ==> field[i] < 128
  }

  lemma DecodedName(field: seq<int>)
    requires |field| == ROBOT_NAME_LEN && forall i :: 0 <= i < |field| ==> 0 <= field[i] < 256
    ensures var name := TrimName(field);
            CleanName(field) <==> IsAscii(name) && TrimName(NameField(name)) == name
  {
    TrimNameIs(field);
    var name := TrimName(field);
    if IsAscii(name) {
      NameRoundTrip(name);
      forall i | 0 <= i < |name| ensures field[i] < 128 && name[i] == field[i] {
        assert name[i] == if field[i] < 128 then field[i] else REPLACEMENT;
      }
    } else if CleanName(field) {
      forall i | 0 <= i < |name| ensures 0 <= name[i] < 128 {
        assert name[i] == if field[i] < 128 then field[i] else REPLACEMENT;
      }
    }
  }

  // ---------- Layouts ----------

  const SCHEMA_SECTION := Section([U16], 1)
  const NAME_SECTION := Section([U8], ROBOT_NAME_LEN)
  const LEGS_SECTION := Section(LEG_FORMAT, NUM_LEGS)
  const SERVOS_SECTION := Section(SERVO_FORMAT, NUM_SERVOS)
  const RC_SECTION := Section(RC_FORMAT, NUM_RC_ANALOG_INPUTS)
  const BODY_SECTION := Section(BODY_FORMAT, 1)
  const FEET_SECTION := Section(FOOT_FORMAT, NUM_FOOT_SENSORS)

  /** What every schema begins and ends with. */
  const HEAD: Layout :=
    [SCHEMA_SECTION, NAME_SECTION, Section(LINKS_FORMAT, 1), Section(GEOMETRY_FORMAT, 1)]
    + [LEGS_SECTION, SERVOS_SECTION, Section(GAIT_FORMAT, 1)]
  const TAIL: Layout := [FEET_SECTION, Section([U32], 1)]

  datatype Version = V3 | V4 | V5 | V6 | V7 | V8 | V9

  /** Schema 4 added the input calibration, schema 5 the body-command limits. */
  function Middle(v: Version): Layout {
    if v == V3 then [] else if v == V4 then [RC_SECTION] else [RC_SECTION, BODY_SECTION]
  }

  function LayoutOf(v: Version): Layout {
    HEAD + Middle(v) + TAIL
  }

  function PayloadSize(v: Version): nat {
    if v == V3 then PAYLOAD_SIZE_V3 else if v == V4 then PAYLOAD_SIZE_V4 else CONFIG_PAYLOAD_SIZE
  }

  lemma ShortFormatSizes()
    ensures Size(LINKS_FORMAT) == 6 && Size(GEOMETRY_FORMAT) == 6 && Size(LEG_FORMAT) == 8 && Size(FOOT_FORMAT) == 11
    ensures Size([U16]) == 2 && Size([U8]) == 1 && Size([U32]) == 4
  {
  }

  lemma LongFormatSizes()
    ensures Size(SERVO_FORMAT) == 10 && Size(GAIT_FORMAT) == 9
  {
    SizeOfConcat([U8, U8, U8, I8], [I16, U16, U16]);
    SizeOfConcat([U16, U16, U16], [U8, U8, U8]);
  }

  lemma RcFormatSize()
    ensures Size(RC_FORMAT) == 15
  {
    SizeOfConcat([U8, U8, I16, I16, I16], [U8, U8, U8, U16, U16]);
  }

  lemma BodyFormatSize()
    ensures Size(BODY_FORMAT) == 28
  {
    SizeOfConcat([U16, U16, U16, U16, U16] + [U16, U16, U16, U16, U16], [U16, U16, U16, U16]);
    SizeOfConcat([U16, U16, U16, U16, U16], [U16, U16, U16, U16, U16]);
  }

  lemma SectionSizes()
    ensures Bytes(SCHEMA_SECTION) == 2 && Bytes(NAME_SECTION) == 16
    ensures Bytes(Section(LINKS_FORMAT, 1)) == 6 && Bytes(Section(GEOMETRY_FORMAT, 1)) == 6
    ensures Bytes(LEGS_SECTION) == 48 && Bytes(SERVOS_SECTION) == 180 && Bytes(Section(GAIT_FORMAT, 1)) == 9
    ensures Bytes(RC_SECTION) == 120 && Bytes(BODY_SECTION) == 28
    ensures Bytes(FEET_SECTION) == 66 && Bytes(Section([U32], 1)) == 4
  {
    ShortFormatSizes();
    LongFormatSizes();
    RcFormatSize();
    BodyFormatSize();
    TimesIsProduct(1, 2);
    TimesIsProduct(16, 1);
    TimesIsProduct(1, 6);
    TimesIsProduct(6, 8);
    TimesIsProduct(18, 10);
    TimesIsProduct(1, 9);
    TimesIsProduct(8, 15);
    TimesIsProduct(1, 28);
    TimesIsProduct(6, 11);
    TimesIsProduct(1, 4);
  }

  /** Each schema's layout has its documented length. */
  lemma LayoutSizes(v: Version)
    ensures LayoutSize(LayoutOf(v)) == PayloadSize(v)
  {
    SectionSizes();
    HeadSize();
    SizeOfTwo(FEET_SECTION, Section([U32], 1));
    SizeOfTwo(RC_SECTION, BODY_SECTION);
    LayoutSizeConcat(HEAD + Middle(v), TAIL);
    LayoutSizeConcat(HEAD, Middle(v));
  }

  lemma HeadSize()
    ensures LayoutSize(HEAD) == 267
  {
    SectionSizes();
    var a, b, c := [SCHEMA_SECTION, NAME_SECTION], [Section(LINKS_FORMAT, 1), Section(GEOMETRY_FORMAT, 1)],
                   [LEGS_SECTION, SERVOS_SECTION];
    SizeOfTwo(SCHEMA_SECTION, NAME_SECTION);
    SizeOfTwo(Section(LINKS_FORMAT, 1), Section(GEOMETRY_FORMAT, 1));
    SizeOfTwo(LEGS_SECTION, SERVOS_SECTION);
    SizeOfTwo(Section(GAIT_FORMAT, 1), Section(GAIT_FORMAT, 1));
    LayoutSizeConcat(a, b);
    LayoutSizeConcat(c, [Section(GAIT_FORMAT, 1)]);
    LayoutSizeConcat(a + b, c + [Section(GAIT_FORMAT, 1)]);
    assert HEAD == a + b + (c + [Section(GAIT_FORMAT, 1)]);
  }

  // ---------- Encoding ----------

  function HeadTable(c: RobotConfig): Table {
    [[[c.schemaVersion]], NameRows(NameField(c.robotName)), [LinksRow(c.links)], [GeometryRow(c.geometry)]]
    + [LegRows(c.legs), ServoRows(c.servos), [GaitRow(c.gait)]]
  }

  function Tabulate(c: RobotConfig): Table {
    HeadTable(c) + [RcRows(c.channels), [BodyRow(c.bodyCommand)]] + [FootRows(c.feet), [[c.features]]]
  }

  /** Nothing raises: the name is ASCII, every field fits its width, and there are eight
      channels. The counts of legs, servos and feet are not looked at. */
  predicate Encodable(c: RobotConfig) {
    IsAscii(c.robotName) && FieldsFit(c)
  }

  predicate FieldsFit(c: RobotConfig) {
    |c.channels| == NUM_RC_ANALOG_INPUTS
    && Fits(U16, c.schemaVersion) && Fits(U32, c.features)
    && AllFit(LINKS_FORMAT, LinksRow(c.links)) && AllFit(GEOMETRY_FORMAT, GeometryRow(c.geometry))
    && RowsFit(LEG_FORMAT, LegRows(c.legs)) && RowsFit(SERVO_FORMAT, ServoRows(c.servos))
    && AllFit(GAIT_FORMAT, GaitRow(c.gait)) && RowsFit(RC_FORMAT, RcRows(c.channels))
    && AllFit(BODY_FORMAT, BodyRow(c.bodyCommand)) && RowsFit(FOOT_FORMAT, FootRows(c.feet))
  }

  lemma NameFits(name: seq<int>)
    requires IsAscii(name)
    ensures RowsFit([U8], NameRows(NameField(name)))
  {
    var rows := NameRows(NameField(name));
    forall i | 0 <= i < |rows| ensures AllFit([U8], rows[i]) {
      assert rows[i] == [NameField(name)[i]];
    }
  }

  lemma HeadFits(c: RobotConfig)
    requires Encodable(c)
    ensures TableFits(HEAD, HeadTable(c))
  {
    NameFits(c.robotName);
    assert AllFit([U16], [c.schemaVersion]);
  }

  lemma FitsConcat(l: Layout, m: Layout, t: Table, u: Table)
    requires TableFits(l, t) && TableFits(m, u)
    ensures TableFits(l + m, t + u)
  {
  }

  lemma EncodableFits(c: RobotConfig)
    requires Encodable(c)
    ensures TableFits(LayoutOf(V9), Tabulate(c))
  {
    HeadFits(c);
    assert AllFit([U32], [c.features]);
    FitsConcat(HEAD, [RC_SECTION, BODY_SECTION], HeadTable(c), [RcRows(c.channels), [BodyRow(c.bodyCommand)]]);
    FitsConcat(HEAD + Middle(V9), TAIL, HeadTable(c) + [RcRows(c.channels), [BodyRow(c.bodyCommand)]],
               [FootRows(c.feet), [[c.features]]]);
  }

  datatype Encoded = Payload(data: bytes) | Raises

  function Encode(c: RobotConfig): Encoded {
    if Encodable(c) then
      EncodableFits(c);
      Payload(EncodeTable(LayoutOf(V9), Tabulate(c)))
    else Raises
  }

  // ---------- Decoding ----------

  datatype Detected = Known(version: Version) | Unknown

  /** A schema is read only at its own length. */
  function Detect(schema: int, n: nat): Detected {
    if schema == 3 && n == PAYLOAD_SIZE_V3 then Known(V3)
    else if schema == 4 && n == PAYLOAD_SIZE_V4 then Known(V4)
    else if n != CONFIG_PAYLOAD_SIZE then Unknown
    else if schema == 5 then Known(V5)
    else if schema == 6 then Known(V6)
    else if schema == 7 then Known(V7)
    else if schema == 8 then Known(V8)
    else if schema == 9 then Known(V9)
    else Unknown
  }

  /** A table whose sections can be read as records. */
  predicate Regular(v: Version, t: Table) {
    |t| == |LayoutOf(v)| == 9 + |Middle(v)|
    && |t[0]| == 1 && Wide(t[0], 1) && |t[1]| == ROBOT_NAME_LEN && Wide(t[1], 1)
    && |t[2]| == 1 && Wide(t[2], 3) && |t[3]| == 1 && Wide(t[3], 3)
    && |t[4]| == NUM_LEGS && Wide(t[4], 4) && |t[5]| == NUM_SERVOS && Wide(t[5], 7)
    && |t[6]| == 1 && Wide(t[6], 6)
    && (v != V3 ==> |t[7]| == NUM_RC_ANALOG_INPUTS && Wide(t[7], 10))
    && (v != V3 && v != V4 ==> |t[8]| == 1 && Wide(t[8], 14))
    && |t[|t| - 2]| == NUM_FOOT_SENSORS && Wide(t[|t| - 2], 5)
    && |t[|t| - 1]| == 1 && Wide(t[|t| - 1], 1)
  }

  lemma ShapedIsRegular(v: Version, t: Table)
    requires Shaped(LayoutOf(v), t)
    ensures Regular(v, t)
  {
    var l := LayoutOf(v);
    assert forall i :: 0 <= i < 7 ==> l[i] == HEAD[i];
    assert forall i :: 0 <= i < |Middle(v)| ==> l[7 + i] == Middle(v)[i];
    assert l[|l| - 2] == TAIL[0] && l[|l| - 1] == TAIL[1];
  }

  function FromTable(v: Version, t: Table): RobotConfig
    requires Regular(v, t)
  {
    RobotConfig(
      SCHEMA_VERSION, TrimName(NameOf(t[1])), RowLinks(t[2][0]), RowGeometry(t[3][0]), Legs(t[4]), Servos(t[5]),
      RowGait(t[6][0]), if v == V3 then DefaultChannels() else Channels(t[7]),
      if v == V3 || v == V4 then DEFAULT_BODY else RowBody(t[8][0]), Feet(t[|t| - 2]), t[|t| - 1][0][0])
  }

  /** Schemas 6 and 7 lose their servo records; 3, 4, 5 and 8 only their kinematics. */
  function Migrate(v: Version, c: RobotConfig): RobotConfig {
    if v == V9 then c else if v == V6 || v == V7 then WithMotionProfile(c) else WithKinematicsProfile(c)
  }

  datatype Decoded = Config(config: RobotConfig) | WrongLength | WrongVersion

  function Schema(payload: bytes): int
    requires |payload| >= 2
  {
    UnpackOne(U16, payload[..2])
  }

  function TableOf(v: Version, payload: bytes): (t: Table)
    requires |payload| == PayloadSize(v)
    ensures Regular(v, t)
  {
    LayoutSizes(v);
    DecodedShape(LayoutOf(v), payload);
    ShapedIsRegular(v, DecodeTable(LayoutOf(v), payload));
    DecodeTable(LayoutOf(v), payload)
  }

  function Decode(payload: bytes): Decoded {
    var n := |payload|;
    if n != CONFIG_PAYLOAD_SIZE && n != PAYLOAD_SIZE_V4 && n != PAYLOAD_SIZE_V3 then WrongLength
    else
      match Detect(Schema(payload), n)
      case Unknown => WrongVersion
      case Known(v) => Config(Migrate(v, FromTable(v, TableOf(v, payload))))
  }

  // ---------- Decoding what was encoded ----------

  /** The counts a payload has room for. */
  predicate FullCounts(c: RobotConfig) {
    |c.legs| == NUM_LEGS && |c.servos| == NUM_SERVOS && |c.channels| == NUM_RC_ANALOG_INPUTS
    && |c.feet| == NUM_FOOT_SENSORS
  }

  lemma ShapedConcat(l: Layout, m: Layout, t: Table, u: Table)
    requires Shaped(l, t) && Shaped(m, u)
    ensures Shaped(l + m, t + u)
  {
  }

  lemma HeadShaped(c: RobotConfig)
    requires FullCounts(c)
    ensures Shaped(HEAD, HeadTable(c))
  {
    RecordsAreRows(c.legs, c.servos, c.channels, c.feet);
  }

  lemma TabulateShaped(c: RobotConfig)
    requires FullCounts(c)
    ensures Shaped(LayoutOf(V9), Tabulate(c))
  {
    HeadShaped(c);
    RecordsAreRows(c.legs, c.servos, c.channels, c.feet);
    var middle := [RcRows(c.channels), [BodyRow(c.bodyCommand)]];
    assert Shaped([RC_SECTION, BODY_SECTION], middle);
    ShapedConcat(HEAD, [RC_SECTION, BODY_SECTION], HeadTable(c), middle);
    assert Shaped(TAIL, [FootRows(c.feet), [[c.features]]]);
    ShapedConcat(HEAD + Middle(V9), TAIL, HeadTable(c) + middle, [FootRows(c.feet), [[c.features]]]);
  }

  lemma NameOfRows(field: seq<int>)
    ensures Wide(NameRows(field), 1) && NameOf(NameRows(field)) == field
  {
  }

  /** Reading a configuration's own table gives it back, up to its name. */
  lemma FromTabulate(c: RobotConfig)
    requires FullCounts(c) && c.schemaVersion == SCHEMA_VERSION && Regular(V9, Tabulate(c))
    ensures FromTable(V9, Tabulate(c)) == c.(robotName := TrimName(NameField(c.robotName)))
  {
    RecordsAreRows(c.legs, c.servos, c.channels, c.feet);
    NameOfRows(NameField(c.robotName));
  }

  lemma OneFieldRow(b: bytes)
    requires |b| == 2
    ensures Size([U16]) == 2 && Times(1, 2) == 2 && DecodeRows([U16], 1, b) == [[UnpackOne(U16, b)]]
  {
    assert b[..2] == b && b[2..] == [];
    assert Unpack([U16], b) == [UnpackOne(U16, b)];
  }

  /** The first two bytes are the schema version. */
  lemma SchemaIsFirst(v: Version, payload: bytes)
    requires |payload| == PayloadSize(v)
    ensures TableOf(v, payload)[0] == [[Schema(payload)]]
  {
    LayoutSizes(v);
    SectionAt(LayoutOf(v), 0, payload);
    assert LayoutOf(v)[0] == SCHEMA_SECTION;
    OneFieldRow(payload[..2]);
    assert payload[0..2] == payload[..2];
  }

  lemma EncodedTable(c: RobotConfig)
    requires Encodable(c) && FullCounts(c)
    ensures |Encode(c).data| == CONFIG_PAYLOAD_SIZE && TableOf(V9, Encode(c).data) == Tabulate(c)
  {
    EncodableFits(c);
    TabulateShaped(c);
    LayoutSizes(V9);
    DecodeOfEncodeTable(LayoutOf(V9), Tabulate(c));
  }

  /** A payload of the current schema is read as its table says. */
  lemma DecodeCurrent(payload: bytes, t: Table)
    requires |payload| == CONFIG_PAYLOAD_SIZE && TableOf(V9, payload) == t && t[0] == [[SCHEMA_VERSION]]
    ensures Decode(payload) == Config(FromTable(V9, t))
  {
    SchemaIsFirst(V9, payload);
    assert [[Schema(payload)]][0][0] == SCHEMA_VERSION;
  }

  /** Decoding inverts encoding except for what the name field cannot hold. */
  lemma DecodeOfEncode(c: RobotConfig)
    requires Encodable(c) && FullCounts(c) && c.schemaVersion == SCHEMA_VERSION
    ensures |Encode(c).data| == CONFIG_PAYLOAD_SIZE
    ensures Decode(Encode(c).data) == Config(c.(robotName := TrimName(NameField(c.robotName))))
  {
    EncodedTable(c);
    DecodeCurrent(Encode(c).data, Tabulate(c));
    FromTabulate(c);
  }

  lemma ValidNameIsShort(name: seq<int>)
    requires IsAscii(name) && ValidName(name)
    ensures |name| < ROBOT_NAME_LEN
  {
    NameLength(name);
  }

  /** The round trip: a validated configuration that encoding does not refuse comes back
      unchanged, in 485 bytes, exactly when its name holds no NUL. */
  lemma ConfigRoundTrip(c: RobotConfig)
    requires Valid(c) && Encode(c).Payload?
    ensures |Encode(c).data| == CONFIG_PAYLOAD_SIZE
    ensures Decode(Encode(c).data) == Config(c) <==> 0 !in c.robotName
  {
    DecodeOfEncode(c);
    ValidNameIsShort(c.robotName);
    NameRoundTrip(c.robotName);
  }

  // ---------- When encoding refuses a valid configuration ----------

  predicate RawsFit(c: RcChannel) {
    Fits(I16, c.minRaw) && Fits(I16, c.centerRaw) && Fits(I16, c.maxRaw)
  }

  lemma ChannelFits(c: RcChannel)
    requires ValidChannel(c)
    ensures AllFit(RC_FORMAT, RcRow(c)) <==> RawsFit(c)
  {
    var f, r := RC_FORMAT, RcRow(c);
    if AllFit(f, r) {
      assert Fits(f[2], r[2]) && Fits(f[3], r[3]) && Fits(f[4], r[4]);
    }
  }

  lemma FootFits(f: FootSensorCal)
    requires ValidFoot(f)
    ensures AllFit(FOOT_FORMAT, FootRow(f)) <==> 0 <= f.enabled < 256
  {
    if AllFit(FOOT_FORMAT, FootRow(f)) {
      assert Fits(FOOT_FORMAT[4], FootRow(f)[4]);
    }
  }

  lemma GaitFits(g: GaitDefaults)
    requires ValidGait(g)
    ensures AllFit(GAIT_FORMAT, GaitRow(g)) <==> 0 <= g.duty < 256 && 0 <= g.speed < 256
  {
    if AllFit(GAIT_FORMAT, GaitRow(g)) {
      assert Fits(GAIT_FORMAT[3], GaitRow(g)[3]) && Fits(GAIT_FORMAT[4], GaitRow(g)[4]);
    }
  }

  lemma BodyFits(b: BodyLimits)
    requires ValidBody(b)
    ensures AllFit(BODY_FORMAT, BodyRow(b))
  {
    assert forall i :: 0 <= i < |BODY_FORMAT| ==> BODY_FORMAT[i] == U16;
    assert forall i :: 0 <= i < |BodyRow(b)| ==> 0 <= BodyRow(b)[i] < 0x1_0000;
  }

  lemma RigidFits(c: RobotConfig)
    requires Valid(c)
    ensures Fits(U16, c.schemaVersion) && Fits(U32, c.features)
    ensures AllFit(LINKS_FORMAT, LinksRow(c.links)) && AllFit(GEOMETRY_FORMAT, GeometryRow(c.geometry))
    ensures RowsFit(LEG_FORMAT, LegRows(c.legs)) && RowsFit(SERVO_FORMAT, ServoRows(c.servos))
  {
    forall i | 0 <= i < |c.legs| ensures AllFit(LEG_FORMAT, LegRow(c.legs[i])) {
      assert ValidLeg(c.legs[i]);
    }
    forall i | 0 <= i < |c.servos| ensures AllFit(SERVO_FORMAT, ServoRow(c.servos[i])) {
      assert ValidServo(c.servos[i]);
    }
  }

  /** Validation leaves exactly these unchecked: the alphabet of the name, the gait's duty and
      speed, the channels' raw limits, and the feet's enable byte. */
  lemma EncodesIff(c: RobotConfig)
    requires Valid(c)
    ensures Encode(c).Payload? <==>
              IsAscii(c.robotName) && 0 <= c.gait.duty < 256 && 0 <= c.gait.speed < 256
              && (forall i :: 0 <= i < |c.channels| ==> RawsFit(c.channels[i]))
              && (forall i :: 0 <= i < |c.feet| ==> 0 <= c.feet[i].enabled < 256)
  {
    RigidFits(c);
    BodyFits(c.bodyCommand);
    GaitFits(c.gait);
    ListsFit(c.channels, c.feet);
  }

  lemma ListsFit(channels: seq<RcChannel>, feet: seq<FootSensorCal>)
    requires forall i :: 0 <= i < |channels| ==> ValidChannel(channels[i])
    requires forall i :: 0 <= i < |feet| ==> ValidFoot(feet[i])
    ensures RowsFit(RC_FORMAT, RcRows(channels)) <==> forall i :: 0 <= i < |channels| ==> RawsFit(channels[i])
    ensures RowsFit(FOOT_FORMAT, FootRows(feet)) <==> forall i :: 0 <= i < |feet| ==> 0 <= feet[i].enabled < 256
  {
    forall i | 0 <= i < |channels|
      ensures AllFit(RC_FORMAT, RcRows(channels)[i]) <==> RawsFit(channels[i])
    {
      ChannelFits(channels[i]);
    }
    forall i | 0 <= i < |feet|
      ensures AllFit(FOOT_FORMAT, FootRows(feet)[i]) <==> 0 <= feet[i].enabled < 256
    {
      FootFits(feet[i]);
    }
  }

  // ---------- Encoding what was decoded ----------

  lemma ProfileFits()
    ensures RowsFit(LEG_FORMAT, LegRows(ProfileLegs())) && RowsFit(SERVO_FORMAT, ServoRows(ProfileServos()))
    ensures RowsFit(RC_FORMAT, RcRows(DefaultChannels()))
  {
    ProfileServosValid();
    DefaultChannelsValid();
    ListsFit(DefaultChannels(), []);
    forall i | 0 <= i < NUM_LEGS ensures AllFit(LEG_FORMAT, LegRow(ProfileLegs()[i])) { }
    forall i | 0 <= i < NUM_SERVOS ensures AllFit(SERVO_FORMAT, ServoRow(ProfileServos()[i])) {
      assert ValidServo(ProfileServos()[i]);
    }
  }

  lemma ProfileRowsFit()
    ensures AllFit(LINKS_FORMAT, LinksRow(PROFILE_LINKS)) && AllFit(GEOMETRY_FORMAT, GeometryRow(PROFILE_GEOMETRY))
    ensures AllFit(GAIT_FORMAT, GaitRow(PROFILE_GAIT)) && AllFit(BODY_FORMAT, BodyRow(DEFAULT_BODY))
  {
    GaitFits(PROFILE_GAIT);
    BodyFits(DEFAULT_BODY);
  }

  /** Every section of a decoded table fits its format. */
  lemma SectionsFit(v: Version, payload: bytes)
    requires |payload| == PayloadSize(v)
    ensures var t := TableOf(v, payload);
            RowsFit([U8], t[1]) && RowsFit(LINKS_FORMAT, t[2]) && RowsFit(GEOMETRY_FORMAT, t[3])
            && RowsFit(LEG_FORMAT, t[4]) && RowsFit(SERVO_FORMAT, t[5]) && RowsFit(GAIT_FORMAT, t[6])
            && (v != V3 ==> RowsFit(RC_FORMAT, t[7]))
            && (v != V3 && v != V4 ==> RowsFit(BODY_FORMAT, t[8]))
            && RowsFit(FOOT_FORMAT, t[|t| - 2]) && RowsFit([U32], t[|t| - 1])
  {
    LayoutSizes(v);
    var l, t := LayoutOf(v), TableOf(v, payload);
    EncodeOfDecodeTable(l, payload);
    assert forall i :: 0 <= i < 7 ==> l[i] == HEAD[i];
    assert forall i :: 0 <= i < |Middle(v)| ==> l[7 + i] == Middle(v)[i];
    assert l[|l| - 2] == TAIL[0] && l[|l| - 1] == TAIL[1];
  }

  lemma SingleRows(t: Table, v: Version)
    requires Regular(v, t)
    ensures LinksRow(RowLinks(t[2][0])) == t[2][0] && GeometryRow(RowGeometry(t[3][0])) == t[3][0]
    ensures GaitRow(RowGait(t[6][0])) == t[6][0]
    ensures v != V3 && v != V4 ==> BodyRow(RowBody(t[8][0])) == t[8][0]
  {
  }

  /** Whatever is read has fields that can be written. */
  lemma ReadFieldsFit(v: Version, payload: bytes)
    requires |payload| == PayloadSize(v)
    ensures FieldsFit(FromTable(v, TableOf(v, payload)))
  {
    var t := TableOf(v, payload);
    SectionsFit(v, payload);
    ProfileFits();
    ProfileRowsFit();
    SingleRows(t, v);
    RowsAreRecords(t[4], t[5], if v == V3 then [] else t[7], t[|t| - 2]);
    assert Fits(U32, t[|t| - 1][0][0]);
  }

  lemma MigratedFieldsFit(v: Version, c: RobotConfig)
    requires FieldsFit(c)
    ensures FieldsFit(Migrate(v, c))
  {
    ProfileFits();
    ProfileRowsFit();
  }

  /** The name field of a payload. */
  function NameBytes(payload: bytes): seq<int>
    requires |payload| >= 18
  {
    seq(ROBOT_NAME_LEN, i requires 0 <= i < ROBOT_NAME_LEN => payload[2 + i] as int)
  }

  lemma OneByteRow(b: bytes)
    requires |b| == 1
    ensures Size([U8]) == 1 && Unpack([U8], b) == [b[0] as int]
  {
    assert b[..1] == b && [U8][1..] == [];
    assert LeValue(b) == b[0] as int + 256 * LeValue(b[1..]);
  }

  lemma {:induction false} ByteRows(b: bytes)
    ensures Times(|b|, Size([U8])) == |b|
    ensures forall i :: 0 <= i < |b| ==> DecodeRows([U8], |b|, b)[i] == [b[i] as int]
  {
    assert Size([U8]) == 1;
    TimesIsProduct(|b|, 1);
    if b != [] {
      ByteRows(b[1..]);
      OneByteRow(b[..1]);
    }
  }

  lemma NameIsSecond(v: Version, payload: bytes)
    requires |payload| == PayloadSize(v)
    ensures NameOf(TableOf(v, payload)[1]) == NameBytes(payload)
  {
    LayoutSizes(v);
    var l := LayoutOf(v);
    SectionSizes();
    SectionAt(l, 1, payload);
    assert l[0] == SCHEMA_SECTION && l[1] == NAME_SECTION && l[1..][0] == l[1];
    assert Offset(l, 1) == 2 + Offset(l[1..], 0);
    ByteRows(payload[2..18]);
  }

  lemma DecodedCounts(payload: bytes)
    requires Decode(payload).Config?
    ensures var c := Decode(payload).config;
            FullCounts(c) && c.schemaVersion == SCHEMA_VERSION && FieldsFit(c)
            && c.robotName == TrimName(NameBytes(payload))
  {
    var v := Detect(Schema(payload), |payload|).version;
    ReadFieldsFit(v, payload);
    MigratedFieldsFit(v, FromTable(v, TableOf(v, payload)));
    NameIsSecond(v, payload);
  }

  /** Every payload that is accepted, whatever its schema, decodes to a configuration that
      encoding and decoding leaves alone exactly when its name field is terminated and ASCII. */
  lemma DecodedIsFixedPoint(payload: bytes)
    requires Decode(payload).Config?
    ensures var c := Decode(payload).config;
            CleanName(NameBytes(payload)) <==> Encode(c).Payload? && Decode(Encode(c).data) == Config(c)
  {
    var c := Decode(payload).config;
    DecodedCounts(payload);
    DecodedName(NameBytes(payload));
    if IsAscii(c.robotName) {
      DecodeOfEncode(c);
    }
  }

  lemma ServosAt(v: Version, payload: bytes)
    requires |payload| == PayloadSize(v)
    ensures Bytes(SERVOS_SECTION) == 180 && TableOf(v, payload)[5] == RowsAt(SERVOS_SECTION, payload, 78)
  {
    LayoutSizes(v);
    var l := LayoutOf(v);
    SectionSizes();
    SectionAt(l, 5, payload);
    ServoOffset(l);
  }

  lemma ServoOffset(l: Layout)
    requires |l| >= 7 && l[..7] == HEAD
    ensures Offset(l, 5) == 78 && l[5] == SERVOS_SECTION
  {
    SectionSizes();
    assert forall i :: 0 <= i < 7 ==> l[i] == l[..7][i] == HEAD[i];
    OffsetSnoc(l, 4);
    OffsetSnoc(l, 3);
    OffsetSnoc(l, 2);
    OffsetSnoc(l, 1);
    OffsetSnoc(l, 0);
  }

  /** Servo records come from bytes 78 to 258 in schemas 3, 4, 5, 8 and 9, and from the
      built-in profile in 6 and 7. */
  lemma ServosKeptOrReplaced(payload: bytes)
    requires Decode(payload).Config?
    ensures Bytes(SERVOS_SECTION) == 180 && |payload| >= 258
    ensures Wide(RowsAt(SERVOS_SECTION, payload, 78), 7)
    ensures Decode(payload).config.servos
         == if Schema(payload) == 6 || Schema(payload) == 7 then ProfileServos()
            else Servos(RowsAt(SERVOS_SECTION, payload, 78))
  {
    ServosAt(Detect(Schema(payload), |payload|).version, payload);
  }

  /** A table of the current schema with a canonical name is that of the configuration read from it. */
  lemma TabulateOfTable(t: Table)
    requires Regular(V9, t) && t[0] == [[SCHEMA_VERSION]]
    requires t[1] == NameRows(NameField(TrimName(NameOf(t[1]))))
    ensures Tabulate(FromTable(V9, t)) == t
  {
    var c := FromTable(V9, t);
    RowsAreRecords(t[4], t[5], t[7], t[9]);
    SingleRows(t, V9);
    HeadOfTable(t, c);
    Singleton(t[8]);
    Singleton(t[10]);
    assert t == t[..7] + [t[7], t[8]] + [t[9], t[10]];
  }

  lemma HeadOfTable(t: Table, c: RobotConfig)
    requires Regular(V9, t) && c == FromTable(V9, t) && t[0] == [[SCHEMA_VERSION]]
    requires t[1] == NameRows(NameField(TrimName(NameOf(t[1]))))
    ensures HeadTable(c) == t[..7]
  {
    RowsAreRecords(t[4], t[5], t[7], t[9]);
    SingleRows(t, V9);
    Singleton(t[2]);
    Singleton(t[3]);
    Singleton(t[6]);
    assert t[..7] == [t[0], t[1], t[2], t[3]] + [t[4], t[5], t[6]];
  }

  lemma RowsOfName(rows: seq<Row>)
    requires Wide(rows, 1)
    ensures NameRows(NameOf(rows)) == rows
  {
    forall i | 0 <= i < |rows| ensures [rows[i][0]] == rows[i] { }
  }

  lemma Singleton(rows: seq<Row>)
    requires |rows| == 1
    ensures rows == [rows[0]]
    ensures |rows[0]| == 1 ==> rows == [[rows[0][0]]]
  {
    if |rows[0]| == 1 {
      assert rows[0] == [rows[0][0]];
    }
  }

  /** For the current schema the bytes themselves come back when the name field is ASCII and
      padded with NULs. */
  lemma CanonicalBytes(payload: bytes)
    requires |payload| == CONFIG_PAYLOAD_SIZE && Schema(payload) == SCHEMA_VERSION
    requires IsAscii(TrimName(NameBytes(payload))) && NameField(TrimName(NameBytes(payload))) == NameBytes(payload)
    ensures Decode(payload).Config? && Encode(Decode(payload).config) == Payload(payload)
  {
    var t := TableOf(V9, payload);
    SchemaIsFirst(V9, payload);
    DecodeCurrent(payload, t);
    DecodedCounts(payload);
    NameIsSecond(V9, payload);
    RowsOfName(t[1]);
    TabulateOfTable(t);
    LayoutSizes(V9);
    EncodeOfDecodeTable(LayoutOf(V9), payload);
  }

  // ---------- A payload that is not a fixed point ----------

  lemma DefaultEncodes()
    ensures Encodable(DefaultConfig()) && FullCounts(DefaultConfig())
  {
    DefaultIsValid();
    EncodesIff(DefaultConfig());
  }

  function NulNamed(): RobotConfig {
    DefaultConfig().(robotName := [0])
  }

  lemma NulNamedValid()
    ensures Valid(NulNamed())
  {
    DefaultIsValid();
    NameLength([0]);
  }

  lemma NulNamedEncodes()
    ensures Encode(NulNamed()).Payload?
  {
    DefaultEncodes();
  }

  /** A valid configuration whose name is a single NUL encodes, and comes back without a name. */
  lemma NulNameIsLost()
    ensures var c := NulNamed();
            Valid(c) && Encode(c).Payload? && Decode(Encode(c).data) != Config(c)
  {
    NulNamedValid();
    NulNamedEncodes();
    ConfigRoundTrip(NulNamed());
  }

  /** A valid configuration that encoding refuses. */
  lemma DutyIsRefused()
    ensures var c := DefaultConfig().(gait := PROFILE_GAIT.(duty := 256));
            Valid(c) && Encode(c) == Raises
  {
    var c := DefaultConfig().(gait := PROFILE_GAIT.(duty := 256));
    DefaultIsValid();
    EncodesIff(c);
  }

  function LongName(): seq<int> {
    seq(ROBOT_NAME_LEN, i => 0x41)
  }

  lemma LongNameUnclean(field: seq<int>)
    requires field == LongName()
    ensures !CleanName(field) && IsAscii(TrimName(field))
  {
    TrimNameIs(field);
    assert FirstNul(field) == ROBOT_NAME_LEN;
  }

  lemma LongNameTable(t: Table, rows: seq<Row>)
    requires TableFits(LayoutOf(V9), t) && Shaped(LayoutOf(V9), t) && rows == NameRows(LongName())
    ensures TableFits(LayoutOf(V9), t[1 := rows]) && Shaped(LayoutOf(V9), t[1 := rows])
  {
    assert LayoutOf(V9)[1] == NAME_SECTION;
    assert RowsFit([U8], rows);
  }

  lemma DefaultTable() returns (t: Table)
    ensures TableFits(LayoutOf(V9), t) && Shaped(LayoutOf(V9), t) && t[0] == [[SCHEMA_VERSION]]
  {
    DefaultEncodes();
    EncodableFits(DefaultConfig());
    TabulateShaped(DefaultConfig());
    t := Tabulate(DefaultConfig());
  }

  lemma WithLongName() returns (payload: bytes)
    ensures Decode(payload).Config? && NameBytes(payload) == LongName()
  {
    var t := DefaultTable();
    var u := t[1 := NameRows(LongName())];
    LongNameTable(t, NameRows(LongName()));
    LayoutSizes(V9);
    DecodeOfEncodeTable(LayoutOf(V9), u);
    payload := EncodeTable(LayoutOf(V9), u);
    DecodeCurrent(payload, u);
    NameIsSecond(V9, payload);
    NameOfRows(LongName());
  }

  /** An accepted payload whose name fills all sixteen bytes loses the last one when the
      configuration is written back. */
  lemma UnterminatedNameIsCut() returns (payload: bytes)
    ensures Decode(payload).Config?
    ensures var c := Decode(payload).config;
            Encode(c).Payload? && Decode(Encode(c).data) != Config(c)
  {
    payload := WithLongName();
    LongNameUnclean(NameBytes(payload));
    DecodedCounts(payload);
    DecodedIsFixedPoint(payload);
  }

  // ---------- The procedures ----------

  /** Pack rows one after another until one does not fit. */
  method WriteRows(f: Format, rows: seq<Row>) returns (r: Encoded)
    ensures r == if RowsFit(f, rows) then Payload(EncodeRows(f, rows)) else Raises
  {
    var out: bytes := [];
    for i := 0 to |rows|
      invariant forall k :: 0 <= k < i ==> AllFit(f, rows[k])
      invariant RowsFit(f, rows) ==> EncodeRows(f, rows) == out + EncodeRows(f, rows[i..])
      invariant i == |rows| ==> rows[i..] == []
    {
      if !AllFit(f, rows[i]) {
        return Raises;
      }
      ghost var tail := rows[i..];
      assert tail[0] == rows[i] && tail[1..] == rows[i + 1..];
      out := out + PackFits(f, rows[i]);
    }
    return Payload(out);
  }

  method WriteTable(l: Layout, t: Table) returns (r: Encoded)
    requires |l| == |t|
    ensures r == if TableFits(l, t) then Payload(EncodeTable(l, t)) else Raises
  {
    var out: bytes := [];
    for i := 0 to |l|
      invariant forall k :: 0 <= k < i ==> RowsFit(l[k].format, t[k])
      invariant TableFits(l, t) ==> TableFits(l[i..], t[i..]) && EncodeTable(l, t) == out + EncodeTable(l[i..], t[i..])
      invariant i == |l| ==> l[i..] == []
    {
      var section := WriteRows(l[i].format, t[i]);
      if section.Raises? {
        return Raises;
      }
      ghost var l', t' := l[i..], t[i..];
      assert l'[0] == l[i] && t'[0] == t[i] && l'[1..] == l[i + 1..] && t'[1..] == t[i + 1..];
      out := out + section.data;
    }
    return Payload(out);
  }

  lemma FitsOne(k: Kind, r: Row)
    requires AllFit([k], r)
    ensures Fits(k, r[0])
  {
    assert [k][0] == k;
  }

  lemma TableFitsFields(c: RobotConfig)
    requires |c.channels| == NUM_RC_ANALOG_INPUTS && TableFits(LayoutOf(V9), Tabulate(c))
    ensures FieldsFit(c)
  {
    var l, t := LayoutOf(V9), Tabulate(c);
    assert RowsFit(l[0].format, t[0]) && RowsFit(l[2].format, t[2]) && RowsFit(l[3].format, t[3]);
    assert RowsFit(l[4].format, t[4]) && RowsFit(l[5].format, t[5]) && RowsFit(l[6].format, t[6]);
    assert RowsFit(l[7].format, t[7]) && RowsFit(l[8].format, t[8]) && RowsFit(l[9].format, t[9]);
    assert RowsFit(l[10].format, t[10]);
    FitsOne(U16, t[0][0]);
    FitsOne(U32, t[10][0]);
    assert AllFit(LINKS_FORMAT, t[2][0]) && AllFit(GEOMETRY_FORMAT, t[3][0]);
    assert AllFit(GAIT_FORMAT, t[6][0]) && AllFit(BODY_FORMAT, t[8][0]);
  }

  /** `encode_robot_config`. */
  method EncodeRobotConfig(c: RobotConfig) returns (r: Encoded)
    ensures r == Encode(c)
  {
    if !IsAscii(c.robotName) || |c.channels| != NUM_RC_ANALOG_INPUTS {
      return Raises;
    }
    assert |LayoutOf(V9)| == |Tabulate(c)| == 11;
    r := WriteTable(LayoutOf(V9), Tabulate(c));
    if r.Payload? {
      TableFitsFields(c);
    } else if Encodable(c) {
      EncodableFits(c);
    }
  }

  /** Read `n` rows from a cursor that moves by one row at a time. */
  method ReadRows(payload: bytes, from: nat, s: Section) returns (rows: seq<Row>, to: nat)
    requires from + Bytes(s) <= |payload|
    ensures rows == RowsAt(s, payload, from) && to == from + Bytes(s)
  {
    rows, to := [], from;
    var w := Size(s.format);
    ghost var all := payload[from..from + Bytes(s)];
    ghost var rest := all;
    for i := 0 to s.count
      invariant |rest| == Times(s.count - i, w) && to + |rest| == from + Bytes(s)
      invariant payload[to..to + |rest|] == rest
      invariant DecodeRows(s.format, s.count, all) == rows + DecodeRows(s.format, s.count - i, rest)
    {
      CursorStep(payload, to, rest, w);
      RowStep(s.format, s.count - i, rows, rest);
      rows := rows + [Unpack(s.format, payload[to..to + w])];
      to, rest := to + w, rest[w..];
    }
  }

  lemma RowStep(f: Format, n: nat, rows: seq<Row>, rest: bytes)
    requires n > 0 && |rest| == Times(n, Size(f))
    ensures rows + DecodeRows(f, n, rest)
         == rows + [Unpack(f, rest[..Size(f)])] + DecodeRows(f, n - 1, rest[Size(f)..])
  {
  }

  lemma CursorStep(payload: bytes, to: nat, rest: bytes, w: nat)
    requires w <= |rest| && to + |rest| <= |payload| && payload[to..to + |rest|] == rest
    ensures payload[to..to + w] == rest[..w] && payload[to + w..to + |rest|] == rest[w..]
  {
  }

  method ReadTable(l: Layout, payload: bytes) returns (t: Table)
    requires |payload| == LayoutSize(l)
    ensures t == DecodeTable(l, payload)
  {
    t := [];
    var o := 0;
    assert payload[0..] == payload && l[0..] == l;
    for i := 0 to |l|
      invariant o <= |payload| && |payload[o..]| == LayoutSize(l[i..])
      invariant DecodeTable(l, payload) == t + DecodeTable(l[i..], payload[o..])
    {
      ghost var l', b' := l[i..], payload[o..];
      var rows, next := ReadRows(payload, o, l[i]);
      assert l'[0] == l[i] && l'[1..] == l[i + 1..];
      assert b'[..Bytes(l[i])] == payload[o..next] && b'[Bytes(l[i])..] == payload[next..];
      t := t + [rows];
      o := next;
    }
  }

  /** `decode_robot_config`. */
  method DecodeRobotConfig(payload: bytes) returns (d: Decoded)
    ensures d == Decode(payload)
  {
    var n := |payload|;
    if n != CONFIG_PAYLOAD_SIZE && n != PAYLOAD_SIZE_V4 && n != PAYLOAD_SIZE_V3 {
      return WrongLength;
    }
    var detected := Detect(Schema(payload), n);
    if detected.Unknown? {
      return WrongVersion;
    }
    var v := detected.version;
    LayoutSizes(v);
    var t := ReadTable(LayoutOf(v), payload);
    assert t == TableOf(v, payload);
    return Config(Migrate(v, FromTable(v, t)));
  }
}
