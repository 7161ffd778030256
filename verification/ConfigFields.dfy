/**
  The configuration payload read by byte position, for every schema: an independent account of
  what decoding returns, field by field.
  */
module ConfigFields {
  import opened Struct
  import opened Offsets
  import opened Tables
  import opened RobotConfigs
  import opened ConfigCodec

  // ---------- Records at their offsets ----------

  function LinksAt(b: bytes, o: nat): LinkLengths
    requires o + 6 <= |b|
  {
    LinkLengths(U16At(b, o), U16At(b, o + 2), U16At(b, o + 4))
  }

  function GeometryAt(b: bytes, o: nat): BodyGeometry
    requires o + 6 <= |b|
  {
    BodyGeometry(U16At(b, o), I16At(b, o + 2), U16At(b, o + 4))
  }

  function LegAt(b: bytes, o: nat): LegGeometry
    requires o + 8 <= |b|
  {
    LegGeometry(I16At(b, o), I16At(b, o + 2), I16At(b, o + 4), I16At(b, o + 6))
  }

  function ServoAt(b: bytes, o: nat): ServoConfig
    requires o + 10 <= |b|
  {
    ServoConfig(U8At(b, o), U8At(b, o + 1), U8At(b, o + 2), I8At(b, o + 3), I16At(b, o + 4), U16At(b, o + 6), U16At(b, o + 8))
  }

  function GaitAt(b: bytes, o: nat): GaitDefaults
    requires o + 9 <= |b|
  {
    GaitDefaults(U16At(b, o), U16At(b, o + 2), U16At(b, o + 4), U8At(b, o + 6), U8At(b, o + 7), U8At(b, o + 8))
  }

  function ChannelAt(b: bytes, o: nat): RcChannel
    requires o + 15 <= |b|
  {
    RcChannel(U8At(b, o), U8At(b, o + 1), I16At(b, o + 2), I16At(b, o + 4), I16At(b, o + 6), U8At(b, o + 8),
              U8At(b, o + 9), U8At(b, o + 10), U16At(b, o + 11), U16At(b, o + 13))
  }

  function BodyAt(b: bytes, o: nat): BodyLimits
    requires o + 28 <= |b|
  {
    BodyLimits(U16At(b, o), U16At(b, o + 2), U16At(b, o + 4), U16At(b, o + 6), U16At(b, o + 8), U16At(b, o + 10),
               U16At(b, o + 12), U16At(b, o + 14), U16At(b, o + 16), U16At(b, o + 18), U16At(b, o + 20),
               U16At(b, o + 22), U16At(b, o + 24), U16At(b, o + 26))
  }

  function FootAt(b: bytes, o: nat): FootSensorCal
    requires o + 11 <= |b|
  {
    FootSensorCal(I32At(b, o), U16At(b, o + 4), U16At(b, o + 6), U16At(b, o + 8), U8At(b, o + 10))
  }

  // ---------- Rows at their offsets ----------

  /** Row `i` of a section is unpacked from its own bytes. */
  lemma {:induction false} RowIn(f: Format, n: nat, b: bytes, i: nat)
    requires |b| == Times(n, Size(f)) && i < n
    ensures Times(i, Size(f)) + Size(f) <= |b|
    ensures DecodeRows(f, n, b)[i] == Unpack(f, b[Times(i, Size(f))..Times(i, Size(f)) + Size(f)])
  {
    var w := Size(f);
    if i == 0 {
      assert b[..w] == b[0..0 + w];
    } else {
      RowIn(f, n - 1, b[w..], i - 1);
      SliceOfTail(b, w, Times(i - 1, w), w);
    }
  }

  /** Row `i` of a section that starts at `from` is unpacked from the bytes at `o`. */
  ghost predicate RowFrom(f: Format, b: bytes, o: nat, row: Row) {
    o + Size(f) <= |b| && row == Unpack(f, b[o..o + Size(f)])
  }

  lemma RowOf(s: Section, b: bytes, from: nat, i: nat, at: nat)
    requires from + Bytes(s) <= |b| && i < s.count && at == Times(i, Size(s.format))
    ensures |RowsAt(s, b, from)| == s.count && RowFrom(s.format, b, from + at, RowsAt(s, b, from)[i])
  {
    var w, n := Size(s.format), Bytes(s);
    RowIn(s.format, s.count, b[from..from + n], i);
    SliceOfSlice(b, from, n, at, w);
  }

  /** Field `j` of such a row. */
  lemma RowField(f: Format, b: bytes, o: nat, row: Row, j: nat, start: nat)
    requires RowFrom(f, b, o, row) && j < |f| && start == Start(f, j)
    ensures |row| == |f| && o + start + Width(f[j]) <= |b| && row[j] == ValueAt(f[j], b, o + start)
  {
    FieldIn(f, b, o, b[o..o + Size(f)], row, j, start);
  }

  lemma {:induction false} WordStarts(f: Format, j: nat)
    requires j <= |f| && forall i :: 0 <= i < |f| ==> f[i] == U16
    ensures Start(f, j) == 2 * j
  {
    if j > 0 {
      WordStarts(f[1..], j - 1);
    }
  }

  lemma LegStarts()
    ensures |LEG_FORMAT| == 4 && Size(LEG_FORMAT) == 8
    ensures Start(LEG_FORMAT, 0) == 0 && LEG_FORMAT[0] == I16 && Start(LEG_FORMAT, 1) == 2 && LEG_FORMAT[1] == I16
    ensures Start(LEG_FORMAT, 2) == 4 && LEG_FORMAT[2] == I16 && Start(LEG_FORMAT, 3) == 6 && LEG_FORMAT[3] == I16
  {
    ShortFormatSizes();
    Starts(LEG_FORMAT);
    assert LEG_FORMAT[0] == I16 && LEG_FORMAT[1] == I16 && LEG_FORMAT[2] == I16 && LEG_FORMAT[3] == I16;
  }

  lemma LegRead(b: bytes, o: nat, row: Row)
    requires RowFrom(LEG_FORMAT, b, o, row)
    ensures |row| == 4 && o + 8 <= |b| && RowLeg(row) == LegAt(b, o)
  {
    LegStarts();
    RowField(LEG_FORMAT, b, o, row, 0, 0);
    RowField(LEG_FORMAT, b, o, row, 1, 2);
    RowField(LEG_FORMAT, b, o, row, 2, 4);
    RowField(LEG_FORMAT, b, o, row, 3, 6);
  }

  lemma LegRowAt(b: bytes, from: nat, i: nat)
    requires from + 48 <= |b| && i < 6
    ensures Bytes(LEGS_SECTION) == 48 && |RowsAt(LEGS_SECTION, b, from)| == 6 && |RowsAt(LEGS_SECTION, b, from)[i]| == 4
    ensures RowLeg(RowsAt(LEGS_SECTION, b, from)[i]) == LegAt(b, from + 8 * i)
  {
    SectionSizes();
    ShortFormatSizes();
    TimesIsProduct(i, 8);
    RowOf(LEGS_SECTION, b, from, i, 8 * i);
    LegRead(b, from + 8 * i, RowsAt(LEGS_SECTION, b, from)[i]);
  }

  lemma ServoStarts()
    ensures |SERVO_FORMAT| == 7 && Size(SERVO_FORMAT) == 10
    ensures Start(SERVO_FORMAT, 0) == 0 && SERVO_FORMAT[0] == U8 && Start(SERVO_FORMAT, 1) == 1 && SERVO_FORMAT[1] == U8
    ensures Start(SERVO_FORMAT, 2) == 2 && SERVO_FORMAT[2] == U8 && Start(SERVO_FORMAT, 3) == 3 && SERVO_FORMAT[3] == I8
    ensures Start(SERVO_FORMAT, 4) == 4 && SERVO_FORMAT[4] == I16 && Start(SERVO_FORMAT, 5) == 6 && SERVO_FORMAT[5] == U16
    ensures Start(SERVO_FORMAT, 6) == 8 && SERVO_FORMAT[6] == U16
  {
    LongFormatSizes();
    Starts(SERVO_FORMAT);
    assert SERVO_FORMAT[0] == U8 && SERVO_FORMAT[1] == U8 && SERVO_FORMAT[2] == U8 && SERVO_FORMAT[3] == I8 && SERVO_FORMAT[4] == I16;
    assert SERVO_FORMAT[5] == U16 && SERVO_FORMAT[6] == U16;
  }

  lemma ServoRead(b: bytes, o: nat, row: Row)
    requires RowFrom(SERVO_FORMAT, b, o, row)
    ensures |row| == 7 && o + 10 <= |b| && RowServo(row) == ServoAt(b, o)
  {
    ServoStarts();
    RowField(SERVO_FORMAT, b, o, row, 0, 0);
    RowField(SERVO_FORMAT, b, o, row, 1, 1);
    RowField(SERVO_FORMAT, b, o, row, 2, 2);
    RowField(SERVO_FORMAT, b, o, row, 3, 3);
    RowField(SERVO_FORMAT, b, o, row, 4, 4);
    RowField(SERVO_FORMAT, b, o, row, 5, 6);
    RowField(SERVO_FORMAT, b, o, row, 6, 8);
  }

  lemma ServoRowAt(b: bytes, from: nat, i: nat)
    requires from + 180 <= |b| && i < 18
    ensures Bytes(SERVOS_SECTION) == 180 && |RowsAt(SERVOS_SECTION, b, from)| == 18 && |RowsAt(SERVOS_SECTION, b, from)[i]| == 7
    ensures RowServo(RowsAt(SERVOS_SECTION, b, from)[i]) == ServoAt(b, from + 10 * i)
  {
    SectionSizes();
    LongFormatSizes();
    TimesIsProduct(i, 10);
    RowOf(SERVOS_SECTION, b, from, i, 10 * i);
    ServoRead(b, from + 10 * i, RowsAt(SERVOS_SECTION, b, from)[i]);
  }

  lemma ChannelStarts()
    ensures |RC_FORMAT| == 10 && Size(RC_FORMAT) == 15
    ensures Start(RC_FORMAT, 0) == 0 && RC_FORMAT[0] == U8 && Start(RC_FORMAT, 1) == 1 && RC_FORMAT[1] == U8
    ensures Start(RC_FORMAT, 2) == 2 && RC_FORMAT[2] == I16 && Start(RC_FORMAT, 3) == 4 && RC_FORMAT[3] == I16
    ensures Start(RC_FORMAT, 4) == 6 && RC_FORMAT[4] == I16 && Start(RC_FORMAT, 5) == 8 && RC_FORMAT[5] == U8
    ensures Start(RC_FORMAT, 6) == 9 && RC_FORMAT[6] == U8 && Start(RC_FORMAT, 7) == 10 && RC_FORMAT[7] == U8
    ensures Start(RC_FORMAT, 8) == 11 && RC_FORMAT[8] == U16 && Start(RC_FORMAT, 9) == 13 && RC_FORMAT[9] == U16
  {
    RcFormatSize();
    Starts(RC_FORMAT);
    assert RC_FORMAT[0] == U8 && RC_FORMAT[1] == U8 && RC_FORMAT[2] == I16 && RC_FORMAT[3] == I16 && RC_FORMAT[4] == I16;
    assert RC_FORMAT[5] == U8 && RC_FORMAT[6] == U8 && RC_FORMAT[7] == U8 && RC_FORMAT[8] == U16 && RC_FORMAT[9] == U16;
  }

  lemma ChannelRead(b: bytes, o: nat, row: Row)
    requires RowFrom(RC_FORMAT, b, o, row)
    ensures |row| == 10 && o + 15 <= |b| && RowRc(row) == ChannelAt(b, o)
  {
    ChannelStarts();
    RowField(RC_FORMAT, b, o, row, 0, 0);
    RowField(RC_FORMAT, b, o, row, 1, 1);
    RowField(RC_FORMAT, b, o, row, 2, 2);
    RowField(RC_FORMAT, b, o, row, 3, 4);
    RowField(RC_FORMAT, b, o, row, 4, 6);
    RowField(RC_FORMAT, b, o, row, 5, 8);
    RowField(RC_FORMAT, b, o, row, 6, 9);
    RowField(RC_FORMAT, b, o, row, 7, 10);
    RowField(RC_FORMAT, b, o, row, 8, 11);
    RowField(RC_FORMAT, b, o, row, 9, 13);
  }

  lemma ChannelRowAt(b: bytes, from: nat, i: nat)
    requires from + 120 <= |b| && i < 8
    ensures Bytes(RC_SECTION) == 120 && |RowsAt(RC_SECTION, b, from)| == 8 && |RowsAt(RC_SECTION, b, from)[i]| == 10
    ensures RowRc(RowsAt(RC_SECTION, b, from)[i]) == ChannelAt(b, from + 15 * i)
  {
    SectionSizes();
    RcFormatSize();
    TimesIsProduct(i, 15);
    RowOf(RC_SECTION, b, from, i, 15 * i);
    ChannelRead(b, from + 15 * i, RowsAt(RC_SECTION, b, from)[i]);
  }

  lemma FootStarts()
    ensures |FOOT_FORMAT| == 5 && Size(FOOT_FORMAT) == 11
    ensures Start(FOOT_FORMAT, 0) == 0 && FOOT_FORMAT[0] == I32 && Start(FOOT_FORMAT, 1) == 4 && FOOT_FORMAT[1] == U16
    ensures Start(FOOT_FORMAT, 2) == 6 && FOOT_FORMAT[2] == U16 && Start(FOOT_FORMAT, 3) == 8 && FOOT_FORMAT[3] == U16
    ensures Start(FOOT_FORMAT, 4) == 10 && FOOT_FORMAT[4] == U8
  {
    ShortFormatSizes();
    Starts(FOOT_FORMAT);
    assert FOOT_FORMAT[0] == I32 && FOOT_FORMAT[1] == U16 && FOOT_FORMAT[2] == U16 && FOOT_FORMAT[3] == U16 && FOOT_FORMAT[4] == U8;
  }

  lemma FootRead(b: bytes, o: nat, row: Row)
    requires RowFrom(FOOT_FORMAT, b, o, row)
    ensures |row| == 5 && o + 11 <= |b| && RowFoot(row) == FootAt(b, o)
  {
    FootStarts();
    RowField(FOOT_FORMAT, b, o, row, 0, 0);
    RowField(FOOT_FORMAT, b, o, row, 1, 4);
    RowField(FOOT_FORMAT, b, o, row, 2, 6);
    RowField(FOOT_FORMAT, b, o, row, 3, 8);
    RowField(FOOT_FORMAT, b, o, row, 4, 10);
  }

  lemma FootRowAt(b: bytes, from: nat, i: nat)
    requires from + 66 <= |b| && i < 6
    ensures Bytes(FEET_SECTION) == 66 && |RowsAt(FEET_SECTION, b, from)| == 6 && |RowsAt(FEET_SECTION, b, from)[i]| == 5
    ensures RowFoot(RowsAt(FEET_SECTION, b, from)[i]) == FootAt(b, from + 11 * i)
  {
    SectionSizes();
    ShortFormatSizes();
    TimesIsProduct(i, 11);
    RowOf(FEET_SECTION, b, from, i, 11 * i);
    FootRead(b, from + 11 * i, RowsAt(FEET_SECTION, b, from)[i]);
  }

  lemma LinksStarts()
    ensures |LINKS_FORMAT| == 3 && Size(LINKS_FORMAT) == 6
    ensures Start(LINKS_FORMAT, 0) == 0 && LINKS_FORMAT[0] == U16 && Start(LINKS_FORMAT, 1) == 2 && LINKS_FORMAT[1] == U16
    ensures Start(LINKS_FORMAT, 2) == 4 && LINKS_FORMAT[2] == U16
  {
    ShortFormatSizes();
    Starts(LINKS_FORMAT);
    assert LINKS_FORMAT[0] == U16 && LINKS_FORMAT[1] == U16 && LINKS_FORMAT[2] == U16;
  }

  lemma LinksRead(b: bytes, o: nat, row: Row)
    requires RowFrom(LINKS_FORMAT, b, o, row)
    ensures |row| == 3 && o + 6 <= |b| && RowLinks(row) == LinksAt(b, o)
  {
    LinksStarts();
    RowField(LINKS_FORMAT, b, o, row, 0, 0);
    RowField(LINKS_FORMAT, b, o, row, 1, 2);
    RowField(LINKS_FORMAT, b, o, row, 2, 4);
  }

  lemma LinksRowAt(b: bytes, from: nat)
    requires from + 6 <= |b|
    ensures Bytes(Section(LINKS_FORMAT, 1)) == 6 && |RowsAt(Section(LINKS_FORMAT, 1), b, from)| == 1 && |RowsAt(Section(LINKS_FORMAT, 1), b, from)[0]| == 3
    ensures RowLinks(RowsAt(Section(LINKS_FORMAT, 1), b, from)[0]) == LinksAt(b, from)
  {
    SectionSizes();
    ShortFormatSizes();
    RowOf(Section(LINKS_FORMAT, 1), b, from, 0, 0);
    LinksRead(b, from, RowsAt(Section(LINKS_FORMAT, 1), b, from)[0]);
  }

  lemma GeometryStarts()
    ensures |GEOMETRY_FORMAT| == 3 && Size(GEOMETRY_FORMAT) == 6
    ensures Start(GEOMETRY_FORMAT, 0) == 0 && GEOMETRY_FORMAT[0] == U16 && Start(GEOMETRY_FORMAT, 1) == 2 && GEOMETRY_FORMAT[1] == I16
    ensures Start(GEOMETRY_FORMAT, 2) == 4 && GEOMETRY_FORMAT[2] == U16
  {
    ShortFormatSizes();
    Starts(GEOMETRY_FORMAT);
    assert GEOMETRY_FORMAT[0] == U16 && GEOMETRY_FORMAT[1] == I16 && GEOMETRY_FORMAT[2] == U16;
  }

  lemma GeometryRead(b: bytes, o: nat, row: Row)
    requires RowFrom(GEOMETRY_FORMAT, b, o, row)
    ensures |row| == 3 && o + 6 <= |b| && RowGeometry(row) == GeometryAt(b, o)
  {
    GeometryStarts();
    RowField(GEOMETRY_FORMAT, b, o, row, 0, 0);
    RowField(GEOMETRY_FORMAT, b, o, row, 1, 2);
    RowField(GEOMETRY_FORMAT, b, o, row, 2, 4);
  }

  lemma GeometryRowAt(b: bytes, from: nat)
    requires from + 6 <= |b|
    ensures Bytes(Section(GEOMETRY_FORMAT, 1)) == 6 && |RowsAt(Section(GEOMETRY_FORMAT, 1), b, from)| == 1 && |RowsAt(Section(GEOMETRY_FORMAT, 1), b, from)[0]| == 3
    ensures RowGeometry(RowsAt(Section(GEOMETRY_FORMAT, 1), b, from)[0]) == GeometryAt(b, from)
  {
    SectionSizes();
    ShortFormatSizes();
    RowOf(Section(GEOMETRY_FORMAT, 1), b, from, 0, 0);
    GeometryRead(b, from, RowsAt(Section(GEOMETRY_FORMAT, 1), b, from)[0]);
  }

  lemma GaitStarts()
    ensures |GAIT_FORMAT| == 6 && Size(GAIT_FORMAT) == 9
    ensures Start(GAIT_FORMAT, 0) == 0 && GAIT_FORMAT[0] == U16 && Start(GAIT_FORMAT, 1) == 2 && GAIT_FORMAT[1] == U16
    ensures Start(GAIT_FORMAT, 2) == 4 && GAIT_FORMAT[2] == U16 && Start(GAIT_FORMAT, 3) == 6 && GAIT_FORMAT[3] == U8
    ensures Start(GAIT_FORMAT, 4) == 7 && GAIT_FORMAT[4] == U8 && Start(GAIT_FORMAT, 5) == 8 && GAIT_FORMAT[5] == U8
  {
    LongFormatSizes();
    Starts(GAIT_FORMAT);
    assert GAIT_FORMAT[0] == U16 && GAIT_FORMAT[1] == U16 && GAIT_FORMAT[2] == U16 && GAIT_FORMAT[3] == U8 && GAIT_FORMAT[4] == U8;
    assert GAIT_FORMAT[5] == U8;
  }

  lemma GaitRead(b: bytes, o: nat, row: Row)
    requires RowFrom(GAIT_FORMAT, b, o, row)
    ensures |row| == 6 && o + 9 <= |b| && RowGait(row) == GaitAt(b, o)
  {
    GaitStarts();
    RowField(GAIT_FORMAT, b, o, row, 0, 0);
    RowField(GAIT_FORMAT, b, o, row, 1, 2);
    RowField(GAIT_FORMAT, b, o, row, 2, 4);
    RowField(GAIT_FORMAT, b, o, row, 3, 6);
    RowField(GAIT_FORMAT, b, o, row, 4, 7);
    RowField(GAIT_FORMAT, b, o, row, 5, 8);
  }

  lemma GaitRowAt(b: bytes, from: nat)
    requires from + 9 <= |b|
    ensures Bytes(Section(GAIT_FORMAT, 1)) == 9 && |RowsAt(Section(GAIT_FORMAT, 1), b, from)| == 1 && |RowsAt(Section(GAIT_FORMAT, 1), b, from)[0]| == 6
    ensures RowGait(RowsAt(Section(GAIT_FORMAT, 1), b, from)[0]) == GaitAt(b, from)
  {
    SectionSizes();
    LongFormatSizes();
    RowOf(Section(GAIT_FORMAT, 1), b, from, 0, 0);
    GaitRead(b, from, RowsAt(Section(GAIT_FORMAT, 1), b, from)[0]);
  }

  lemma BodyStarts()
    ensures |BODY_FORMAT| == 14 && Size(BODY_FORMAT) == 28
    ensures forall j: nat :: j < 14 ==> Start(BODY_FORMAT, j) == 2 * j && BODY_FORMAT[j] == U16
  {
    BodyFormatSize();
    forall j: nat | j <= 14 ensures Start(BODY_FORMAT, j) == 2 * j {
      WordStarts(BODY_FORMAT, j);
    }
  }

  lemma BodyRead(b: bytes, o: nat, row: Row)
    requires RowFrom(BODY_FORMAT, b, o, row)
    ensures |row| == 14 && o + 28 <= |b| && RowBody(row) == BodyAt(b, o)
  {
    BodyStarts();
    forall j | 0 <= j < 14 ensures |row| == 14 && row[j] == U16At(b, o + 2 * j) {
      RowField(BODY_FORMAT, b, o, row, j, 2 * j);
    }
  }

  lemma BodyRowAt(b: bytes, from: nat)
    requires from + 28 <= |b|
    ensures Bytes(BODY_SECTION) == 28 && |RowsAt(BODY_SECTION, b, from)| == 1 && |RowsAt(BODY_SECTION, b, from)[0]| == 14
    ensures RowBody(RowsAt(BODY_SECTION, b, from)[0]) == BodyAt(b, from)
  {
    SectionSizes();
    BodyFormatSize();
    RowOf(BODY_SECTION, b, from, 0, 0);
    BodyRead(b, from, RowsAt(BODY_SECTION, b, from)[0]);
  }

  // ---------- Sections at their offsets ----------

  /** The first seven sections start at the same bytes in every schema. */
  lemma FirstOffsets(l: Layout)
    requires |l| >= 7 && l[..7] == HEAD
    ensures Offset(l, 2) == 18 && l[2] == Section(LINKS_FORMAT, 1) && Offset(l, 3) == 24 && l[3] == Section(GEOMETRY_FORMAT, 1)
    ensures Offset(l, 4) == 30 && l[4] == LEGS_SECTION
  {
    SectionSizes();
    assert forall i :: 0 <= i < 7 ==> l[i] == l[..7][i] == HEAD[i];
    OffsetSnoc(l, 0);
    OffsetSnoc(l, 1);
    OffsetSnoc(l, 2);
    OffsetSnoc(l, 3);
  }

  lemma HeadOffsets(l: Layout)
    requires |l| >= 7 && l[..7] == HEAD
    ensures Offset(l, 2) == 18 && l[2] == Section(LINKS_FORMAT, 1) && Offset(l, 3) == 24 && l[3] == Section(GEOMETRY_FORMAT, 1)
    ensures Offset(l, 4) == 30 && l[4] == LEGS_SECTION && Offset(l, 5) == 78 && l[5] == SERVOS_SECTION
    ensures Offset(l, 6) == 258 && l[6] == Section(GAIT_FORMAT, 1) && Offset(l, 7) == 267
  {
    SectionSizes();
    FirstOffsets(l);
    assert forall i :: 0 <= i < 7 ==> l[i] == l[..7][i] == HEAD[i];
    OffsetSnoc(l, 4);
    OffsetSnoc(l, 5);
    OffsetSnoc(l, 6);
  }

  /** Where the foot sensors start. */
  function FeetFrom(v: Version): nat {
    if v == V3 then 267 else if v == V4 then 387 else 415
  }

  /** And the others, as far as the schema has them. */
  lemma TailOffsets(v: Version)
    ensures var l := LayoutOf(v);
            var n := |l|;
            n >= 9 && l[..7] == HEAD
            && (v != V3 ==> n >= 10 && l[7] == RC_SECTION && Offset(l, 7) == 267)
            && (v != V3 && v != V4 ==> n == 11 && l[8] == BODY_SECTION && Offset(l, 8) == 387)
            && l[n - 2] == FEET_SECTION && Offset(l, n - 2) == FeetFrom(v)
            && l[n - 1] == Section([U32], 1) && Offset(l, n - 1) == FeetFrom(v) + 66
  {
    var l := LayoutOf(v);
    assert l[..7] == HEAD;
    HeadOffsets(l);
    SectionSizes();
    assert forall i :: 0 <= i < |Middle(v)| ==> l[7 + i] == Middle(v)[i];
    OffsetSnoc(l, 7);
    if v != V3 {
      OffsetSnoc(l, 8);
    }
    if v != V3 && v != V4 {
      OffsetSnoc(l, 9);
    }
  }

  /** Section `i` of a payload is the rows at its offset. */
  lemma SectionRows(v: Version, payload: bytes, i: nat, s: Section, from: nat)
    requires |payload| == PayloadSize(v) && i < |LayoutOf(v)| && LayoutOf(v)[i] == s && Offset(LayoutOf(v), i) == from
    ensures from + Bytes(s) <= |payload| && TableOf(v, payload)[i] == RowsAt(s, payload, from)
  {
    LayoutSizes(v);
    SectionAt(LayoutOf(v), i, payload);
  }

  lemma SingleFields(v: Version, payload: bytes)
    requires |payload| == PayloadSize(v)
    ensures var t := TableOf(v, payload);
            RowLinks(t[2][0]) == LinksAt(payload, 18) && RowGeometry(t[3][0]) == GeometryAt(payload, 24)
            && RowGait(t[6][0]) == GaitAt(payload, 258)
  {
    TailOffsets(v);
    HeadOffsets(LayoutOf(v));
    SectionRows(v, payload, 2, Section(LINKS_FORMAT, 1), 18);
    SectionRows(v, payload, 3, Section(GEOMETRY_FORMAT, 1), 24);
    SectionRows(v, payload, 6, Section(GAIT_FORMAT, 1), 258);
    LinksRowAt(payload, 18);
    GeometryRowAt(payload, 24);
    GaitRowAt(payload, 258);
  }

  lemma BodyField(v: Version, payload: bytes)
    requires |payload| == PayloadSize(v) && v != V3 && v != V4
    ensures RowBody(TableOf(v, payload)[8][0]) == BodyAt(payload, 387)
  {
    TailOffsets(v);
    SectionRows(v, payload, 8, BODY_SECTION, 387);
    BodyRowAt(payload, 387);
  }

  lemma FeaturesField(v: Version, payload: bytes)
    requires |payload| == PayloadSize(v)
    ensures var t := TableOf(v, payload); t[|t| - 1][0][0] == U32At(payload, FeetFrom(v) + 66)
  {
    TailOffsets(v);
    SectionSizes();
    SectionRows(v, payload, |LayoutOf(v)| - 1, Section([U32], 1), FeetFrom(v) + 66);
    FlagsAt(payload, FeetFrom(v) + 66);
  }

  lemma FlagsAt(b: bytes, from: nat)
    requires from + 4 <= |b|
    ensures var s := Section([U32], 1);
            Bytes(s) == 4 && RowsAt(s, b, from) != [] && RowsAt(s, b, from)[0] == [U32At(b, from)]
  {
    SectionSizes();
    var s := Section([U32], 1);
    RowOf(s, b, from, 0, 0);
    RowField([U32], b, from, RowsAt(s, b, from)[0], 0, 0);
  }

  lemma LegsAt(b: bytes, from: nat)
    requires from + 48 <= |b|
    ensures Bytes(LEGS_SECTION) == 48 && Wide(RowsAt(LEGS_SECTION, b, from), 4)
    ensures Legs(RowsAt(LEGS_SECTION, b, from)) == seq(6, i requires 0 <= i < 6 => LegAt(b, from + 8 * i))
  {
    SectionSizes();
    var rows := RowsAt(LEGS_SECTION, b, from);
    forall i | 0 <= i < 6 ensures |rows| == 6 && |rows[i]| == 4 && RowLeg(rows[i]) == LegAt(b, from + 8 * i) {
      LegRowAt(b, from, i);
    }
  }

  lemma ServosAt(b: bytes, from: nat)
    requires from + 180 <= |b|
    ensures Bytes(SERVOS_SECTION) == 180 && Wide(RowsAt(SERVOS_SECTION, b, from), 7)
    ensures Servos(RowsAt(SERVOS_SECTION, b, from)) == seq(18, i requires 0 <= i < 18 => ServoAt(b, from + 10 * i))
  {
    SectionSizes();
    var rows := RowsAt(SERVOS_SECTION, b, from);
    forall i | 0 <= i < 18 ensures |rows| == 18 && |rows[i]| == 7 && RowServo(rows[i]) == ServoAt(b, from + 10 * i) {
      ServoRowAt(b, from, i);
    }
  }

  lemma ChannelsAt(b: bytes, from: nat)
    requires from + 120 <= |b|
    ensures Bytes(RC_SECTION) == 120 && Wide(RowsAt(RC_SECTION, b, from), 10)
    ensures Channels(RowsAt(RC_SECTION, b, from)) == seq(8, i requires 0 <= i < 8 => ChannelAt(b, from + 15 * i))
  {
    SectionSizes();
    var rows := RowsAt(RC_SECTION, b, from);
    forall i | 0 <= i < 8 ensures |rows| == 8 && |rows[i]| == 10 && RowRc(rows[i]) == ChannelAt(b, from + 15 * i) {
      ChannelRowAt(b, from, i);
    }
  }

  lemma FeetAt(b: bytes, from: nat)
    requires from + 66 <= |b|
    ensures Bytes(FEET_SECTION) == 66 && Wide(RowsAt(FEET_SECTION, b, from), 5)
    ensures Feet(RowsAt(FEET_SECTION, b, from)) == seq(6, i requires 0 <= i < 6 => FootAt(b, from + 11 * i))
  {
    SectionSizes();
    var rows := RowsAt(FEET_SECTION, b, from);
    forall i | 0 <= i < 6 ensures |rows| == 6 && |rows[i]| == 5 && RowFoot(rows[i]) == FootAt(b, from + 11 * i) {
      FootRowAt(b, from, i);
    }
  }

  lemma LegFields(v: Version, payload: bytes)
    requires |payload| == PayloadSize(v)
    ensures Legs(TableOf(v, payload)[4]) == seq(6, i requires 0 <= i < 6 => LegAt(payload, 30 + 8 * i))
  {
    TailOffsets(v);
    HeadOffsets(LayoutOf(v));
    SectionRows(v, payload, 4, LEGS_SECTION, 30);
    LegsAt(payload, 30);
  }

  lemma ServoFields(v: Version, payload: bytes)
    requires |payload| == PayloadSize(v)
    ensures Servos(TableOf(v, payload)[5]) == seq(18, i requires 0 <= i < 18 => ServoAt(payload, 78 + 10 * i))
  {
    TailOffsets(v);
    HeadOffsets(LayoutOf(v));
    SectionRows(v, payload, 5, SERVOS_SECTION, 78);
    ServosAt(payload, 78);
  }

  lemma ChannelFields(v: Version, payload: bytes)
    requires |payload| == PayloadSize(v) && v != V3
    ensures Channels(TableOf(v, payload)[7]) == seq(8, i requires 0 <= i < 8 => ChannelAt(payload, 267 + 15 * i))
  {
    TailOffsets(v);
    SectionRows(v, payload, 7, RC_SECTION, 267);
    ChannelsAt(payload, 267);
  }

  lemma FootFields(v: Version, payload: bytes)
    requires |payload| == PayloadSize(v)
    ensures var t := TableOf(v, payload);
            Feet(t[|t| - 2]) == seq(6, i requires 0 <= i < 6 => FootAt(payload, FeetFrom(v) + 11 * i))
  {
    TailOffsets(v);
    SectionRows(v, payload, |LayoutOf(v)| - 2, FEET_SECTION, FeetFrom(v));
    FeetAt(payload, FeetFrom(v));
  }

  // ---------- What decoding returns ----------

  lemma SchemaBytes(payload: bytes)
    requires |payload| >= 2
    ensures Schema(payload) == U16At(payload, 0)
  {
    UnpackedAt(U16, payload, 0);
    assert payload[..2] == payload[0..0 + 2];
  }

  /** A payload is read exactly when it has the length of the schema in its first two bytes. */
  lemma DecodesIff(payload: bytes)
    ensures Decode(payload).Config? <==>
              |payload| >= 2
              && var schema := U16At(payload, 0);
                 (schema == 3 && |payload| == 337) || (schema == 4 && |payload| == 457)
                 || (5 <= schema <= 9 && |payload| == 485)
  {
    if |payload| >= 2 {
      SchemaBytes(payload);
    }
  }

  /** What no schema before the current one keeps: links, geometry, legs and gait. */
  lemma KinematicsByPosition(payload: bytes)
    requires Decode(payload).Config?
    ensures |payload| >= 337
    ensures var c := Decode(payload).config;
            if U16At(payload, 0) == 9 then
              c.links == LinksAt(payload, 18) && c.geometry == GeometryAt(payload, 24) && c.gait == GaitAt(payload, 258)
              && c.legs == seq(6, i requires 0 <= i < 6 => LegAt(payload, 30 + 8 * i))
            else
              c.links == LinkLengths(5200, 6651, 11716) && c.geometry == BodyGeometry(12675, -13173, 0)
              && c.gait == GaitDefaults(132, 60, 30, 159, 128, 0)
              && c.legs == [LegGeometry(-656, -1156, 0, 13500), LegGeometry(656, -1156, 0, -13500),
                            LegGeometry(698, 0, 0, -9000), LegGeometry(656, 1156, 0, -4500),
                            LegGeometry(-656, 1156, 0, 4500), LegGeometry(-698, 0, 0, 9000)]
  {
    SchemaBytes(payload);
    var v := Detect(Schema(payload), |payload|).version;
    if v == V9 {
      SingleFields(v, payload);
      LegFields(v, payload);
    }
  }

  lemma BuiltInServos()
    ensures ProfileServos() == seq(18, i => ServoConfig(i + 1, i / 3, i % 3, 1, 0, 1024, 3072))
  {
  }

  /** Servo records are the payload's except in schemas 6 and 7, which take the built-in ones. */
  lemma ServosByPosition(payload: bytes)
    requires Decode(payload).Config?
    ensures |payload| >= 337
    ensures Decode(payload).config.servos
         == if U16At(payload, 0) == 6 || U16At(payload, 0) == 7
            then seq(18, i => ServoConfig(i + 1, i / 3, i % 3, 1, 0, 1024, 3072))
            else seq(18, i requires 0 <= i < 18 => ServoAt(payload, 78 + 10 * i))
  {
    SchemaBytes(payload);
    var v := Detect(Schema(payload), |payload|).version;
    if v == V6 || v == V7 {
      BuiltInServos();
    } else {
      ServoFields(v, payload);
    }
  }

  /** Input channels are the payload's except in schema 3. */
  lemma ChannelsByPosition(payload: bytes)
    requires Decode(payload).Config?
    ensures |payload| >= 337 && (U16At(payload, 0) != 3 ==> |payload| >= 457)
    ensures Decode(payload).config.channels
         == if U16At(payload, 0) == 3 then DefaultChannels()
            else seq(8, i requires 0 <= i < 8 => ChannelAt(payload, 267 + 15 * i))
  {
    SchemaBytes(payload);
    var v := Detect(Schema(payload), |payload|).version;
    if v != V3 {
      ChannelFields(v, payload);
    }
  }

  /** Body-command limits are the payload's except in schemas 3 and 4. */
  lemma BodyByPosition(payload: bytes)
    requires Decode(payload).Config?
    ensures |payload| >= 337 && (U16At(payload, 0) >= 5 ==> |payload| == 485)
    ensures Decode(payload).config.bodyCommand
         == if U16At(payload, 0) <= 4
            then BodyLimits(1000, 1000, 1000, 1000, 1200, 1800, 1000, 1500, 1500, 2000, 20, 30, 60, 500)
            else BodyAt(payload, 387)
  {
    SchemaBytes(payload);
    var v := Detect(Schema(payload), |payload|).version;
    if v != V3 && v != V4 {
      BodyField(v, payload);
    }
  }

  /** The name is the payload's in every schema, and the version becomes the current one. */
  lemma NameByPosition(payload: bytes)
    requires Decode(payload).Config?
    ensures |payload| >= 337
    ensures var c := Decode(payload).config;
            c.schemaVersion == 9 && c.robotName == TrimName(NameBytes(payload))
  {
    DecodedCounts(payload);
  }

  /** So are the foot sensors and the feature flags. */
  lemma FeetByPosition(payload: bytes)
    requires Decode(payload).Config?
    ensures |payload| >= 337
    ensures var schema, c := U16At(payload, 0), Decode(payload).config;
            var feet := if schema == 3 then 267 else if schema == 4 then 387 else 415;
            |payload| == feet + 70
            && c.feet == seq(6, i requires 0 <= i < 6 => FootAt(payload, feet + 11 * i))
            && c.features == U32At(payload, feet + 66)
  {
    SchemaBytes(payload);
    var v := Detect(Schema(payload), |payload|).version;
    FootFields(v, payload);
    FeaturesField(v, payload);
  }
}
