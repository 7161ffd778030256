/**
  The OpenLog configuration journal: hexadecimal text holding checksummed records, edited by
  appending, activating and deleting. The laws hold for every sixteen-bit checksum and every
  payload decoder; the procedures use CRC-16 and the configuration codec.
  */
module Journal {
  import opened Struct
  import opened RobotConfigs
  import opened ConfigCodec
  import opened JournalScan
  import Crc16
  import O = Offsets

  const CONFIG_MAGIC := 0x48455843
  const CONFIG_VERSION := 1
  const COMMIT_MAGIC := 0x54494D43
  const HEADER_SIZE := 16
  const TRAILER_SIZE := 8
  const SHORTEST := 24
  const MAX_PAYLOAD_SIZE := 2032

  // ---------- Hexadecimal text ----------

  function Nibble(c: byte): (n: int)
    ensures 0 <= n < 16
  {
    var v := c as int;
    if 48 <= v <= 57 then v - 48 else if 65 <= v <= 70 then v - 65 + 10 else 0
  }

  function Digit(n: int): byte
    requires 0 <= n < 16
  {
    if n < 10 then (48 + n) as byte else (55 + n) as byte
  }

  function HexOf(b: byte): (t: bytes)
    ensures |t| == 2
  {
    [Digit(b as int / 16), Digit(b as int % 16)]
  }

  function Hex(b: bytes): (t: bytes)
    ensures |t| == 2 * |b|
  {
    if b == [] then [] else HexOf(b[0]) + Hex(b[1..])
  }

  /** Two characters a byte; what is not an upper-case digit counts as zero. */
  function Unhex(t: bytes): (b: bytes)
    requires |t| % 2 == 0
    ensures |t| == 2 * |b|
  {
    if t == [] then [] else [(16 * Nibble(t[0]) + Nibble(t[1])) as byte] + Unhex(t[2..])
  }

  lemma {:induction false} UnhexOfHex(b: bytes)
    ensures Unhex(Hex(b)) == b
  {
    if b != [] {
      UnhexOfHex(b[1..]);
      assert Hex(b)[2..] == Hex(b[1..]);
    }
  }

  /** The sixteen digits, in order. */
  const DIGITS: bytes := [48, 49, 50, 51, 52, 53, 54, 55, 56, 57] + [65, 66, 67, 68, 69, 70]

  /** A digit stands for its place among the sixteen, and anything else for zero. */
  lemma NibbleIs(c: byte)
    ensures c !in DIGITS ==> Nibble(c) == 0
    ensures forall n :: 0 <= n < 16 && DIGITS[n] == c ==> Nibble(c) == n && Digit(n) == c
  {
    assert c in DIGITS <==> 48 <= c <= 57 || 65 <= c <= 70 by {
      if 48 <= c <= 57 {
        assert DIGITS[c as int - 48] == c;
      } else if 65 <= c <= 70 {
        assert DIGITS[c as int - 55] == c;
      }
    }
  }

  lemma DropTwo(s: bytes, t: bytes)
    requires |s| >= 2
    ensures (s + t)[2..] == s[2..] + t && (s + t)[0] == s[0] && (s + t)[1] == s[1]
  {
  }

  lemma {:induction false} UnhexConcat(s: bytes, t: bytes)
    requires |s| % 2 == 0 && |t| % 2 == 0
    ensures Unhex(s + t) == Unhex(s) + Unhex(t)
  {
    if s == [] {
      assert s + t == t;
    } else {
      UnhexConcat(s[2..], t);
      DropTwo(s, t);
    }
  }

  /** Cutting the text between bytes cuts the bytes. */
  lemma {:induction false} UnhexCut(t: bytes, k: nat)
    requires |t| % 2 == 0 && 2 * k <= |t|
    ensures Unhex(t[..2 * k]) == Unhex(t)[..k] && Unhex(t[2 * k..]) == Unhex(t)[k..]
  {
    var a, b := t[..2 * k], t[2 * k..];
    assert t == a + b;
    UnhexConcat(a, b);
  }

  // ---------- One record ----------

  /** The checksum, the payload decoder, and the encoder, which refuses what is not valid. */
  datatype Kit = Kit(checksum: bytes -> int, decode: bytes -> Decoded, encode: RobotConfig -> Encoded)

  /** The checksum has sixteen bits. */
  ghost predicate Sixteen(kit: Kit) {
    forall b :: 0 <= kit.checksum(b) < 0x1_0000
  }

  function Field(b: bytes, from: nat, width: nat): nat
    requires from + width <= |b|
  {
    LeValue(b[from..from + width])
  }

  predicate GoodHeader(kit: Kit, b: bytes)
    requires |b| >= HEADER_SIZE
  {
    Field(b, 0, 4) == CONFIG_MAGIC && Field(b, 4, 2) == CONFIG_VERSION && Field(b, 10, 2) <= MAX_PAYLOAD_SIZE
    && kit.checksum(b[..14]) == Field(b, 14, 2)
  }

  predicate GoodBody(kit: Kit, b: bytes, n: nat)
    requires |b| >= SHORTEST + n
  {
    kit.checksum(b[16..16 + n]) == Field(b, 12, 2)
    && Field(b, 16 + n, 4) == COMMIT_MAGIC && Field(b, 20 + n, 4) == Field(b, 6, 4)
  }

  /** `_parse_record` on what lies from the offset on. */
  function RecordAt(kit: Kit, b: bytes): Recognized {
    if |b| < SHORTEST || !GoodHeader(kit, b) then Nothing
    else
      var n := Field(b, 10, 2);
      if SHORTEST + n > |b| || !GoodBody(kit, b, n) then Nothing
      else
        match kit.decode(b[16..16 + n])
        case Config(c) => Found(SHORTEST + n, Record(Field(b, 6, 4), b[16..16 + n], c))
        case WrongLength => Nothing
        case WrongVersion => Nothing
  }

  lemma FieldBytes(b: bytes, from: nat)
    ensures from + 2 <= |b| ==> Field(b, from, 2) == O.U16At(b, from)
    ensures from + 4 <= |b| ==> Field(b, from, 4) == O.U32At(b, from)
  {
    if from + 2 <= |b| {
      O.LeTwo(b[from..from + 2]);
    }
    if from + 4 <= |b| {
      O.LeFour(b[from..from + 4]);
    }
  }

  /** The bytes hold a complete record with a payload of `n` bytes: both magic numbers, version 1,
      the same sequence number in front and behind, and both checksums. */
  predicate HoldsRecord(checksum: bytes -> int, b: bytes, n: nat) {
    n <= 2032 && |b| >= 24 + n && O.U32At(b, 0) == 0x48455843 && O.U16At(b, 4) == 1 && O.U16At(b, 10) == n
    && O.U16At(b, 12) == checksum(b[16..16 + n]) && O.U16At(b, 14) == checksum(b[..14])
    && O.U32At(b, 16 + n) == 0x54494D43 && O.U32At(b, 20 + n) == O.U32At(b, 6)
  }

  lemma RecordFields(b: bytes, n: nat)
    requires |b| >= 24 + n
    ensures Field(b, 0, 4) == O.U32At(b, 0) && Field(b, 4, 2) == O.U16At(b, 4) && Field(b, 6, 4) == O.U32At(b, 6)
    ensures Field(b, 10, 2) == O.U16At(b, 10) && Field(b, 12, 2) == O.U16At(b, 12) && Field(b, 14, 2) == O.U16At(b, 14)
    ensures Field(b, 16 + n, 4) == O.U32At(b, 16 + n) && Field(b, 20 + n, 4) == O.U32At(b, 20 + n)
  {
    FieldBytes(b, 0);
    FieldBytes(b, 4);
    FieldBytes(b, 6);
    FieldBytes(b, 10);
    FieldBytes(b, 12);
    FieldBytes(b, 14);
    FieldBytes(b, 16 + n);
    FieldBytes(b, 20 + n);
  }

  lemma HoldsIff(kit: Kit, b: bytes, n: nat)
    requires |b| >= 24 + n
    ensures HoldsRecord(kit.checksum, b, n) <==> GoodHeader(kit, b) && Field(b, 10, 2) == n && GoodBody(kit, b, n)
  {
    RecordFields(b, n);
  }

  /** A record is recognized exactly when it is held complete and its payload decodes; then it
      has the number in bytes 6 to 9. */
  lemma RecognizedIff(kit: Kit, b: bytes, n: nat)
    ensures (RecordAt(kit, b).Found? && RecordAt(kit, b).span == 24 + n)
            <==> HoldsRecord(kit.checksum, b, n) && kit.decode(b[16..16 + n]).Config?
    ensures HoldsRecord(kit.checksum, b, n) && kit.decode(b[16..16 + n]).Config? ==>
              RecordAt(kit, b) == Found(24 + n, Record(O.U32At(b, 6), b[16..16 + n], kit.decode(b[16..16 + n]).config))
  {
    if |b| >= 24 + n {
      HoldsIff(kit, b, n);
      FieldBytes(b, 6);
    }
  }

  lemma {:induction false} SameField(b: bytes, c: bytes, span: nat, from: nat, width: nat)
    requires span <= |b| && span <= |c| && b[..span] == c[..span] && from + width <= span
    ensures b[from..from + width] == c[from..from + width] && Field(b, from, width) == Field(c, from, width)
  {
    assert b[from..from + width] == b[..span][from..from + width];
    assert c[from..from + width] == c[..span][from..from + width];
  }

  lemma SameHeader(kit: Kit, b: bytes, c: bytes, span: nat)
    requires HEADER_SIZE <= span <= |b| && span <= |c| && b[..span] == c[..span]
    ensures GoodHeader(kit, b) <==> GoodHeader(kit, c)
    ensures Field(b, 10, 2) == Field(c, 10, 2) && Field(b, 6, 4) == Field(c, 6, 4)
  {
    SameField(b, c, span, 0, 4);
    SameField(b, c, span, 4, 2);
    SameField(b, c, span, 6, 4);
    SameField(b, c, span, 10, 2);
    SameField(b, c, span, 14, 2);
    SameField(b, c, span, 0, 14);
    assert b[..14] == b[0..14] && c[..14] == c[0..14];
  }

  lemma SameBody(kit: Kit, b: bytes, c: bytes, n: nat)
    requires SHORTEST + n <= |b| && SHORTEST + n <= |c| && b[..SHORTEST + n] == c[..SHORTEST + n]
    ensures GoodBody(kit, b, n) <==> GoodBody(kit, c, n)
    ensures b[16..16 + n] == c[16..16 + n]
  {
    var span := SHORTEST + n;
    SameField(b, c, span, 12, 2);
    SameField(b, c, span, 6, 4);
    SameField(b, c, span, 16, n);
    SameField(b, c, span, 16 + n, 4);
    SameField(b, c, span, 20 + n, 4);
  }

  lemma OnlyOwnBytes(kit: Kit, b: bytes, c: bytes)
    requires RecordAt(kit, b).Found?
    requires var span := RecordAt(kit, b).span; span <= |b| && span <= |c| && c[..span] == b[..span]
    ensures RecordAt(kit, c) == RecordAt(kit, b)
  {
    SameHeader(kit, b, c, RecordAt(kit, b).span);
    SameBody(kit, b, c, Field(b, 10, 2));
  }

  function Recognize(kit: Kit): Recognizer {
    b => RecordAt(kit, b)
  }

  /** Whether a record is there is decided by its own bytes. */
  lemma RecognizeIsLocal(kit: Kit)
    ensures Local(Recognize(kit))
  {
    var rec := Recognize(kit);
    forall b: bytes, c: bytes | rec(b).Found? && rec(b).span <= |b| && rec(b).span <= |c|
                                && c[..rec(b).span] == b[..rec(b).span]
      ensures rec(c) == rec(b)
    {
      OnlyOwnBytes(kit, b, c);
    }
  }

  // ---------- Writing one record ----------

  function Head(sequence: nat, length: nat, crc: nat): (h: bytes)
    ensures |h| == 14
  {
    LeBytes(CONFIG_MAGIC, 4) + LeBytes(CONFIG_VERSION, 2) + LeBytes(sequence, 4) + LeBytes(length, 2) + LeBytes(crc, 2)
  }

  function Trailer(sequence: nat): (t: bytes)
    ensures |t| == TRAILER_SIZE
  {
    LeBytes(COMMIT_MAGIC, 4) + LeBytes(sequence, 4)
  }

  function RecordBytes(kit: Kit, payload: bytes, sequence: nat): (b: bytes)
    requires Sixteen(kit)
    ensures |b| == SHORTEST + |payload|
  {
    var head := Head(sequence, |payload|, kit.checksum(payload));
    head + LeBytes(kit.checksum(head), 2) + payload + Trailer(sequence)
  }

  /** A field written at the end reads back, and earlier ones stay. */
  lemma {:induction false} FieldWritten(b: bytes, v: nat, width: nat)
    requires v < Pow256(width)
    ensures Field(b + LeBytes(v, width), |b|, width) == v
  {
    assert (b + LeBytes(v, width))[|b|..|b| + width] == LeBytes(v, width);
    LeValueOfBytes(v, width);
  }

  lemma {:induction false} FieldKept(b: bytes, more: bytes, from: nat, width: nat)
    requires from + width <= |b|
    ensures Field(b + more, from, width) == Field(b, from, width)
  {
    assert (b + more)[..|b|] == b[..|b|];
    SameField(b + more, b, |b|, from, width);
  }

  lemma Powers()
    ensures Pow256(2) == 0x1_0000 && Pow256(4) == 0x1_0000_0000
  {
    assert Pow256(1) == 0x100;
    assert Pow256(4) == 256 * Pow256(3) == 256 * (256 * Pow256(2));
  }

  lemma HeadFields(sequence: nat, length: nat, crc: nat)
    requires sequence < 0x1_0000_0000 && length < 0x1_0000 && crc < 0x1_0000
    ensures var h := Head(sequence, length, crc);
            Field(h, 0, 4) == CONFIG_MAGIC && Field(h, 4, 2) == CONFIG_VERSION && Field(h, 6, 4) == sequence
            && Field(h, 10, 2) == length && Field(h, 12, 2) == crc
  {
    Powers();
    var a := LeBytes(CONFIG_MAGIC, 4);
    var b := a + LeBytes(CONFIG_VERSION, 2);
    var c := b + LeBytes(sequence, 4);
    var d := c + LeBytes(length, 2);
    assert [] + a == a;
    FieldWritten([], CONFIG_MAGIC, 4);
    FieldWritten(a, CONFIG_VERSION, 2);
    FieldWritten(b, sequence, 4);
    FieldWritten(c, length, 2);
    FieldWritten(d, crc, 2);
    FieldKept(a, LeBytes(CONFIG_VERSION, 2), 0, 4);
    FieldKept(b, LeBytes(sequence, 4), 0, 4);
    FieldKept(b, LeBytes(sequence, 4), 4, 2);
    FieldKept(c, LeBytes(length, 2), 0, 4);
    FieldKept(c, LeBytes(length, 2), 4, 2);
    FieldKept(c, LeBytes(length, 2), 6, 4);
    FieldKept(d, LeBytes(crc, 2), 0, 4);
    FieldKept(d, LeBytes(crc, 2), 4, 2);
    FieldKept(d, LeBytes(crc, 2), 6, 4);
    FieldKept(d, LeBytes(crc, 2), 10, 2);
  }

  lemma TrailerFields(b: bytes, sequence: nat)
    requires sequence < 0x1_0000_0000
    ensures Field(b + Trailer(sequence), |b|, 4) == COMMIT_MAGIC
    ensures Field(b + Trailer(sequence), |b| + 4, 4) == sequence
  {
    Powers();
    var c := b + LeBytes(COMMIT_MAGIC, 4);
    FieldWritten(b, COMMIT_MAGIC, 4);
    FieldWritten(c, sequence, 4);
    FieldKept(c, LeBytes(sequence, 4), |b|, 4);
    assert b + Trailer(sequence) == c + LeBytes(sequence, 4);
  }

  /** A header followed by anything. */
  lemma HeaderReads(head: bytes, crc: nat, rest: bytes)
    requires |head| == 14 && crc < 0x1_0000
    ensures var b := head + LeBytes(crc, 2) + rest;
            b[..14] == head && Field(b, 14, 2) == crc && Field(b, 0, 4) == Field(head, 0, 4)
            && Field(b, 4, 2) == Field(head, 4, 2) && Field(b, 6, 4) == Field(head, 6, 4)
            && Field(b, 10, 2) == Field(head, 10, 2) && Field(b, 12, 2) == Field(head, 12, 2)
  {
    Powers();
    var b := head + LeBytes(crc, 2) + rest;
    FieldWritten(head, crc, 2);
    FieldKept(head + LeBytes(crc, 2), rest, 14, 2);
    assert b[..14] == head[..14];
    SameField(b, head, 14, 0, 4);
    SameField(b, head, 14, 4, 2);
    SameField(b, head, 14, 6, 4);
    SameField(b, head, 14, 10, 2);
    SameField(b, head, 14, 12, 2);
  }

  lemma Regrouped(head: bytes, crc: bytes, payload: bytes, trailer: bytes)
    ensures head + crc + payload + trailer == head + crc + (payload + trailer)
    ensures |head + crc| == 16 ==> (head + crc + payload + trailer)[16..16 + |payload|] == payload
  {
  }

  /** A record that is written is recognized as exactly itself. */
  lemma WrittenRecord(kit: Kit, payload: bytes, sequence: nat, c: RobotConfig)
    requires Sixteen(kit) && |payload| <= MAX_PAYLOAD_SIZE && sequence < 0x1_0000_0000
    requires kit.decode(payload) == Config(c)
    ensures var b := RecordBytes(kit, payload, sequence);
            RecordAt(kit, b) == Found(|b|, Record(sequence, payload, c))
  {
    var head := Head(sequence, |payload|, kit.checksum(payload));
    var crc := kit.checksum(head);
    HeadFields(sequence, |payload|, kit.checksum(payload));
    Regrouped(head, LeBytes(crc, 2), payload, Trailer(sequence));
    HeaderReads(head, crc, payload + Trailer(sequence));
    TrailerFields(head + LeBytes(crc, 2) + payload, sequence);
  }

  // ---------- The journal ----------

  datatype Journal = Journal(rawText: bytes, decoded: bytes, entries: Entries)

  datatype Parsed = Loaded(journal: Journal) | OddLength | NoRecord

  ghost function Parse(rec: Recognizer, rawText: bytes): Parsed
    requires Local(rec)
  {
    if |rawText| % 2 != 0 then OddLength
    else
      var decoded := Unhex(rawText);
      var es := Scan(rec, decoded, 0);
      if es.End? then NoRecord else Loaded(Journal(rawText, decoded, es))
  }

  /** The largest sequence number. */
  function Newest(es: Entries): int
    requires es.Entry?
  {
    if es.rest.End? then es.record.sequence
    else
      var later := Newest(es.rest);
      if later > es.record.sequence then later else es.record.sequence
  }

  predicate AllBelow(es: Entries, n: int) {
    es.End? || (es.record.sequence < n && AllBelow(es.rest, n))
  }

  lemma {:induction false} NewestIsMaximum(es: Entries)
    requires es.Entry?
    ensures AllBelow(es, Newest(es) + 1)
  {
    if es.rest.Entry? {
      NewestIsMaximum(es.rest);
      BelowMore(es.rest, Newest(es.rest) + 1, Newest(es) + 1);
    }
  }

  lemma {:induction false} BelowMore(es: Entries, n: int, m: int)
    requires AllBelow(es, n) && n <= m
    ensures AllBelow(es, m)
  {
    if es.Entry? {
      BelowMore(es.rest, n, m);
    }
  }

  lemma {:induction false} NewestOfJoin(es: Entries, last: Entries)
    requires last.Entry? && last.rest.End? && AllBelow(es, last.record.sequence)
    ensures Join(es, last).Entry? && Newest(Join(es, last)) == last.record.sequence
  {
    if es.Entry? {
      NewestOfJoin(es.rest, last);
    }
  }

  // ---------- Editing the text ----------

  lemma {:induction false} AppendedBytes(raw: bytes, record: bytes)
    requires |raw| % 2 == 0
    ensures |raw + Hex(record)| % 2 == 0 && Unhex(raw + Hex(record)) == Unhex(raw) + record
  {
    UnhexConcat(raw, Hex(record));
    UnhexOfHex(record);
  }

  function WithNew(j: Journal, record: bytes, r: Record): (es: Entries)
    ensures es.Entry?
  {
    Join(j.entries, Entry(|j.decoded|, |record|, r, End))
  }

  lemma {:induction false} AppendedParse(rec: Recognizer, raw: bytes, j: Journal, record: bytes, r: Record)
    requires Local(rec) && Parse(rec, raw) == Loaded(j) && rec(record) == Found(|record|, r)
    ensures Parse(rec, raw + Hex(record))
         == Loaded(Journal(raw + Hex(record), j.decoded + record, WithNew(j, record, r)))
         <==> NoStraddle(rec, j.decoded, record)
  {
    AppendedBytes(raw, record);
    AppendedScan(rec, j.decoded, record, r);
  }

  /** The record an append adds is the newest, and no other has its number. */
  lemma {:induction false} AppendedIsNewest(j: Journal, record: bytes, r: Record)
    requires j.entries.Entry? && r.sequence == Newest(j.entries) + 1
    ensures AllBelow(j.entries, r.sequence) && Newest(WithNew(j, record, r)) == r.sequence
  {
    NewestIsMaximum(j.entries);
    NewestOfJoin(j.entries, Entry(|j.decoded|, |record|, r, End));
  }

  /** What is left of an append that was cut off after `k` whole bytes. */
  function CutAppend(raw: bytes, record: bytes, k: nat): bytes
    requires k <= |record|
  {
    (raw + Hex(record))[..|raw| + 2 * k]
  }

  lemma {:induction false} CutBytes(raw: bytes, record: bytes, k: nat)
    requires |raw| % 2 == 0 && k <= |record|
    ensures |CutAppend(raw, record, k)| % 2 == 0 && Unhex(CutAppend(raw, record, k)) == Unhex(raw) + record[..k]
  {
    var n := |raw| / 2 + k;
    AppendedBytes(raw, record);
    assert |raw| + 2 * k == 2 * n;
    UnhexCut(raw + Hex(record), n);
    assert (Unhex(raw) + record)[..n] == Unhex(raw) + record[..k];
  }

  /** An append cut off at any whole byte still parses, and every old record is where it was. */
  lemma {:induction false} TruncatedAppend(rec: Recognizer, raw: bytes, j: Journal, record: bytes, k: nat)
    requires Local(rec) && Parse(rec, raw) == Loaded(j) && NoStraddle(rec, j.decoded, record) && k <= |record|
    ensures Parse(rec, CutAppend(raw, record, k))
         == Loaded(Journal(CutAppend(raw, record, k), j.decoded + record[..k],
                           Join(j.entries, Scan(rec, record[..k], |j.decoded|))))
  {
    CutBytes(raw, record, k);
    TruncatedScan(rec, j.decoded, record, k);
  }

  /** The text without the bytes of one entry. */
  function Removed(raw: bytes, k: nat, span: nat): bytes
    requires 2 * (k + span) <= |raw|
  {
    raw[..2 * k] + raw[2 * (k + span)..]
  }

  lemma EvenParts(n: nat, k: nat, m: nat)
    requires n % 2 == 0 && 2 * m <= n
    ensures (2 * k) % 2 == 0 && (n - 2 * m) % 2 == 0 && (2 * k + (n - 2 * m)) % 2 == 0
  {
  }

  lemma {:induction false} RemovedBytes(raw: bytes, k: nat, span: nat)
    requires |raw| % 2 == 0 && 2 * (k + span) <= |raw|
    ensures |Removed(raw, k, span)| % 2 == 0
    ensures Unhex(Removed(raw, k, span)) == Unhex(raw)[..k] + Unhex(raw)[k + span..]
  {
    UnhexCut(raw, k);
    UnhexCut(raw, k + span);
    EvenParts(|raw|, k, k + span);
    UnhexConcat(raw[..2 * k], raw[2 * (k + span)..]);
  }

  /** The entries without entry `i`, the later ones moved down. */
  function Without(es: Entries, i: nat): Entries
    requires i < Count(es)
  {
    Join(Before(es, i), Moved(From(es, i).rest, 0 - From(es, i).span))
  }

  lemma {:induction false} SomeLeft(es: Entries, i: nat)
    requires i < Count(es) && Count(es) >= 2
    ensures Without(es, i).Entry?
  {
    if i == 0 {
      assert es.rest.Entry?;
    }
  }

  /** Deleting a record's text: parsing again gives the old list without it, exactly when no
      record straddles the junction. */
  lemma {:induction false} DeletedParse(rec: Recognizer, raw: bytes, j: Journal, i: nat, k: nat, span: nat)
    requires Local(rec) && Parse(rec, raw) == Loaded(j) && i < Count(j.entries) && Count(j.entries) >= 2
    requires From(j.entries, i).offset == k && From(j.entries, i).span == span
    ensures 2 * (k + span) <= |raw|
    ensures Parse(rec, Removed(raw, k, span))
         == Loaded(Journal(Removed(raw, k, span), j.decoded[..k] + j.decoded[k + span..], Without(j.entries, i)))
         <==> NoStraddle(rec, j.decoded[..k], j.decoded[k + span..])
  {
    RemovedText(rec, raw, j, i, k, span);
    DeletedScan(rec, j.decoded, i, k, span);
    SomeLeft(j.entries, i);
    ParseIs(rec, Removed(raw, k, span), j.decoded[..k] + j.decoded[k + span..], Without(j.entries, i));
  }

  lemma {:induction false} RemovedText(rec: Recognizer, raw: bytes, j: Journal, i: nat, k: nat, span: nat)
    requires Local(rec) && Parse(rec, raw) == Loaded(j) && i < Count(j.entries)
    requires From(j.entries, i).offset == k && From(j.entries, i).span == span
    ensures k + span <= |j.decoded| && 2 * (k + span) <= |raw| && |Removed(raw, k, span)| % 2 == 0
    ensures Unhex(Removed(raw, k, span)) == j.decoded[..k] + j.decoded[k + span..]
    ensures j.entries == Scan(rec, j.decoded, 0)
  {
    EntryFoundAt(rec, j.decoded, 0, i);
    RemovedBytes(raw, k, span);
  }

  /** Parsing gives these entries exactly when scanning the bytes does. */
  lemma {:induction false} ParseIs(rec: Recognizer, text: bytes, decoded: bytes, es: Entries)
    requires Local(rec) && |text| % 2 == 0 && Unhex(text) == decoded && es.Entry?
    ensures Parse(rec, text) == Loaded(Journal(text, decoded, es)) <==> Scan(rec, decoded, 0) == es
  {
  }

  // ---------- The operations ----------

  datatype Edited = Text(text: bytes) | Refused

  /** `append_config_record`: the next sequence number, if it fits, on a valid configuration. */
  function Append(kit: Kit, j: Journal, c: RobotConfig): Edited
    requires Sixteen(kit) && j.entries.Entry?
  {
    var next := Newest(j.entries) + 1;
    var payload := kit.encode(c);
    if !(0 <= next <= 0xFFFF_FFFF) || payload.Raises? || |payload.data| > MAX_PAYLOAD_SIZE then Refused
    else Text(j.rawText + Hex(RecordBytes(kit, payload.data, next)))
  }

  /** `activate_config_record` re-encodes the configuration of a record the journal holds. */
  function Activate(kit: Kit, j: Journal, i: nat): Edited
    requires Sixteen(kit) && j.entries.Entry?
  {
    if i >= Count(j.entries) then Refused else Append(kit, j, From(j.entries, i).record.config)
  }

  /** `delete_config_record`: never the last one, and only if the rest still parses. */
  ghost function Delete(rec: Recognizer, j: Journal, i: nat): Edited
    requires Local(rec)
  {
    if i >= Count(j.entries) || Count(j.entries) <= 1 then Refused
    else
      var e := From(j.entries, i);
      if !(0 <= e.offset < e.offset + e.span && 2 * (e.offset + e.span) <= |j.rawText|) then Refused
      else
        var text := Removed(j.rawText, e.offset, e.span);
        if Parse(rec, text).Loaded? then Text(text) else Refused
  }

  /** The record an append adds, and its bytes. */
  function NewRecord(kit: Kit, j: Journal, c: RobotConfig): Record
    requires j.entries.Entry? && kit.encode(c).Payload?
  {
    Record(Newest(j.entries) + 1, kit.encode(c).data, c)
  }

  function NewBytes(kit: Kit, j: Journal, c: RobotConfig): bytes
    requires Sixteen(kit) && j.entries.Entry? && kit.encode(c).Payload? && Newest(j.entries) >= -1
  {
    RecordBytes(kit, kit.encode(c).data, Newest(j.entries) + 1)
  }

  /** Appending a configuration to a parsed journal: the old text stays in front; parsing again
      gives the old records followed by one new record, the unique newest, with this
      configuration, exactly when no record straddles the old end. */
  lemma {:induction false} AppendThenParse(kit: Kit, rec: Recognizer, raw: bytes, j: Journal, c: RobotConfig, text: bytes)
    requires Sixteen(kit) && Local(rec) && rec == Recognize(kit) && Parse(rec, raw) == Loaded(j)
    requires Append(kit, j, c) == Text(text) && kit.decode(kit.encode(c).data) == Config(c)
    ensures raw <= text
    ensures var record, r := NewBytes(kit, j, c), NewRecord(kit, j, c);
            AllBelow(j.entries, r.sequence) && Newest(WithNew(j, record, r)) == r.sequence
            && (Parse(rec, text) == Loaded(Journal(text, j.decoded + record, WithNew(j, record, r)))
                <==> NoStraddle(rec, j.decoded, record))
  {
    var record, r := NewBytes(kit, j, c), NewRecord(kit, j, c);
    WrittenRecord(kit, kit.encode(c).data, r.sequence, c);
    AppendedParse(rec, raw, j, record, r);
    AppendedIsNewest(j, record, r);
  }

  lemma {:induction false} DeleteIsRemoval(rec: Recognizer, j: Journal, i: nat, k: nat, span: nat)
    requires Local(rec) && i < Count(j.entries) && Count(j.entries) >= 2 && 0 < span && 2 * (k + span) <= |j.rawText|
    requires From(j.entries, i).offset == k && From(j.entries, i).span == span
    ensures Delete(rec, j, i) == if Parse(rec, Removed(j.rawText, k, span)).Loaded? then Text(Removed(j.rawText, k, span))
                                 else Refused
  {
  }

  /** Deleting a record of a parsed journal that has others succeeds and leaves exactly the
      others, with their numbers and bytes, if and only if nothing straddles the junction. */
  lemma {:induction false} DeleteThenParse(rec: Recognizer, raw: bytes, j: Journal, i: nat, k: nat, span: nat)
    requires Local(rec) && Parse(rec, raw) == Loaded(j) && i < Count(j.entries) && Count(j.entries) >= 2
    requires From(j.entries, i).offset == k && From(j.entries, i).span == span
    ensures k + span <= |j.decoded|
    ensures NoStraddle(rec, j.decoded[..k], j.decoded[k + span..])
            <==> Delete(rec, j, i).Text? && Parse(rec, Delete(rec, j, i).text).journal.entries == Without(j.entries, i)
  {
    EntryFoundAt(rec, j.decoded, 0, i);
    DeletedParse(rec, raw, j, i, k, span);
    DeleteIsRemoval(rec, j, i, k, span);
    RemovedBytes(raw, k, span);
  }

  /** The only record of a journal, or one it does not have, is never deleted. */
  lemma DeleteRefuses(rec: Recognizer, j: Journal, i: nat)
    requires Local(rec) && (Count(j.entries) <= 1 || i >= Count(j.entries))
    ensures Delete(rec, j, i) == Refused
  {
  }

  // ---------- The procedures ----------

  /** What the program uses. */
  function CheckedEncode(c: RobotConfig): Encoded {
    if Valid(c) then Encode(c) else Raises
  }

  function Program(): Kit {
    Kit(Crc16.Crc16Of, Decode, CheckedEncode)
  }

  /** With the program's own parts an appended configuration reads back as itself exactly when
      its name holds no NUL. */
  lemma ProgramKit(c: RobotConfig)
    requires Program().encode(c).Payload?
    ensures Sixteen(Program()) && |Program().encode(c).data| == CONFIG_PAYLOAD_SIZE
    ensures Program().decode(Program().encode(c).data) == Config(c) <==> 0 !in c.robotName
  {
    ConfigRoundTrip(c);
  }

  /** A decoded name ends before the first NUL, so it holds none. */
  lemma {:induction false} DecodedNameHasNoNul(field: seq<int>)
    ensures 0 !in TrimName(field)
  {
    if field != [] && field[0] != 0 {
      DecodedNameHasNoNul(field[1..]);
    }
  }

  /** The configuration of a recognized record is what its payload decodes to. */
  lemma RecordIsDecoded(kit: Kit, b: bytes)
    requires RecordAt(kit, b).Found?
    ensures kit.decode(RecordAt(kit, b).record.payload) == Config(RecordAt(kit, b).record.config)
  {
  }

  /** So the name of any record of a journal holds no NUL. */
  lemma {:induction false} JournalNameHasNoNul(rec: Recognizer, raw: bytes, j: Journal, i: nat)
    requires Local(rec) && rec == Recognize(Program()) && Parse(rec, raw) == Loaded(j) && i < Count(j.entries)
    ensures 0 !in From(j.entries, i).record.config.robotName
  {
    var e := From(j.entries, i);
    EntryFoundAt(rec, j.decoded, 0, i);
    RecordIsDecoded(Program(), j.decoded[e.offset..]);
    NameOfDecoded(e.record.payload, e.record.config);
  }

  lemma NameOfDecoded(payload: bytes, c: RobotConfig)
    requires Decode(payload) == Config(c)
    ensures 0 !in c.robotName
  {
    DecodedCounts(payload);
    DecodedNameHasNoNul(NameBytes(payload));
  }

  /** The newest number is that of some record. */
  lemma {:induction false} NewestIsThere(es: Entries) returns (i: nat)
    requires es.Entry?
    ensures i < Count(es) && From(es, i).record.sequence == Newest(es)
  {
    if es.rest.End? || Newest(es.rest) <= es.record.sequence {
      i := 0;
    } else {
      i := NewestIsThere(es.rest);
      i := i + 1;
    }
  }

  lemma NewestIsNatural(rec: Recognizer, raw: bytes, j: Journal)
    requires Local(rec) && rec == Recognize(Program()) && Parse(rec, raw) == Loaded(j)
    ensures Newest(j.entries) >= 0
  {
    var i := NewestIsThere(j.entries);
    EntryFoundAt(rec, j.decoded, 0, i);
  }

  /** Appending to a parsed journal succeeds exactly when the configuration is valid and can be
      encoded and the numbers have not run out. */
  lemma AppendsIff(rec: Recognizer, raw: bytes, j: Journal, c: RobotConfig)
    requires Local(rec) && rec == Recognize(Program()) && Parse(rec, raw) == Loaded(j)
    ensures Append(Program(), j, c).Text? <==> Valid(c) && Encode(c).Payload? && Newest(j.entries) < 0xFFFF_FFFF
  {
    NewestIsNatural(rec, raw, j);
    if Valid(c) && Encode(c).Payload? {
      ProgramKit(c);
    }
  }

  /** Activating record `i` succeeds exactly when the journal has it, its configuration is valid
      with an ASCII name, and the numbers have not run out. */
  lemma {:induction false} ActivatesIff(rec: Recognizer, raw: bytes, j: Journal, i: nat)
    requires Local(rec) && rec == Recognize(Program()) && Parse(rec, raw) == Loaded(j)
    ensures Activate(Program(), j, i).Text? <==>
              i < Count(j.entries) && Valid(From(j.entries, i).record.config)
              && IsAscii(From(j.entries, i).record.config.robotName) && Newest(j.entries) < 0xFFFF_FFFF
  {
    if i < Count(j.entries) {
      var e := From(j.entries, i);
      EntryFoundAt(rec, j.decoded, 0, i);
      RecordIsDecoded(Program(), j.decoded[e.offset..]);
      DecodedCounts(e.record.payload);
      AppendsIff(rec, raw, j, e.record.config);
    }
  }

  /** Activating a record of a parsed journal: it is the configuration of that record, whatever
      it is, that the unique newest record of the edited file carries, and parsing again gives
      the old records followed by that one, exactly when no record straddles the old end. */
  lemma {:induction false} ActivateThenParse(rec: Recognizer, raw: bytes, j: Journal, i: nat, text: bytes)
    requires Local(rec) && rec == Recognize(Program())
    requires Parse(rec, raw) == Loaded(j) && Activate(Program(), j, i) == Text(text)
    ensures i < Count(j.entries) && raw <= text
    ensures var c := From(j.entries, i).record.config;
            var record, r := NewBytes(Program(), j, c), NewRecord(Program(), j, c);
            r.config == c && AllBelow(j.entries, r.sequence) && Newest(WithNew(j, record, r)) == r.sequence
            && (Parse(rec, text) == Loaded(Journal(text, j.decoded + record, WithNew(j, record, r)))
                <==> NoStraddle(rec, j.decoded, record))
  {
    var c := From(j.entries, i).record.config;
    JournalNameHasNoNul(rec, raw, j, i);
    ProgramKit(c);
    AppendThenParse(Program(), rec, raw, j, c, text);
  }

  /** `decode_openlog_hex`. */
  method DecodeHex(rawText: bytes) returns (ok: bool, data: bytes)
    ensures ok <==> |rawText| % 2 == 0
    ensures ok ==> data == Unhex(rawText)
  {
    data := [];
    if |rawText| % 2 != 0 {
      return false, data;
    }
    var i := 0;
    assert rawText[0..] == rawText;
    while i < |rawText|
      invariant 0 <= i <= |rawText| && i % 2 == 0
      invariant Unhex(rawText) == data + Unhex(rawText[i..])
    {
      assert rawText[i..][2..] == rawText[i + 2..];
      data := data + [(16 * Nibble(rawText[i]) + Nibble(rawText[i + 1])) as byte];
      i := i + 2;
    }
    return true, data;
  }

  lemma RecognizedLong(kit: Kit)
    ensures forall b :: Recognize(kit)(b).Found? ==> SHORTEST <= |b|
  {
  }

  /** `parse_openlog_config`. */
  method ParseFile(kit: Kit, rawText: bytes) returns (ok: bool, data: bytes, items: seq<Item>)
    ensures Local(Recognize(kit))
    ensures ok <==> Parse(Recognize(kit), rawText).Loaded?
    ensures ok ==> Parse(Recognize(kit), rawText) == Loaded(Journal(rawText, data, Chain(items, End)))
  {
    RecognizeIsLocal(kit);
    RecognizedLong(kit);
    items := [];
    ok, data := DecodeHex(rawText);
    if !ok {
      return;
    }
    items := ScanFile(Recognize(kit), data, SHORTEST);
    ChainEmpty(items);
    ok := items != [];
  }

  lemma {:induction false} ChainEmpty(items: seq<Item>)
    ensures Chain(items, End).End? <==> items == []
  {
    ChainFollowed(items, End);
  }

  lemma {:induction false} ChainFollowed(items: seq<Item>, more: Entries)
    ensures Chain(items, more).End? <==> items == [] && more.End?
  {
    if items != [] {
      var n := |items| - 1;
      ChainFollowed(items[..n], Entry(items[n].offset, items[n].span, items[n].record, more));
    }
  }

  /** `encode_record`: the header is packed with a zero checksum, which is then patched in. */
  method WriteRecord(kit: Kit, payload: bytes, sequence: nat) returns (record: bytes)
    requires Sixteen(kit)
    ensures record == RecordBytes(kit, payload, sequence)
  {
    var header := Head(sequence, |payload|, kit.checksum(payload)) + LeBytes(0, 2);
    var crc := LeBytes(kit.checksum(header[..14]), 2);
    header := header[14 := crc[0]];
    header := header[15 := crc[1]];
    assert header[..14] == Head(sequence, |payload|, kit.checksum(payload));
    assert header == header[..14] + crc;
    record := header + payload + Trailer(sequence);
  }
}
