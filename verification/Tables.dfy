/**
  Fixed layouts: a payload is a list of sections, a section is a list of rows, and a row is
  packed by the section's format.
  */
module Tables {
  import opened Struct

  type Row = seq<int>

  /** `n` times `width`. */
  function Times(n: nat, width: nat): nat {
    if n == 0 then 0 else width + Times(n - 1, width)
  }

  lemma {:induction false} TimesIsProduct(n: nat, width: nat)
    ensures Times(n, width) == n * width
  {
    if n > 0 {
      TimesIsProduct(n - 1, width);
    }
  }

  predicate RowsFit(f: Format, rows: seq<Row>) {
    forall i :: 0 <= i < |rows| ==> AllFit(f, rows[i])
  }

  function EncodeRows(f: Format, rows: seq<Row>): bytes
    requires RowsFit(f, rows)
  {
    if rows == [] then [] else PackFits(f, rows[0]) + EncodeRows(f, rows[1..])
  }

  function DecodeRows(f: Format, n: nat, b: bytes): (rows: seq<Row>)
    requires |b| == Times(n, Size(f))
    ensures |rows| == n && forall i :: 0 <= i < n ==> |rows[i]| == |f|
  {
    if n == 0 then []
    else
      [Unpack(f, b[..Size(f)])] + DecodeRows(f, n - 1, b[Size(f)..])
  }

  lemma {:induction false} RowsLength(f: Format, rows: seq<Row>)
    requires RowsFit(f, rows)
    ensures |EncodeRows(f, rows)| == Times(|rows|, Size(f))
  {
    if rows != [] {
      RowsLength(f, rows[1..]);
    }
  }

  lemma {:induction false} DecodeOfEncodeRows(f: Format, rows: seq<Row>)
    requires RowsFit(f, rows)
    ensures |EncodeRows(f, rows)| == Times(|rows|, Size(f))
    ensures DecodeRows(f, |rows|, EncodeRows(f, rows)) == rows
  {
    RowsLength(f, rows);
    if rows != [] {
      var head, tail := PackFits(f, rows[0]), EncodeRows(f, rows[1..]);
      assert (head + tail)[..Size(f)] == head && (head + tail)[Size(f)..] == tail;
      UnpackOfPack(f, rows[0]);
      DecodeOfEncodeRows(f, rows[1..]);
    }
  }

  lemma {:induction false} EncodeOfDecodeRows(f: Format, n: nat, b: bytes)
    requires |b| == Times(n, Size(f))
    ensures RowsFit(f, DecodeRows(f, n, b))
    ensures EncodeRows(f, DecodeRows(f, n, b)) == b
  {
    if n == 0 {
      assert b == [];
    } else {
      var head, tail := b[..Size(f)], b[Size(f)..];
      PackOfUnpack(f, head);
      EncodeOfDecodeRows(f, n - 1, tail);
      var rows := DecodeRows(f, n, b);
      assert rows[1..] == DecodeRows(f, n - 1, tail);
      assert b == head + tail;
    }
  }

  // ---------- Tables ----------

  datatype Section = Section(format: Format, count: nat)

  function Bytes(s: Section): nat {
    Times(s.count, Size(s.format))
  }

  type Layout = seq<Section>
  type Table = seq<seq<Row>>

  function LayoutSize(l: Layout): nat {
    if l == [] then 0 else Bytes(l[0]) + LayoutSize(l[1..])
  }

  /** Every row fits its section's format; the counts are left open. */
  predicate TableFits(l: Layout, t: Table) {
    |t| == |l| && forall i :: 0 <= i < |l| ==> RowsFit(l[i].format, t[i])
  }

  /** The table has the layout's counts. */
  predicate Shaped(l: Layout, t: Table) {
    |t| == |l|
    && forall i :: 0 <= i < |l| ==> |t[i]| == l[i].count && forall k :: 0 <= k < |t[i]| ==> |t[i][k]| == |l[i].format|
  }

  function EncodeTable(l: Layout, t: Table): bytes
    requires TableFits(l, t)
  {
    if l == [] then [] else EncodeRows(l[0].format, t[0]) + EncodeTable(l[1..], t[1..])
  }

  function DecodeTable(l: Layout, b: bytes): (t: Table)
    requires |b| == LayoutSize(l)
    ensures |t| == |l|
  {
    if l == [] then []
    else
      var n := Bytes(l[0]);
      [DecodeRows(l[0].format, l[0].count, b[..n])] + DecodeTable(l[1..], b[n..])
  }

  lemma {:induction false} DecodedShape(l: Layout, b: bytes)
    requires |b| == LayoutSize(l)
    ensures Shaped(l, DecodeTable(l, b))
  {
    if l != [] {
      var n := Bytes(l[0]);
      DecodedShape(l[1..], b[n..]);
      var t := DecodeTable(l, b);
      assert forall i :: 1 <= i < |l| ==> l[i] == l[1..][i - 1] && t[i] == DecodeTable(l[1..], b[n..])[i - 1];
    }
  }

  /** Reading back what was written, when the counts are the layout's. */
  lemma {:induction false} DecodeOfEncodeTable(l: Layout, t: Table)
    requires TableFits(l, t) && Shaped(l, t)
    ensures |EncodeTable(l, t)| == LayoutSize(l)
    ensures DecodeTable(l, EncodeTable(l, t)) == t
  {
    if l != [] {
      var head, tail := EncodeRows(l[0].format, t[0]), EncodeTable(l[1..], t[1..]);
      DecodeOfEncodeRows(l[0].format, t[0]);
      DecodeOfEncodeTable(l[1..], t[1..]);
      var n := Bytes(l[0]);
      assert (head + tail)[..n] == head && (head + tail)[n..] == tail;
    }
  }

  lemma TableCons(l: Layout, rows: seq<Row>, rest: Table)
    requires l != [] && RowsFit(l[0].format, rows) && TableFits(l[1..], rest)
    ensures TableFits(l, [rows] + rest)
    ensures EncodeTable(l, [rows] + rest) == EncodeRows(l[0].format, rows) + EncodeTable(l[1..], rest)
  {
    var t := [rows] + rest;
    assert forall i :: 1 <= i < |l| ==> l[i] == l[1..][i - 1] && t[i] == rest[i - 1];
    assert t[1..] == rest;
  }

  lemma Split(b: bytes, n: nat)
    requires n <= |b|
    ensures b == b[..n] + b[n..]
  {
  }

  lemma EncodeOfDecodeCons(l: Layout, head: bytes, tail: bytes)
    requires l != [] && |head| == Bytes(l[0]) && |tail| == LayoutSize(l[1..])
    requires TableFits(l[1..], DecodeTable(l[1..], tail)) && EncodeTable(l[1..], DecodeTable(l[1..], tail)) == tail
    ensures var t := [DecodeRows(l[0].format, l[0].count, head)] + DecodeTable(l[1..], tail);
            TableFits(l, t) && EncodeTable(l, t) == head + tail
  {
    EncodeOfDecodeRows(l[0].format, l[0].count, head);
    TableCons(l, DecodeRows(l[0].format, l[0].count, head), DecodeTable(l[1..], tail));
  }

  /** Writing back what was read. */
  lemma {:induction false} EncodeOfDecodeTable(l: Layout, b: bytes)
    requires |b| == LayoutSize(l)
    ensures TableFits(l, DecodeTable(l, b))
    ensures EncodeTable(l, DecodeTable(l, b)) == b
  {
    if l == [] {
      assert b == [];
    } else {
      var n := Bytes(l[0]);
      EncodeOfDecodeTable(l[1..], b[n..]);
      EncodeOfDecodeCons(l, b[..n], b[n..]);
      Split(b, n);
    }
  }

  /** Where a section starts. */
  function Offset(l: Layout, i: nat): nat
    requires i <= |l|
  {
    if i == 0 then 0 else Bytes(l[0]) + Offset(l[1..], i - 1)
  }

  lemma DecodeTail(l: Layout, b: bytes, i: nat)
    requires |b| == LayoutSize(l) && 0 < i < |l|
    ensures l[1..][i - 1] == l[i] && DecodeTable(l, b)[i] == DecodeTable(l[1..], b[Bytes(l[0])..])[i - 1]
  {
  }

  /** A section is read from its own bytes and no others. */
  lemma {:induction false} SectionAt(l: Layout, i: nat, b: bytes)
    requires |b| == LayoutSize(l) && i < |l|
    ensures Offset(l, i) + Bytes(l[i]) <= |b|
    ensures DecodeTable(l, b)[i] == RowsAt(l[i], b, Offset(l, i))
  {
    if i == 0 {
      assert b[0..Bytes(l[0])] == b[..Bytes(l[0])];
    } else {
      var rest, tail := l[1..], b[Bytes(l[0])..];
      SectionAt(rest, i - 1, tail);
      DecodeTail(l, b, i);
      RowsAtTail(l[i], b, Bytes(l[0]), Offset(rest, i - 1));
    }
  }

  function RowsAt(s: Section, b: bytes, from: nat): seq<Row>
    requires from + Bytes(s) <= |b|
  {
    DecodeRows(s.format, s.count, b[from..from + Bytes(s)])
  }

  lemma RowsAtTail(s: Section, b: bytes, n: nat, from: nat)
    requires n + from + Bytes(s) <= |b|
    ensures RowsAt(s, b[n..], from) == RowsAt(s, b, n + from)
  {
    assert b[n..][from..from + Bytes(s)] == b[n + from..n + from + Bytes(s)];
  }

  lemma {:induction false} LayoutSizeConcat(l: Layout, m: Layout)
    ensures LayoutSize(l + m) == LayoutSize(l) + LayoutSize(m)
  {
    if l == [] {
      assert l + m == m;
    } else {
      LayoutSizeConcat(l[1..], m);
      assert (l + m)[1..] == l[1..] + m;
    }
  }

  lemma SizeOfTwo(a: Section, b: Section)
    ensures LayoutSize([a]) == Bytes(a) && LayoutSize([a, b]) == Bytes(a) + Bytes(b)
  {
    assert [a, b][1..] == [b] && [b][1..] == [];
  }

  lemma {:induction false} OffsetSnoc(l: Layout, i: nat)
    requires i < |l|
    ensures Offset(l, i + 1) == Offset(l, i) + Bytes(l[i])
  {
    if i > 0 {
      OffsetSnoc(l[1..], i - 1);
    }
  }
}
