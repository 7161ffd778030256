/**
  Packed records read by position: what each field is in terms of the bytes at its offset.
  */
module Offsets {
  import opened Struct

  function U8At(b: bytes, o: nat): int
    requires o < |b|
  {
    b[o] as int
  }

  function U16At(b: bytes, o: nat): int
    requires o + 2 <= |b|
  {
    b[o] as int + 0x100 * b[o + 1] as int
  }

  function U32At(b: bytes, o: nat): int
    requires o + 4 <= |b|
  {
    U16At(b, o) + 0x1_0000 * U16At(b, o + 2)
  }

  function U64At(b: bytes, o: nat): int
    requires o + 8 <= |b|
  {
    U32At(b, o) + 0x1_0000_0000 * U32At(b, o + 4)
  }

  /** Two's complement: the upper half of the range stands for the negative numbers. */
  function Complement(u: int, span: int): int {
    if 2 * u >= span then u - span else u
  }

  function I8At(b: bytes, o: nat): int
    requires o < |b|
  {
    Complement(U8At(b, o), 0x100)
  }

  function I16At(b: bytes, o: nat): int
    requires o + 2 <= |b|
  {
    Complement(U16At(b, o), 0x1_0000)
  }

  function I32At(b: bytes, o: nat): int
    requires o + 4 <= |b|
  {
    Complement(U32At(b, o), 0x1_0000_0000)
  }

  function ValueAt(k: Kind, b: bytes, o: nat): int
    requires o + Width(k) <= |b|
  {
    match k
    case U8 => U8At(b, o)
    case I8 => I8At(b, o)
    case U16 => U16At(b, o)
    case I16 => I16At(b, o)
    case U32 => U32At(b, o)
    case I32 => I32At(b, o)
    case U64 => U64At(b, o)
  }

  lemma {:induction false} LeValueSplit(b: bytes, c: bytes)
    ensures LeValue(b + c) == LeValue(b) + Pow256(|b|) * LeValue(c)
  {
    if b == [] {
      assert b + c == c;
    } else {
      LeValueSplit(b[1..], c);
      assert (b + c)[1..] == b[1..] + c;
      calc {
        LeValue(b + c);
        b[0] as int + 256 * (LeValue(b[1..]) + Pow256(|b| - 1) * LeValue(c));
        b[0] as int + 256 * LeValue(b[1..]) + 256 * (Pow256(|b| - 1) * LeValue(c));
      }
      Regroup(256, Pow256(|b| - 1), LeValue(c));
    }
  }

  lemma Regroup(x: int, y: int, z: int)
    ensures x * (y * z) == (x * y) * z
  {
  }

  lemma LeOne(b: bytes)
    requires |b| == 1
    ensures LeValue(b) == b[0] as int
  {
  }

  lemma LeTwo(b: bytes)
    requires |b| == 2
    ensures LeValue(b) == U16At(b, 0)
  {
    LeOne(b[1..]);
  }

  lemma LeFour(b: bytes)
    requires |b| == 4
    ensures LeValue(b) == U32At(b, 0)
  {
    var c, d := b[..2], b[2..];
    assert b == c + d;
    assert Pow256(2) == 256 * Pow256(1) == 0x1_0000;
    LeValueSplit(c, d);
    LeTwo(c);
    LeTwo(d);
  }

  lemma LeEight(b: bytes)
    requires |b| == 8
    ensures LeValue(b) == U64At(b, 0)
  {
    var c, d := b[..4], b[4..];
    assert b == c + d;
    SpanIsPow(U32);
    LeValueSplit(c, d);
    LeFour(c);
    LeFour(d);
  }

  /** Unpacking a field reads the bytes at its offset, the lowest first. */
  lemma UnpackedAt(k: Kind, b: bytes, o: nat)
    requires o + Width(k) <= |b|
    ensures UnpackOne(k, b[o..o + Width(k)]) == ValueAt(k, b, o)
  {
    var c := b[o..o + Width(k)];
    match Width(k)
    case 1 => LeOne(c);
    case 2 => LeTwo(c);
    case 4 => LeFour(c);
    case _ => LeEight(c);
  }

  // ---------- Records ----------

  /** Where field `j` starts. */
  function Start(f: Format, j: nat): nat
    requires j <= |f|
  {
    if j == 0 then 0 else Width(f[0]) + Start(f[1..], j - 1)
  }

  lemma {:induction false} StartNext(f: Format, j: nat)
    requires j < |f|
    ensures Start(f, j + 1) == Start(f, j) + Width(f[j])
  {
    if j > 0 {
      StartNext(f[1..], j - 1);
    }
  }

  lemma Starts(f: Format)
    ensures forall j: nat {:trigger f[j]} :: j < |f| ==> Start(f, j + 1) == Start(f, j) + Width(f[j])
  {
    forall j: nat | j < |f| ensures Start(f, j + 1) == Start(f, j) + Width(f[j]) {
      StartNext(f, j);
    }
  }

  lemma {:induction false} FieldInside(f: Format, j: nat)
    requires j < |f|
    ensures Start(f, j) + Width(f[j]) <= Size(f)
  {
    if j > 0 {
      FieldInside(f[1..], j - 1);
    }
  }

  lemma UnpackTail(f: Format, c: bytes, j: nat)
    requires 0 < j < |f| && |c| == Size(f)
    ensures f[1..][j - 1] == f[j] && Unpack(f, c)[j] == Unpack(f[1..], c[Width(f[0])..])[j - 1]
  {
  }

  lemma {:induction false} FieldBytes(f: Format, c: bytes, j: nat)
    requires j < |f| && |c| == Size(f)
    ensures Start(f, j) + Width(f[j]) <= |c|
    ensures Unpack(f, c)[j] == UnpackOne(f[j], c[Start(f, j)..Start(f, j) + Width(f[j])])
  {
    FieldInside(f, j);
    var w := Width(f[0]);
    if j == 0 {
      assert c[..w] == c[0..0 + w];
    } else {
      UnpackTail(f, c, j);
      FieldBytes(f[1..], c[w..], j - 1);
      var s := Start(f[1..], j - 1);
      SliceOfTail(c, w, s, Width(f[j]));
    }
  }

  lemma SliceOfTail(c: bytes, n: nat, s: nat, w: nat)
    requires n + s + w <= |c|
    ensures c[n..][s..s + w] == c[n + s..n + s + w]
  {
  }

  lemma SliceOfSlice(b: bytes, o: nat, n: nat, s: nat, w: nat)
    requires o + n <= |b| && s + w <= n
    ensures b[o..o + n][s..s + w] == b[o + s..o + s + w]
  {
    var x, y := b[o..o + n][s..s + w], b[o + s..o + s + w];
    forall k | 0 <= k < w ensures x[k] == y[k] { }
  }

  /** The bytes of field `j`, in the record and in the payload the record lies in. */
  lemma {:induction false} FieldSlice(f: Format, b: bytes, o: nat, c: bytes, j: nat, start: nat)
    requires j < |f| && |c| == Size(f) && o + |c| <= |b| && c == b[o..o + |c|] && start == Start(f, j)
    ensures start + Width(f[j]) <= |c|
    ensures c[start..start + Width(f[j])] == b[o + start..o + start + Width(f[j])]
  {
    FieldInside(f, j);
    SliceOfSlice(b, o, |c|, start, Width(f[j]));
  }

  /** Every field of an unpacked record is the value at its own offset in the payload. */
  lemma {:induction false} FieldIn(f: Format, b: bytes, o: nat, c: bytes, vs: seq<int>, j: nat, start: nat)
    requires j < |f| && |c| == Size(f) && o + |c| <= |b| && c == b[o..o + |c|]
    requires vs == Unpack(f, c) && start == Start(f, j)
    ensures start + Width(f[j]) <= |c| && vs[j] == ValueAt(f[j], b, o + start)
  {
    FieldSlice(f, b, o, c, j, start);
    FieldBytes(f, c, j);
    UnpackedAt(f[j], b, o + start);
  }

  /** And a packed record has each value at its own offset. */
  lemma PackedAt(f: Format, vs: seq<int>, rest: bytes, j: nat)
    requires AllFit(f, vs) && j < |f|
    ensures var b := PackFits(f, vs) + rest;
            Start(f, j) + Width(f[j]) <= |b| && ValueAt(f[j], b, Start(f, j)) == vs[j]
  {
    var c, b := PackFits(f, vs), PackFits(f, vs) + rest;
    UnpackOfPack(f, vs);
    assert c == b[0..0 + |c|];
    FieldIn(f, b, 0, c, vs, j, Start(f, j));
  }
}
