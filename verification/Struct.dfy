/**
  Little-endian fixed-width packing, the part of Python's `struct` module that every
  wire and file format of the system is written with. A format is a list of field
  kinds; `AllFit` is false exactly where `struct.pack` raises.
  */
module Struct {
  newtype byte = b: int | 0 <= b < 256
  type bytes = seq<byte>

  datatype Kind = U8 | I8 | U16 | I16 | U32 | I32 | U64

  function Width(k: Kind): nat {
    match k
    case U8 => 1 case I8 => 1
    case U16 => 2 case I16 => 2
    case U32 => 4 case I32 => 4
    case U64 => 8
  }

  function Pow256(n: nat): nat {
    if n == 0 then 1 else 256 * Pow256(n - 1)
  }

  /** The number of values of a kind. */
  function Span(k: Kind): nat {
    match k
    case U8 => 0x100 case I8 => 0x100
    case U16 => 0x1_0000 case I16 => 0x1_0000
    case U32 => 0x1_0000_0000 case I32 => 0x1_0000_0000
    case U64 => 0x1_0000_0000_0000_0000
  }

  predicate Signed(k: Kind) {
    k.I8? || k.I16? || k.I32?
  }

  predicate Fits(k: Kind, v: int) {
    if Signed(k) then -(Span(k) / 2) <= v < Span(k) / 2 else 0 <= v < Span(k)
  }

  function LeBytes(v: nat, width: nat): (b: bytes)
    ensures |b| == width
  {
    if width == 0 then [] else [(v % 256) as byte] + LeBytes(v / 256, width - 1)
  }

  function LeValue(b: bytes): nat {
    if b == [] then 0 else b[0] as int + 256 * LeValue(b[1..])
  }

  lemma {:induction false} LeValueOfBytes(v: nat, width: nat)
    requires v < Pow256(width)
    ensures LeValue(LeBytes(v, width)) == v
  {
    if width != 0 {
      LeValueOfBytes(v / 256, width - 1);
      assert LeBytes(v, width)[1..] == LeBytes(v / 256, width - 1);
    }
  }

  lemma LowDigit(d: int, rest: int)
    requires 0 <= d < 256
    ensures (d + 256 * rest) % 256 == d && (d + 256 * rest) / 256 == rest
  {
  }

  lemma {:induction false} LeBytesOfValue(b: bytes)
    ensures LeValue(b) < Pow256(|b|)
    ensures LeBytes(LeValue(b), |b|) == b
  {
    if b != [] {
      var tail := b[1..];
      LeBytesOfValue(tail);
      LowDigit(b[0] as int, LeValue(tail));
      assert b == [b[0]] + tail;
    }
  }

  lemma SpanIsPow(k: Kind)
    ensures Span(k) == Pow256(Width(k))
  {
    assert Pow256(1) == 0x100;
    assert Pow256(2) == 0x1_0000;
    assert Pow256(4) == 256 * Pow256(3) == 0x1_0000_0000;
    assert Pow256(8) == 256 * Pow256(7) && Pow256(7) == 256 * Pow256(6) && Pow256(6) == 256 * Pow256(5)
        && Pow256(5) == 256 * Pow256(4);
  }

  lemma FieldRoundTrips(k: Kind, b: bytes)
    requires |b| == Width(k)
    ensures LeValue(b) < Span(k)
    ensures LeBytes(LeValue(b), Width(k)) == b
  {
    SpanIsPow(k);
    LeBytesOfValue(b);
  }

  function PackOne(k: Kind, v: int): (b: bytes)
    requires Fits(k, v)
    ensures |b| == Width(k)
  {
    LeBytes(if v < 0 then v + Span(k) else v, Width(k))
  }

  function UnpackOne(k: Kind, b: bytes): int
    requires |b| == Width(k)
  {
    var u := LeValue(b);
    if Signed(k) && u >= Span(k) / 2 then u - Span(k) else u
  }

  /** Packing one field and reading it back are inverse, in both directions. */
  lemma OneRoundTrip(k: Kind, v: int)
    requires Fits(k, v)
    ensures UnpackOne(k, PackOne(k, v)) == v
  {
    SpanIsPow(k);
    LeValueOfBytes(if v < 0 then v + Span(k) else v, Width(k));
  }

  lemma SpanIsEven(k: Kind)
    ensures Span(k) == 2 * (Span(k) / 2)
  {
  }

  lemma OneCanonical(k: Kind, b: bytes)
    requires |b| == Width(k)
    ensures Fits(k, UnpackOne(k, b))
    ensures PackOne(k, UnpackOne(k, b)) == b
  {
    FieldRoundTrips(k, b);
    SpanIsEven(k);
    var u: int, span: int := LeValue(b), Span(k);
    if Signed(k) && u >= span / 2 {
      assert UnpackOne(k, b) == u - span < 0;
      assert u - span + span == u;
    } else {
      assert UnpackOne(k, b) == u;
    }
  }

  type Format = seq<Kind>

  function Size(f: Format): nat {
    if f == [] then 0 else Width(f[0]) + Size(f[1..])
  }

  predicate AllFit(f: Format, vs: seq<int>) {
    |f| == |vs| && forall i :: 0 <= i < |f| ==> Fits(f[i], vs[i])
  }

  function PackFits(f: Format, vs: seq<int>): (b: bytes)
    requires AllFit(f, vs)
    ensures |b| == Size(f)
  {
    if f == [] then [] else PackOne(f[0], vs[0]) + PackFits(f[1..], vs[1..])
  }

  /** `struct.unpack` of exactly one record. */
  function Unpack(f: Format, b: bytes): (vs: seq<int>)
    requires |b| == Size(f)
    ensures |vs| == |f|
  {
    if f == [] then []
    else [UnpackOne(f[0], b[..Width(f[0])])] + Unpack(f[1..], b[Width(f[0])..])
  }

  lemma {:induction false} UnpackOfPack(f: Format, vs: seq<int>)
    requires AllFit(f, vs)
    ensures Unpack(f, PackFits(f, vs)) == vs
  {
    if f != [] {
      var b, w := PackFits(f, vs), Width(f[0]);
      assert b[..w] == PackOne(f[0], vs[0]) && b[w..] == PackFits(f[1..], vs[1..]);
      OneRoundTrip(f[0], vs[0]);
      UnpackOfPack(f[1..], vs[1..]);
    }
  }

  lemma PackCons(f: Format, v: int, vs: seq<int>)
    requires f != [] && Fits(f[0], v) && AllFit(f[1..], vs)
    ensures AllFit(f, [v] + vs)
    ensures PackFits(f, [v] + vs) == PackOne(f[0], v) + PackFits(f[1..], vs)
  {
    var all := [v] + vs;
    assert forall i :: 1 <= i < |f| ==> f[i] == f[1..][i - 1] && all[i] == vs[i - 1];
    assert all[1..] == vs;
  }

  lemma {:induction false} PackOfUnpack(f: Format, b: bytes)
    requires |b| == Size(f)
    ensures AllFit(f, Unpack(f, b))
    ensures PackFits(f, Unpack(f, b)) == b
  {
    if f != [] {
      var w := Width(f[0]);
      OneCanonical(f[0], b[..w]);
      PackOfUnpack(f[1..], b[w..]);
      PackCons(f, UnpackOne(f[0], b[..w]), Unpack(f[1..], b[w..]));
      assert b == b[..w] + b[w..];
    }
  }

  lemma {:induction false} SizeOfConcat(f: Format, g: Format)
    ensures Size(f + g) == Size(f) + Size(g)
  {
    if f == [] {
      assert f + g == g;
    } else {
      SizeOfConcat(f[1..], g);
      assert (f + g)[1..] == f[1..] + g;
    }
  }

  lemma AllFitConcat(f: Format, g: Format, vs: seq<int>, ws: seq<int>)
    requires AllFit(f, vs) && AllFit(g, ws)
    ensures AllFit(f + g, vs + ws)
  {
  }

  /** Packing a longer format is packing its parts. */
  lemma {:induction false} PackOfConcat(f: Format, g: Format, vs: seq<int>, ws: seq<int>)
    requires AllFit(f, vs) && AllFit(g, ws) && AllFit(f + g, vs + ws)
    ensures PackFits(f + g, vs + ws) == PackFits(f, vs) + PackFits(g, ws)
  {
    if f == [] {
      assert f + g == g && vs + ws == ws;
    } else {
      var f', vs' := f[1..], vs[1..];
      AllFitConcat(f', g, vs', ws);
      PackOfConcat(f', g, vs', ws);
      assert (f + g)[1..] == f' + g;
      assert (vs + ws)[1..] == vs' + ws;
      Assoc(PackOne(f[0], vs[0]), PackFits(f', vs'), PackFits(g, ws));
    }
  }

  lemma FirstByteOfU8(f: Format, vs: seq<int>)
    requires f != [] && f[0] == U8 && AllFit(f, vs)
    ensures PackFits(f, vs) != [] && PackFits(f, vs)[0] as int == vs[0]
  {
    assert Fits(U8, vs[0]);
    assert PackOne(U8, vs[0])[0] == vs[0] as byte;
  }

  lemma PackOfOne(k: Kind, v: int)
    requires Fits(k, v)
    ensures AllFit([k], [v]) && PackFits([k], [v]) == PackOne(k, v)
  {
  }

  lemma Assoc(a: bytes, b: bytes, c: bytes)
    ensures a + (b + c) == a + b + c
  {
  }
}
