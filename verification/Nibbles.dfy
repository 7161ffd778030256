/** Four-bit digits, for the code that shifts and exclusive-ors. */
module Nibbles {
  import opened Struct

  type hexit = v: int | 0 <= v < 16

  datatype Nibble = Nibble(b3: bool, b2: bool, b1: bool, b0: bool) {

    function Xor(o: Nibble): Nibble {
      Nibble(b3 != o.b3, b2 != o.b2, b1 != o.b1, b0 != o.b0)
    }

    function Digit(): hexit {
      (if b3 then 8 else 0) + (if b2 then 4 else 0) + (if b1 then 2 else 0) + (if b0 then 1 else 0)
    }
  }

  function NibbleOf(v: hexit): Nibble {
    Nibble(v >= 8, v % 8 >= 4, v % 4 >= 2, v % 2 >= 1)
  }

  lemma DigitOfNibble(v: hexit)
    ensures NibbleOf(v).Digit() == v
  {
  }

  lemma NibbleOfDigit(n: Nibble)
    ensures NibbleOf(n.Digit()) == n
  {
  }

  lemma NibbleOfInjective(u: hexit, v: hexit)
    requires NibbleOf(u) == NibbleOf(v)
    ensures u == v
  {
    DigitOfNibble(u);
    DigitOfNibble(v);
  }

  lemma DigitInjective(m: Nibble, n: Nibble)
    requires m.Digit() == n.Digit()
    ensures m == n
  {
    NibbleOfDigit(m);
    NibbleOfDigit(n);
  }

  lemma DigitsUnique(a3: hexit, a2: hexit, a1: hexit, a0: hexit, b3: hexit, b2: hexit, b1: hexit, b0: hexit)
    requires 0x1000 * a3 + 0x100 * a2 + 0x10 * a1 + a0 == 0x1000 * b3 + 0x100 * b2 + 0x10 * b1 + b0
    ensures a3 == b3 && a2 == b2 && a1 == b1 && a0 == b0
  {
  }

  lemma XorCancels(x: Nibble, a: Nibble, b: Nibble)
    requires x.Xor(a) == x.Xor(b) || a.Xor(x) == b.Xor(x)
    ensures a == b
  {
  }

  function XorHex(a: hexit, b: hexit): hexit {
    NibbleOf(a).Xor(NibbleOf(b)).Digit()
  }

  /** Exclusive or of two bytes. */
  function XorBytes(a: byte, b: byte): byte {
    (16 * XorHex(a as int / 16, b as int / 16) + XorHex(a as int % 16, b as int % 16)) as byte
  }

  lemma XorHexOfDigits(m: Nibble, n: Nibble)
    ensures XorHex(m.Digit(), n.Digit()) == m.Xor(n).Digit()
  {
    NibbleOfDigit(m);
    NibbleOfDigit(n);
  }

  function Flip3(n: Nibble): Nibble {
    n.(b3 := !n.b3)
  }

  function Flip30(n: Nibble): Nibble {
    n.(b3 := !n.b3, b0 := !n.b0)
  }

  lemma XorEight(x: Nibble, u: hexit, v: hexit)
    ensures XorHex(u, v) == 8 <==> x.Xor(NibbleOf(v)) == Flip3(x.Xor(NibbleOf(u)))
  {
    NibbleOfDigit(NibbleOf(u).Xor(NibbleOf(v)));
  }

  lemma XorNine(x: Nibble, u: hexit, v: hexit)
    ensures XorHex(u, v) == 9 <==> x.Xor(NibbleOf(v)) == Flip30(x.Xor(NibbleOf(u)))
  {
    NibbleOfDigit(NibbleOf(u).Xor(NibbleOf(v)));
  }

  lemma XorBytesDigits(a: byte, b: byte)
    ensures XorBytes(a, b) as int == 16 * XorHex(a as int / 16, b as int / 16) + XorHex(a as int % 16, b as int % 16)
  {
  }

  lemma XorBytesOfDigits(u1: hexit, u0: hexit, v1: hexit, v0: hexit)
    ensures XorBytes((16 * u1 + u0) as byte, (16 * v1 + v0) as byte) as int == 16 * XorHex(u1, v1) + XorHex(u0, v0)
  {
    assert (16 * u1 + u0) / 16 == u1 && (16 * u1 + u0) % 16 == u0;
    assert (16 * v1 + v0) / 16 == v1 && (16 * v1 + v0) % 16 == v0;
  }

  lemma XorBytesInjective(a: byte, b: byte, c: byte)
    requires XorBytes(a, b) == XorBytes(a, c)
    ensures b == c
  {
    var h, l := NibbleOf(a as int / 16), NibbleOf(a as int % 16);
    XorHexInjective(a as int / 16, b as int / 16, c as int / 16);
    XorHexInjective(a as int % 16, b as int % 16, c as int % 16);
  }

  lemma XorHexInjective(a: hexit, b: hexit, c: hexit)
    requires XorHex(a, b) == XorHex(a, c)
    ensures b == c
  {
    DigitInjective(NibbleOf(a).Xor(NibbleOf(b)), NibbleOf(a).Xor(NibbleOf(c)));
    XorCancels(NibbleOf(a), NibbleOf(b), NibbleOf(c));
    NibbleOfInjective(b, c);
  }

  function Flip31(n: Nibble): Nibble {
    n.(b3 := !n.b3, b1 := !n.b1)
  }

  function Flip0(n: Nibble): Nibble {
    n.(b0 := !n.b0)
  }

  lemma FlippedDigits(m: Nibble)
    ensures XorHex(m.Digit(), Flip31(m).Digit()) == 0xA
    ensures XorHex(m.Digit(), Flip0(m).Digit()) == 1
  {
    XorHexOfDigits(m, Flip31(m));
    XorHexOfDigits(m, Flip0(m));
  }

  lemma DigitsOfSum(a3: hexit, a2: hexit, a1: hexit, a0: hexit, w: int)
    requires w == 0x1000 * a3 + 0x100 * a2 + 0x10 * a1 + a0
    ensures w / 0x1000 == a3 && w / 0x100 % 16 == a2 && w / 0x10 % 16 == a1 && w % 16 == a0
  {
    assert w / 0x100 == 16 * a3 + a2;
    assert w / 0x10 == 0x100 * a3 + 0x10 * a2 + a1;
  }

  lemma SumOfDigits(w: int)
    requires 0 <= w < 0x1_0000
    ensures w == 0x1000 * (w / 0x1000) + 0x100 * (w / 0x100 % 16) + 0x10 * (w / 0x10 % 16) + w % 16
  {
    assert w / 0x100 == w / 0x1000 * 16 + w / 0x100 % 16;
    assert w / 0x10 == w / 0x100 * 16 + w / 0x10 % 16;
  }

  /** The digit shifted left by one, taking in a bit and losing its top one. */
  function ShiftIn(n: Nibble, bit: bool): Nibble {
    Nibble(n.b2, n.b1, n.b0, bit)
  }

  lemma ShiftInDigit(n: Nibble, below: Nibble)
    ensures ShiftIn(n, below.b3).Digit() == 2 * n.Digit() % 16 + below.Digit() / 8
  {
    assert n.b3 <==> n.Digit() >= 8;
    assert below.b3 <==> below.Digit() >= 8;
  }

  lemma DoubleDigit(a: hexit)
    ensures 2 * a % 16 == 2 * a - 16 * (a / 8)
  {
  }

  lemma RemainderUnique(x: int, q: int, d: int)
    requires x == 0x1_0000 * q + d && 0 <= d < 0x1_0000
    ensures x % 0x1_0000 == d
  {
  }

  /** Doubling a four-digit number modulo 65536, digit by digit. */
  lemma DoubleSum(a3: hexit, a2: hexit, a1: hexit, a0: hexit, d3: hexit, d2: hexit, d1: hexit, d0: hexit)
    requires d3 == 2 * a3 % 16 + a2 / 8 && d2 == 2 * a2 % 16 + a1 / 8
    requires d1 == 2 * a1 % 16 + a0 / 8 && d0 == 2 * a0 % 16
    ensures 0x1000 * d3 + 0x100 * d2 + 0x10 * d1 + d0 == 2 * (0x1000 * a3 + 0x100 * a2 + 0x10 * a1 + a0) % 0x1_0000
  {
    DoubleDigit(a3);
    DoubleDigit(a2);
    DoubleDigit(a1);
    DoubleDigit(a0);
    RemainderUnique(2 * (0x1000 * a3 + 0x100 * a2 + 0x10 * a1 + a0), a3 / 8,
                    0x1000 * d3 + 0x100 * d2 + 0x10 * d1 + d0);
  }
}
