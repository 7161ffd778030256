/**
  CRC-16/CCITT-FALSE: polynomial 0x1021, initial value 0xFFFF, no reflection.
  */
module Crc16 {
  import opened Struct
  import opened Nibbles

  /** The 16-bit shift register, most significant digit first. */
  datatype Reg = Reg(n3: Nibble, n2: Nibble, n1: Nibble, n0: Nibble) {

    function Word(): (w: int)
      ensures 0 <= w < 0x1_0000
    {
      0x1000 * n3.Digit() + 0x100 * n2.Digit() + 0x10 * n1.Digit() + n0.Digit()
    }

    /** One bit: shift left, and exclusive-or 0x1021 when a one leaves the top. */
    function Shift(): Reg {
      var out := n3.b3;
      Reg(Nibble(n3.b2, n3.b1, n3.b0, n2.b3 != out), Nibble(n2.b2, n2.b1, n2.b0, n1.b3),
          Nibble(n1.b2, n1.b1, n1.b0 != out, n0.b3), Nibble(n0.b2, n0.b1, n0.b0, out))
    }

    function Shifts(n: nat): Reg
      decreases n
    {
      if n == 0 then this else Shifts(n - 1).Shift()
    }

    /** Four shifts at once, without a branch: the digit shifted out re-enters at the taps. */
    function FourShifts(): Reg {
      Reg(n2.Xor(n3), n1.(b0 := n1.b0 != n3.b3),
          Nibble(n0.b3 != n3.b2, n0.b2 != n3.b1, n0.b1 != n3.b0, n0.b0), n3)
    }

    function EightShifts(): Reg {
      FourShifts().FourShifts()
    }

    /** One message byte enters at the top. */
    function Feed(b: byte): Reg {
      Reg(n3.Xor(NibbleOf(b as int / 16)), n2.Xor(NibbleOf(b as int % 16)), n1, n0)
    }

    function Step(b: byte): Reg {
      Feed(b).EightShifts()
    }
  }

  lemma FourShiftsAreFour(r: Reg)
    ensures r.Shift().Shift().Shift().Shift() == r.FourShifts()
  {
  }

  lemma ShiftsAreEightShifts(r: Reg)
    ensures r.Shifts(8) == r.EightShifts()
  {
    var r4 := r.FourShifts();
    FourShiftsAreFour(r);
    FourShiftsAreFour(r4);
    assert r.Shifts(4) == r4;
    assert r.Shifts(8) == r4.Shift().Shift().Shift().Shift();
  }

  lemma FourShiftsInjective(p: Reg, q: Reg)
    requires p.FourShifts() == q.FourShifts()
    ensures p == q
  {
  }

  lemma FeedInjective(p: Reg, q: Reg, a: byte, b: byte)
    requires p.Feed(a) == q.Feed(b)
    ensures p == q ==> a == b
    ensures a == b ==> p == q
  {
    if a == b {
      XorCancels(NibbleOf(a as int / 16), p.n3, q.n3);
      XorCancels(NibbleOf(a as int % 16), p.n2, q.n2);
    }
    if p == q {
      XorCancels(p.n3, NibbleOf(a as int / 16), NibbleOf(b as int / 16));
      XorCancels(p.n2, NibbleOf(a as int % 16), NibbleOf(b as int % 16));
      NibbleOfInjective(a as int / 16, b as int / 16);
      NibbleOfInjective(a as int % 16, b as int % 16);
    }
  }

  lemma StepInjective(p: Reg, q: Reg, a: byte, b: byte)
    requires p.Step(a) == q.Step(b)
    ensures p == q ==> a == b
    ensures a == b ==> p == q
  {
    FourShiftsInjective(p.Feed(a).FourShifts(), q.Feed(b).FourShifts());
    FourShiftsInjective(p.Feed(a), q.Feed(b));
    FeedInjective(p, q, a, b);
  }

  /** The four shifts undone: the low digit is what was shifted out. */
  function FourBack(q: Reg): Reg {
    var t := q.n0;
    Reg(t, q.n3.Xor(t), q.n2.(b0 := q.n2.b0 != t.b3),
        Nibble(q.n1.b3 != t.b2, q.n1.b2 != t.b1, q.n1.b1 != t.b0, q.n1.b0))
  }

  lemma FourBackAndForth(q: Reg)
    ensures FourBack(q).FourShifts() == q
  {
  }

  lemma FeedTwice(r: Reg, b: byte)
    ensures r.Feed(b).Feed(b) == r
  {
  }

  /** Every register is reached by the byte step from some register: with injectivity, the step
      of each byte is a bijection. */
  lemma StepSurjective(q: Reg, b: byte) returns (p: Reg)
    ensures p.Step(b) == q
  {
    var r := FourBack(FourBack(q));
    p := r.Feed(b);
    FeedTwice(r, b);
    FourBackAndForth(FourBack(q));
    FourBackAndForth(q);
    assert p.Feed(b) == r;
  }

  lemma LowHalfDecides(p: Reg, q: Reg)
    requires p.n1 == q.n1 && p.n0 == q.n0
    requires p.EightShifts().n1 == q.EightShifts().n1 && p.EightShifts().n0 == q.EightShifts().n0
    ensures p == q
  {
  }

  /** The one difference a byte can make that leaves the high half of the register alone,
      and the difference it makes in the low half. */
  function Flip8900(p: Reg): Reg {
    p.(n3 := Flip3(p.n3), n2 := Flip30(p.n2))
  }

  function Flip00A1(p: Reg): Reg {
    p.(n1 := Flip31(p.n1), n0 := Flip0(p.n0))
  }

  lemma FlipImage(p: Reg)
    ensures Flip8900(p).EightShifts() == Flip00A1(p.EightShifts())
  {
  }

  lemma HighHalfTop(p: Reg, q: Reg, p1: Reg, q1: Reg)
    requires p.n1 == q.n1 && p.n0 == q.n0 && p1 == p.FourShifts() && q1 == q.FourShifts()
    requires p1.FourShifts().n2 == q1.FourShifts().n2
    ensures p.n3.b2 == q.n3.b2 && p.n3.b1 == q.n3.b1 && p.n3.b0 == q.n3.b0
  {
  }

  lemma HighHalfSame(p: Reg, q: Reg, p1: Reg, q1: Reg)
    requires p.n1 == q.n1 && p.n0 == q.n0 && p1 == p.FourShifts() && q1 == q.FourShifts() && p.n3 == q.n3
    requires p1.FourShifts().n3 == q1.FourShifts().n3
    ensures p == q
  {
  }

  lemma HighHalfFlip(p: Reg, q: Reg, p1: Reg, q1: Reg)
    requires p.n1 == q.n1 && p.n0 == q.n0 && p1 == p.FourShifts() && q1 == q.FourShifts()
    requires q.n3 == Flip3(p.n3)
    requires p1.FourShifts().n3 == q1.FourShifts().n3
    ensures q == Flip8900(p)
  {
  }

  lemma HighHalfKernel(p: Reg, q: Reg)
    requires p.n1 == q.n1 && p.n0 == q.n0 && p != q
    requires p.EightShifts().n3 == q.EightShifts().n3 && p.EightShifts().n2 == q.EightShifts().n2
    ensures q == Flip8900(p)
  {
    HighHalfTop(p, q, p.FourShifts(), q.FourShifts());
    if p.n3.b3 == q.n3.b3 {
      HighHalfSame(p, q, p.FourShifts(), q.FourShifts());
    } else {
      HighHalfFlip(p, q, p.FourShifts(), q.FourShifts());
    }
  }

  // ---------- Whole messages ----------

  const ONES := Nibble(true, true, true, true)
  const CRC16_INIT := Reg(ONES, ONES, ONES, ONES)

  function Crc(data: bytes, r: Reg): Reg {
    if data == [] then r else Crc(data[1..], r.Step(data[0]))
  }

  /** The checksum of a byte string. */
  function Crc16Of(data: bytes): (w: int)
    ensures 0 <= w < 0x1_0000
  {
    Crc(data, CRC16_INIT).Word()
  }

  lemma {:induction false} CrcOfConcat(a: bytes, b: bytes, r: Reg)
    ensures Crc(a + b, r) == Crc(b, Crc(a, r))
  {
    if a == [] {
      assert a + b == b;
    } else {
      assert (a + b)[1..] == a[1..] + b;
      CrcOfConcat(a[1..], b, r.Step(a[0]));
    }
  }

  lemma {:induction false} CrcInjectiveInState(data: bytes, p: Reg, q: Reg)
    requires Crc(data, p) == Crc(data, q)
    ensures p == q
  {
    if data != [] {
      CrcInjectiveInState(data[1..], p.Step(data[0]), q.Step(data[0]));
      StepInjective(p, q, data[0], data[0]);
    }
  }

  lemma TwoStepsInjective(r: Reg, a: byte, b: byte, a': byte, b': byte)
    requires r.Step(a).Step(b) == r.Step(a').Step(b')
    ensures a == a' && b == b'
  {
    FourShiftsInjective(r.Step(a).Feed(b).FourShifts(), r.Step(a').Feed(b').FourShifts());
    FourShiftsInjective(r.Step(a).Feed(b), r.Step(a').Feed(b'));
    LowHalfDecides(r.Feed(a), r.Feed(a'));
    FeedInjective(r, r, a, a');
    StepInjective(r.Step(a), r.Step(a), b, b');
  }

  lemma WordInjective(p: Reg, q: Reg)
    requires p.Word() == q.Word()
    ensures p == q
  {
    DigitsUnique(p.n3.Digit(), p.n2.Digit(), p.n1.Digit(), p.n0.Digit(),
                 q.n3.Digit(), q.n2.Digit(), q.n1.Digit(), q.n0.Digit());
    DigitInjective(p.n3, q.n3);
    DigitInjective(p.n2, q.n2);
    DigitInjective(p.n1, q.n1);
    DigitInjective(p.n0, q.n0);
  }

  /** `d` and `e` have one length and agree everywhere outside the `n` positions from `i` on. */
  predicate AgreeBut(d: bytes, e: bytes, i: nat, n: nat) {
    |d| == |e| && i + n <= |d| && d[..i] == e[..i] && d[i + n..] == e[i + n..]
  }

  /** Every change confined to two neighbouring bytes changes the checksum. */
  lemma BurstDetected(d: bytes, e: bytes, i: nat)
    requires AgreeBut(d, e, i, 2) && d != e
    ensures Crc16Of(d) != Crc16Of(e)
  {
    if Crc16Of(d) == Crc16Of(e) {
      var s, tail := Crc(d[..i], CRC16_INIT), d[i + 2..];
      assert d == d[..i] + ([d[i], d[i + 1]] + tail);
      assert e == d[..i] + ([e[i], e[i + 1]] + tail);
      CrcOfConcat(d[..i], [d[i], d[i + 1]] + tail, CRC16_INIT);
      CrcOfConcat(d[..i], [e[i], e[i + 1]] + tail, CRC16_INIT);
      CrcOfTwo(d[i], d[i + 1], tail, s);
      CrcOfTwo(e[i], e[i + 1], tail, s);
      WordInjective(Crc(d, CRC16_INIT), Crc(e, CRC16_INIT));
      CrcInjectiveInState(tail, s.Step(d[i]).Step(d[i + 1]), s.Step(e[i]).Step(e[i + 1]));
      TwoStepsInjective(s, d[i], d[i + 1], e[i], e[i + 1]);
    }
  }

  lemma CrcOfTwo(a: byte, b: byte, tail: bytes, s: Reg)
    ensures Crc([a, b] + tail, s) == Crc(tail, s.Step(a).Step(b))
  {
    assert ([a, b] + tail)[1..] == [b] + tail;
    assert ([b] + tail)[1..] == tail;
  }

  lemma FeedFlip(r: Reg, a: byte, b: byte)
    ensures XorBytes(a, b) == 0x89 <==> r.Feed(b) == Flip8900(r.Feed(a))
  {
    XorBytesDigits(a, b);
    XorEight(r.n3, a as int / 16, b as int / 16);
    XorNine(r.n2, a as int % 16, b as int % 16);
  }

  /** The halves of a checksum. */
  lemma WordHalves(r: Reg)
    ensures r.Word() / 0x100 == 16 * r.n3.Digit() + r.n2.Digit()
    ensures r.Word() % 0x100 == 16 * r.n1.Digit() + r.n0.Digit()
  {
  }

  lemma FlippedLow(p: Reg, q: Reg)
    requires q == Flip00A1(p)
    ensures XorBytes((p.Word() % 0x100) as byte, (q.Word() % 0x100) as byte) == 0xA1
  {
    WordHalves(p);
    WordHalves(q);
    XorBytesOfDigits(p.n1.Digit(), p.n0.Digit(), q.n1.Digit(), q.n0.Digit());
    FlippedDigits(p.n1);
    FlippedDigits(p.n0);
  }

  lemma SameHighWord(p: Reg, q: Reg)
    ensures p.Word() / 0x100 == q.Word() / 0x100 <==> p.n3 == q.n3 && p.n2 == q.n2
  {
    WordHalves(p);
    WordHalves(q);
    if p.Word() / 0x100 == q.Word() / 0x100 {
      DigitInjective(p.n3, q.n3);
      DigitInjective(p.n2, q.n2);
    }
  }

  /** A changed byte keeps the high half of the register exactly when the change is 0x89,
      and then the low half changes by 0xA1. */
  lemma StepKernel(r: Reg, a: byte, b: byte)
    requires a != b
    ensures r.Step(a).Word() / 0x100 == r.Step(b).Word() / 0x100 <==> XorBytes(a, b) == 0x89
    ensures XorBytes(a, b) == 0x89 ==> XorBytes((r.Step(a).Word() % 0x100) as byte, (r.Step(b).Word() % 0x100) as byte) == 0xA1
  {
    var p, q := r.Feed(a), r.Feed(b);
    FeedFlip(r, a, b);
    SameHighWord(r.Step(a), r.Step(b));
    if q == Flip8900(p) {
      FlipImage(p);
      FlippedLow(r.Step(a), r.Step(b));
    }
    if p == q {
      FeedInjective(r, r, a, b);
    } else if p.EightShifts().n3 == q.EightShifts().n3 && p.EightShifts().n2 == q.EightShifts().n2 {
      HighHalfKernel(p, q);
    }
  }

  lemma CrcOfLast(pre: bytes, a: byte, r: Reg)
    ensures Crc(pre + [a], r) == Crc(pre, r).Step(a)
  {
    CrcOfConcat(pre, [a], r);
  }

  /** The same for the last byte of a message. */
  lemma LastByteKernel(pre: bytes, a: byte, b: byte)
    requires a != b
    ensures Crc16Of(pre + [a]) / 0x100 == Crc16Of(pre + [b]) / 0x100 <==> XorBytes(a, b) == 0x89
    ensures XorBytes(a, b) == 0x89 ==> XorBytes((Crc16Of(pre + [a]) % 0x100) as byte, (Crc16Of(pre + [b]) % 0x100) as byte) == 0xA1
  {
    CrcOfLast(pre, a, CRC16_INIT);
    CrcOfLast(pre, b, CRC16_INIT);
    StepKernel(Crc(pre, CRC16_INIT), a, b);
  }

  // ---------- The loop over bytes and bits ----------

  function RegOf(w: int): Reg
    requires 0 <= w < 0x1_0000
  {
    Reg(NibbleOf(w / 0x1000), NibbleOf(w / 0x100 % 16), NibbleOf(w / 0x10 % 16), NibbleOf(w % 16))
  }

  /** Exclusive or of two 16-bit integers. */
  function XorWords(a: int, b: int): int
    requires 0 <= a < 0x1_0000 && 0 <= b < 0x1_0000
  {
    var p, q := RegOf(a), RegOf(b);
    Reg(p.n3.Xor(q.n3), p.n2.Xor(q.n2), p.n1.Xor(q.n1), p.n0.Xor(q.n0)).Word()
  }

  lemma RegOfWord(r: Reg)
    ensures RegOf(r.Word()) == r
  {
    DigitsOfSum(r.n3.Digit(), r.n2.Digit(), r.n1.Digit(), r.n0.Digit(), r.Word());
    NibbleOfDigit(r.n3);
    NibbleOfDigit(r.n2);
    NibbleOfDigit(r.n1);
    NibbleOfDigit(r.n0);
  }

  lemma FeedWord(r: Reg, b: byte)
    ensures XorWords(r.Word(), 0x100 * b as int) == r.Feed(b).Word()
  {
    RegOfWord(r);
    DigitsOfSum(b as int / 16, b as int % 16, 0, 0, 0x100 * b as int);
  }

  function Double(r: Reg): Reg {
    Reg(ShiftIn(r.n3, r.n2.b3), ShiftIn(r.n2, r.n1.b3), ShiftIn(r.n1, r.n0.b3), ShiftIn(r.n0, false))
  }

  lemma DoubleWord(r: Reg)
    ensures Double(r).Word() == 2 * r.Word() % 0x1_0000
  {
    ShiftInDigit(r.n3, r.n2);
    ShiftInDigit(r.n2, r.n1);
    ShiftInDigit(r.n1, r.n0);
    ShiftInDigit(r.n0, NibbleOf(0));
    var d := Double(r);
    DoubleSum(r.n3.Digit(), r.n2.Digit(), r.n1.Digit(), r.n0.Digit(),
              d.n3.Digit(), d.n2.Digit(), d.n1.Digit(), d.n0.Digit());
  }

  lemma TopBit(r: Reg)
    ensures r.n3.b3 <==> r.Word() >= 0x8000
  {
    assert r.n3.b3 <==> r.n3.Digit() >= 8;
  }

  lemma ShiftWord(r: Reg)
    ensures r.Shift().Word() == if r.Word() >= 0x8000 then XorWords(2 * r.Word() % 0x1_0000, 0x1021)
                                else 2 * r.Word() % 0x1_0000
  {
    DoubleWord(r);
    TopBit(r);
    if r.n3.b3 {
      RegOfWord(Double(r));
      DigitsOfSum(1, 0, 2, 1, 0x1021);
      assert RegOf(0x1021) == Reg(NibbleOf(1), NibbleOf(0), NibbleOf(2), NibbleOf(1));
    }
  }

  lemma WordOfReg(w: int)
    requires 0 <= w < 0x1_0000
    ensures RegOf(w).Word() == w
  {
    SumOfDigits(w);
    DigitOfNibble(w / 0x1000);
    DigitOfNibble(w / 0x100 % 16);
    DigitOfNibble(w / 0x10 % 16);
    DigitOfNibble(w % 16);
  }

  /** The inner loop: one byte, bit by bit. */
  method FeedByte(before: int, b: byte, ghost r: Reg) returns (crc: int)
    requires before == r.Word()
    ensures crc == r.Step(b).Word()
  {
    FeedWord(r, b);
    crc := XorWords(before, 0x100 * b as int);
    ghost var fed := r.Feed(b);
    for k := 0 to 8
      invariant crc == fed.Shifts(k).Word()
    {
      ShiftWord(fed.Shifts(k));
      if crc >= 0x8000 {
        crc := XorWords(2 * crc % 0x1_0000, 0x1021);
      } else {
        crc := 2 * crc % 0x1_0000;
      }
    }
    ShiftsAreEightShifts(fed);
  }

  /** The outer loop computes the checksum, from any starting value. */
  method ComputeCrc16(data: bytes, init: int) returns (crc: int)
    requires 0 <= init < 0x1_0000
    ensures crc == Crc(data, RegOf(init)).Word()
  {
    crc := init;
    ghost var r := RegOf(init);
    WordOfReg(init);
    for i := 0 to |data|
      invariant crc == r.Word() && r == Crc(data[..i], RegOf(init))
    {
      crc := FeedByte(crc, data[i], r);
      assert data[..i + 1] == data[..i] + [data[i]];
      CrcOfLast(data[..i], data[i], RegOf(init));
      r := r.Step(data[i]);
    }
    assert data[..|data|] == data;
  }

  lemma InitIsAllOnes()
    ensures RegOf(0xFFFF) == CRC16_INIT
  {
    DigitsOfSum(15, 15, 15, 15, 0xFFFF);
  }
}
