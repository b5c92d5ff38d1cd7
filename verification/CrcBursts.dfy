// What the CRC of mkpimage (package/mkpimage/mkpimage.c) is for: a change within
// 32 consecutive bits of the data changes the CRC, and 32 is the best bound.

module CrcBursts {
  import opened Registers
  import opened Crc

  // ------------------------------------------------ equal registers stay equal

  lemma StepLowBit(c: Reg)
    ensures Step(c).w & 1 == 1 <==> Top(c)
  {
  }

  lemma DoubleInjective(a: Reg, b: Reg)
    requires Top(a) == Top(b) && Double(a) == Double(b)
    ensures a == b
  {
  }

  lemma XorInjective(a: Reg, b: Reg, c: Reg)
    requires Xor(a, b) == Xor(a, c)
    ensures b == c
  {
  }

  lemma StepInjective(a: Reg, b: Reg)
    requires Step(a) == Step(b)
    ensures a == b
  {
    hide Top, Double, Xor;
    StepLowBit(a);
    StepLowBit(b);
    if Top(a) {
      XorCommutes(Double(a), Reg(POLY));
      XorCommutes(Double(b), Reg(POLY));
      XorInjective(Reg(POLY), Double(a), Double(b));
    }
    DoubleInjective(a, b);
  }

  // The same bits after two different registers leave them different.
  lemma {:induction false} TailInjective(r: Reg, r': Reg, z: seq<bool>)
    requires Remainder(r, z) == Remainder(r', z)
    ensures r == r'
  {
    hide Xor, Bit;
    if z != [] {
      var front, b := z[..|z| - 1], Bit(z[|z| - 1]);
      XorCommutes(Step(Remainder(r, front)), b);
      XorCommutes(Step(Remainder(r', front)), b);
      XorInjective(b, Step(Remainder(r, front)), Step(Remainder(r', front)));
      StepInjective(Remainder(r, front), Remainder(r', front));
      TailInjective(r, r', front);
    }
  }

  // ------------------------------------------- up to 32 bits fit into the register

  function OneMore(t: bv32): bv32 {
    (t >> 1) | 0x8000_0000
  }

  // The upper k bits.
  function TopBits(k: nat): bv32 {
    if k == 0 then 0 else OneMore(TopBits(k - 1))
  }

  lemma ShiftWithin(a: bv32, b: bv32)
    requires a & b == a
    ensures OneMore(a) & OneMore(b) == OneMore(a)
  {
  }

  lemma {:induction false} TopBitsGrow(k: nat)
    ensures TopBits(k) & TopBits(k + 1) == TopBits(k)
  {
    if k > 0 {
      TopBitsGrow(k - 1);
      ShiftWithin(TopBits(k - 1), TopBits(k));
    }
  }

  lemma FourMore(k: nat, t: bv32, u: bv32)
    requires TopBits(k) == t && u == (t >> 4) | 0xF000_0000
    ensures TopBits(k + 4) == u
  {
    ShiftFour(t);
    hide OneMore;
    assert TopBits(k + 1) == OneMore(t);
    assert TopBits(k + 2) == OneMore(TopBits(k + 1));
    assert TopBits(k + 3) == OneMore(TopBits(k + 2));
  }

  lemma ShiftFour(t: bv32)
    ensures OneMore(OneMore(OneMore(OneMore(t)))) == (t >> 4) | 0xF000_0000
  {
  }

  lemma TopBits31()
    ensures TopBits(31) == 0xFFFF_FFFE
  {
    hide TopBits;
    assert TopBits(3) == 0xE000_0000 by { TopBits3(); }
    FourMore(3, 0xE000_0000, 0xFE00_0000);
    FourMore(7, 0xFE00_0000, 0xFFE0_0000);
    FourMore(11, 0xFFE0_0000, 0xFFFE_0000);
    FourMore(15, 0xFFFE_0000, 0xFFFF_E000);
    FourMore(19, 0xFFFF_E000, 0xFFFF_FE00);
    FourMore(23, 0xFFFF_FE00, 0xFFFF_FFE0);
    FourMore(27, 0xFFFF_FFE0, 0xFFFF_FFFE);
  }

  lemma TopBits3()
    ensures TopBits(3) == 0xE000_0000
  {
    assert TopBits(1) == 0x8000_0000;
    assert TopBits(2) == 0xC000_0000;
  }

  lemma Within(a: bv32, b: bv32)
    requires a & b == a && b & 1 == 0
    ensures a & 1 == 0
  {
  }

  lemma {:induction false} TopBitsEven(k: nat)
    requires k <= 31
    ensures TopBits(k) & 1 == 0
    decreases 31 - k
  {
    hide TopBits;
    if k == 31 {
      TopBits31();
    } else {
      TopBitsEven(k + 1);
      TopBitsGrow(k);
      Within(TopBits(k), TopBits(k + 1));
    }
  }

  // The upper k bits are zero.
  predicate Clear(r: Reg, k: nat) {
    r.w & TopBits(k) == 0
  }

  lemma ClearWord(w: bv32, t: bv32, b: bv32)
    requires w & OneMore(t) == 0 && t & 1 == 0 && b <= 1
    ensures w & 0x8000_0000 == 0 && ((w << 1) ^ b) & t == 0
  {
  }

  lemma NextWord(r: Reg, bit: bool)
    requires !Top(r)
    ensures Next(r, bit).w == (r.w << 1) ^ (if bit then 1 else 0)
  {
  }

  lemma ClearReg(r: Reg, bit: bool, t: bv32)
    requires r.w & OneMore(t) == 0 && t & 1 == 0
    ensures !Top(r) && Next(r, bit).w & t == 0
  {
    hide Next;
    ClearWord(r.w, t, if bit then 1 else 0);
    NextWord(r, bit);
  }

  lemma ClearNext(r: Reg, bit: bool, k: nat)
    requires k <= 31 && Clear(r, k + 1)
    ensures !Top(r) && Clear(Next(r, bit), k)
  {
    hide Next, Top, OneMore;
    TopBitsEven(k);
    ClearReg(r, bit, TopBits(k));
  }

  lemma {:induction false} ClearRemainder(w: seq<bool>)
    requires |w| <= 32
    ensures Clear(Remainder(Reg(0), w), 32 - |w|)
  {
    if w != [] {
      var front := w[..|w| - 1];
      ClearRemainder(front);
      ClearNext(Remainder(Reg(0), front), w[|w| - 1], 32 - |w|);
    }
  }

  lemma BitsSame(a: Reg, b: Reg, x: bool, y: bool)
    requires !Top(a) && !Top(b) && Next(a, x) == Next(b, y)
    ensures a == b && x == y
  {
    assert Next(a, x).w & 1 == 1 <==> x;
    assert Next(b, y).w & 1 == 1 <==> y;
  }

  // After nothing, at most 32 bits stand in the register as they are.
  lemma {:induction false} FittingBitsSame(w: seq<bool>, w': seq<bool>)
    requires |w| == |w'| <= 32 && Remainder(Reg(0), w) == Remainder(Reg(0), w')
    ensures w == w'
  {
    hide Clear, Top, Next, Remainder;
    if w != [] {
      var front, front', x, y := w[..|w| - 1], w'[..|w| - 1], w[|w| - 1], w'[|w| - 1];
      assert w == front + [x] && w' == front' + [y];
      RemainderNext(Reg(0), front, x);
      RemainderNext(Reg(0), front', y);
      ClearRemainder(front);
      ClearRemainder(front');
      ClearNext(Remainder(Reg(0), front), x, 32 - |w|);
      ClearNext(Remainder(Reg(0), front'), y, 32 - |w|);
      BitsSame(Remainder(Reg(0), front), Remainder(Reg(0), front'), x, y);
      FittingBitsSame(front, front');
    }
  }

  // What stood in the register before and the bits themselves add up.
  lemma {:induction false} RemainderLinear(r: Reg, w: seq<bool>)
    ensures Remainder(r, w) == Xor(Remainder(r, Zeros(|w|)), Remainder(Reg(0), w))
  {
    hide Xor, Step;
    if w == [] {
      XorZero(r);
      assert Bit(false) == Reg(0);
    } else {
      var front, n := w[..|w| - 1], |w| - 1;
      RemainderLinear(r, front);
      StepZero(r, n);
      var a, b := Remainder(r, Zeros(n)), Remainder(Reg(0), front);
      StepLinear(a, b);
      XorAssociates(Step(a), Step(b), Bit(w[n]));
    }
  }

  lemma WindowInjective(r: Reg, w: seq<bool>, w': seq<bool>)
    requires |w| == |w'| <= 32 && Remainder(r, w) == Remainder(r, w')
    ensures w == w'
  {
    hide Xor, Remainder;
    RemainderLinear(r, w);
    RemainderLinear(r, w');
    XorInjective(Remainder(r, Zeros(|w|)), Remainder(Reg(0), w), Remainder(Reg(0), w'));
    FittingBitsSame(w, w');
  }

  // ------------------------------------------------------------------- bursts

  // The same bits but for a window: w in the one, w' in the other.
  lemma BurstChanges(r: Reg, a: seq<bool>, w: seq<bool>, w': seq<bool>, z: seq<bool>)
    requires |w| == |w'| <= 32
    ensures Remainder(r, a + w + z) == Remainder(r, a + w' + z) <==> w == w'
  {
    hide Remainder;
    if Remainder(r, a + w + z) == Remainder(r, a + w' + z) {
      RemainderConcat(r, a + w, z);
      RemainderConcat(r, a + w', z);
      TailInjective(Remainder(r, a + w), Remainder(r, a + w'), z);
      RemainderConcat(r, a, w);
      RemainderConcat(r, a, w');
      WindowInjective(Remainder(r, a), w, w');
    }
  }

  // The messages differ, and only within 32 consecutive bits.
  ghost predicate Burst(x: seq<bool>, y: seq<bool>) {
    exists i, j :: 0 <= i <= j <= |x| && IsBurst(x, y, i, j)
  }

  predicate IsBurst(x: seq<bool>, y: seq<bool>, i: int, j: int)
    requires 0 <= i <= j <= |x|
  {
    |x| == |y| && j <= i + 32 && x[..i] == y[..i] && x[i..j] != y[i..j] && x[j..] == y[j..]
  }

  lemma BurstRemainder(r: Reg, x: seq<bool>, y: seq<bool>, tail: seq<bool>)
    requires Burst(x, y)
    ensures Remainder(r, x + tail) != Remainder(r, y + tail)
  {
    hide Remainder;
    var i, j :| 0 <= i <= j <= |x| && IsBurst(x, y, i, j);
    var z := x[j..] + tail;
    assert x + tail == x[..i] + x[i..j] + z;
    assert y + tail == x[..i] + y[i..j] + z;
    BurstChanges(r, x[..i], x[i..j], y[i..j], z);
  }

  // Such a change always changes the CRC.
  lemma BurstDetected(buf: seq<Byte>, buf': seq<Byte>)
    requires Burst(Bits(buf), Bits(buf'))
    ensures CrcOf(ALL_ONES, buf) != CrcOf(ALL_ONES, buf')
  {
    hide CrcOf, Remainder, Bits, Burst;
    CrcOfImage(buf);
    CrcOfImage(buf');
    BurstRemainder(PRELOAD, Bits(buf), Bits(buf'), Zeros(32));
  }

  lemma BitsEmpty()
    ensures Bits([]) == []
  {
  }

  lemma BitsSnoc(buf: seq<Byte>, b: Byte)
    ensures Bits(buf + [b]) == Bits(buf) + ByteBits(b)
  {
    hide ByteBits;
    assert (buf + [b])[..|buf|] == buf;
  }

  lemma {:induction false} BitsConcat(a: seq<Byte>, b: seq<Byte>)
    ensures Bits(a + b) == Bits(a) + Bits(b)
  {
    hide Bits, ByteBits;
    if b == [] {
      BitsEmpty();
      assert a + b == a;
    } else {
      var c, x := b[..|b| - 1], b[|b| - 1];
      BitsConcat(a, c);
      BitsSnoc(c, x);
      BitsSnoc(a + c, x);
      assert b == c + [x];
      assert a + b == a + c + [x];
    }
  }

  lemma {:induction false} BitsLength(buf: seq<Byte>)
    ensures |Bits(buf)| == 8 * |buf|
  {
    if buf != [] { BitsLength(buf[..|buf| - 1]); }
  }

  lemma ByteBitsInjective(b: Byte, b': Byte)
    requires ByteBits(b) == ByteBits(b')
    ensures b == b'
  {
    var x, y := ByteBits(b), ByteBits(b');
    assert x[0] == y[0] && x[1] == y[1] && x[2] == y[2] && x[3] == y[3];
    assert x[4] == y[4] && x[5] == y[5] && x[6] == y[6] && x[7] == y[7];
  }

  lemma {:induction false} BitsInjective(a: seq<Byte>, b: seq<Byte>)
    requires |a| == |b| && Bits(a) == Bits(b)
    ensures a == b
  {
    if a != [] {
      var n := |a| - 1;
      BitsLength(a[..n]);
      BitsLength(b[..n]);
      assert Bits(a)[..8 * n] == Bits(a[..n]) && Bits(a)[8 * n..] == ByteBits(a[n]);
      assert Bits(b)[..8 * n] == Bits(b[..n]) && Bits(b)[8 * n..] == ByteBits(b[n]);
      ByteBitsInjective(a[n], b[n]);
      BitsInjective(a[..n], b[..n]);
      assert a == a[..n] + [a[n]] && b == b[..n] + [b[n]];
    }
  }

  // A change within four consecutive bytes is such a change.
  lemma BytesAreBurst(a: seq<Byte>, w: seq<Byte>, w': seq<Byte>, z: seq<Byte>)
    requires |w| == |w'| <= 4 && w != w'
    ensures Burst(Bits(a + w + z), Bits(a + w' + z))
  {
    hide ByteBits, Bits;
    BitsConcat(a + w, z);
    BitsConcat(a, w);
    BitsConcat(a + w', z);
    BitsConcat(a, w');
    BitsLength(w);
    BitsLength(w');
    if Bits(w) == Bits(w') { BitsInjective(w, w'); }
    var x, y := Bits(a + w + z), Bits(a + w' + z);
    var i, j := |Bits(a)|, |Bits(a)| + |Bits(w)|;
    assert x[i..j] == Bits(w) && y[i..j] == Bits(w');
    assert IsBurst(x, y, i, j);
  }

  // --------------------------------------------------------- 33 bits go unseen

  const POLY_BYTES: seq<Byte> := [0x04, 0xC1, 0x1D, 0xB7]

  // The generator polynomial with its leading one.
  const GENERATOR: seq<bool> := [true] + Bits(POLY_BYTES)

  // Changes the bits that are set in p.
  function Flip(w: seq<bool>, p: seq<bool>): seq<bool>
    requires |w| == |p|
  {
    seq(|w|, i requires 0 <= i < |w| => w[i] != p[i])
  }

  lemma BitXor(x: bool, y: bool)
    ensures Bit(x != y) == Xor(Bit(x), Bit(y))
  {
  }

  lemma XorFour(a: Reg, b: Reg, c: Reg, d: Reg)
    ensures Xor(Xor(a, b), Xor(c, d)) == Xor(Xor(a, c), Xor(b, d))
  {
  }

  lemma {:induction false} FlipAdds(w: seq<bool>, p: seq<bool>)
    requires |w| == |p|
    ensures Remainder(Reg(0), Flip(w, p)) == Xor(Remainder(Reg(0), w), Remainder(Reg(0), p))
  {
    hide Xor, Step, Bit;
    if w == [] {
      XorZero(Reg(0));
      assert Reg(0) == Bit(false) by { BitZero(); }
    } else {
      var n := |w| - 1;
      FlipAdds(w[..n], p[..n]);
      assert Flip(w, p)[..n] == Flip(w[..n], p[..n]);
      var a, b := Remainder(Reg(0), w[..n]), Remainder(Reg(0), p[..n]);
      StepLinear(a, b);
      BitXor(w[n], p[n]);
      XorFour(Step(a), Step(b), Bit(w[n]), Bit(p[n]));
    }
  }

  lemma BitZero()
    ensures Bit(false) == Reg(0)
  {
  }

  lemma ByteInWord(w: bv32, b: Byte)
    requires w < 0x100_0000
    ensures ByteIn(Reg(w), b) == Xor(Shift8(Reg(w)), Reg(b))
  {
    hide ByteIn, Step8, Xor, Low, Shift8, Bit;
    BitZero();
    XorZero(Reg(w));
    ByteInLinear(Reg(w), Bit(false), b);
    ByteInZero(b);
    LowWord(w);
    Step8Low(Reg(w));
  }

  // Before anything falls out, a byte is shifted in behind the others.
  lemma OneByteMore(buf: seq<Byte>, b: Byte, w: bv32, x: bv32)
    requires Remainder(Reg(0), Bits(buf)) == Reg(w) && w < 0x100_0000 && x == (w << 8) ^ b
    ensures Remainder(Reg(0), Bits(buf + [b])) == Reg(x)
  {
    hide ByteIn, ByteBits, Bits, Remainder;
    BitsSnoc(buf, b);
    RemainderConcat(Reg(0), Bits(buf), ByteBits(b));
    RemainderByte(Reg(w), b);
    ByteInWord(w, b);
  }

  lemma LowWord(w: bv32)
    requires w < 0x100_0000
    ensures Low(Reg(w)) == Reg(w)
  {
  }

  lemma PolynomialBits()
    ensures Remainder(Reg(0), Bits(POLY_BYTES)) == Reg(POLY)
  {
    hide Bits;
    assert Bits([]) == [] by { BitsEmpty(); }
    OneByteMore([], 0x04, 0, 0x04);
    OneByteMore([] + [0x04], 0xC1, 0x04, 0x4C1);
    OneByteMore([] + [0x04] + [0xC1], 0x1D, 0x4C1, 0x4C11D);
    OneByteMore([] + [0x04] + [0xC1] + [0x1D], 0xB7, 0x4C11D, POLY);
    assert [] + [0x04] + [0xC1] + [0x1D] + [0xB7] == POLY_BYTES;
  }

  // The remainder of the generator itself is zero.
  lemma GeneratorVanishes()
    ensures |GENERATOR| == 33 && Remainder(Reg(0), GENERATOR) == Reg(0)
  {
    hide Remainder, Bits, Step8, High, Up, Table;
    BitsLength(POLY_BYTES);
    RemainderConcat(Reg(0), [true], Bits(POLY_BYTES));
    OneShiftedIn();
    RemainderLinear(Reg(1), Bits(POLY_BYTES));
    UpIsZeros(Reg(1));
    UpByte(1);
    TableIsDivision(1);
    PolynomialBits();
    assert Table(1) == POLY by { TableOfOne(); }
  }

  lemma TableOfOne()
    ensures Table(1) == POLY
  {
  }

  lemma OneShiftedIn()
    ensures Remainder(Reg(0), [true]) == Reg(1)
  {
    assert Remainder(Reg(0), [true][..0]) == Reg(0);
    assert Step(Reg(0)) == Reg(0);
  }

  // Adding the generator anywhere goes unseen: no bound beyond 32 bits holds.
  lemma GeneratorUnseen(r: Reg, a: seq<bool>, w: seq<bool>, z: seq<bool>)
    requires |w| == 33
    ensures |GENERATOR| == 33 && Flip(w, GENERATOR) != w
    ensures Remainder(r, a + Flip(w, GENERATOR) + z) == Remainder(r, a + w + z)
  {
    hide Remainder, Xor;
    GeneratorVanishes();
    var w' := Flip(w, GENERATOR);
    assert w'[0] != w[0];
    FlipAdds(w, GENERATOR);
    XorZero(Remainder(Reg(0), w));
    BitZero();
    RemainderLinear(Remainder(r, a), w);
    RemainderLinear(Remainder(r, a), w');
    RemainderConcat(r, a, w);
    RemainderConcat(r, a, w');
    RemainderConcat(r, a + w, z);
    RemainderConcat(r, a + w', z);
  }
}
