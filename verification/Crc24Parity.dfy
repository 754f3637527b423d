/** CRC-24Q keeps parity: its generator has an even number of terms, so a
    multiplication by x modulo it does not change whether an odd number of
    register bits is set. */
module Crc24Parity {
  import opened CrcTheory
  import opened Crc24

  function Half(c: bv24): bv24 {
    c >> 1
  }

  function Low(c: bv24): bool {
    c & 1 != 0
  }

  const HALVER: Code<bv24> := Code(Add, 0, Half, Inject)

  /** Whether an odd number of register bits are set. */
  ghost function Odd(c: bv24): bool {
    BitsOdd(HALVER, Low, c, 24)
  }

  /** How many bits of a byte are set. */
  function BitsSet(b: bv8): nat {
    OneIf(b & 1 != 0) + OneIf(b & 2 != 0) + OneIf(b & 4 != 0) + OneIf(b & 8 != 0)
    + OneIf(b & 16 != 0) + OneIf(b & 32 != 0) + OneIf(b & 64 != 0) + OneIf(b & 128 != 0)
  }

  function OneIf(bit: bool): nat {
    if bit then 1 else 0
  }

  predicate OddByte(b: bv8) {
    BitsSet(b) % 2 == 1
  }

  lemma HalfAdds(c: bv24, d: bv24)
    ensures Half(Add(c, d)) == Add(Half(c), Half(d))
    ensures Low(Add(c, d)) == (Low(c) != Low(d))
  {
    hide Half, Low, Add;
    HalfOfSum(c, d);
    LowOfSum(c, d);
  }

  lemma HalfOfSum(c: bv24, d: bv24)
    ensures Half(Add(c, d)) == Add(Half(c), Half(d))
  {
    assert (c ^ d) >> 1 == (c >> 1) ^ (d >> 1);
  }

  lemma LowOfSum(c: bv24, d: bv24)
    ensures Low(Add(c, d)) == (Low(c) != Low(d))
  {
    assert (c ^ d) & 1 == (c & 1) ^ (d & 1);
  }

  lemma HalverAdds()
    ensures StepAdds(HALVER)
  {
    forall a, b ensures HALVER.step(HALVER.add(a, b)) == HALVER.add(HALVER.step(a), HALVER.step(b)) {
      HalfAdds(a, b);
    }
  }

  lemma LowAdds()
    ensures forall a, b :: Low(HALVER.add(a, b)) == (Low(a) != Low(b))
  {
    forall a, b ensures Low(HALVER.add(a, b)) == (Low(a) != Low(b)) {
      HalfAdds(a, b);
    }
  }

  lemma OddAdds(c: bv24, d: bv24)
    ensures Odd(Add(c, d)) == (Odd(c) != Odd(d))
  {
    HalverAdds();
    LowAdds();
    BitsOddAdds(HALVER, Low, c, d, 24);
  }

  lemma {:induction false} HalveOnce(c: bv24)
    ensures Iterate(HALVER, c, 1) == c >> 1
  {
    assert Iterate(HALVER, c, 0) == c;
  }

  lemma {:induction false} HalveTwice(c: bv24)
    ensures Iterate(HALVER, c, 2) == c >> 2
  {
    HalveOnce(c);
    HalveOnce(c >> 1);
    IterateSplits(HALVER, c, 1, 1);
  }

  lemma {:induction false} HalveFourTimes(c: bv24)
    ensures Iterate(HALVER, c, 4) == c >> 4
  {
    HalveTwice(c);
    HalveTwice(c >> 2);
    IterateSplits(HALVER, c, 2, 2);
  }

  lemma {:induction false} HalveEightTimes(c: bv24)
    ensures Iterate(HALVER, c, 8) == c >> 8
  {
    HalveFourTimes(c);
    HalveFourTimes(c >> 4);
    IterateSplits(HALVER, c, 4, 4);
  }

  lemma NothingAbove(c: bv24)
    ensures ((c >> 8) >> 8) >> 8 == 0
  {
  }

  lemma {:induction false} HalvedAway(c: bv24)
    ensures Iterate(HALVER, c, 24) == 0
  {
    HalveEightTimes(c);
    HalveEightTimes(c >> 8);
    HalveEightTimes((c >> 8) >> 8);
    IterateSplits(HALVER, c, 8, 8);
    IterateSplits(HALVER, c, 16, 8);
    NothingAbove(c);
  }

  lemma LowBitsOfByte(b: bv8)
    ensures Low(b as bv24) == (b & 1 != 0) && Low((b as bv24) >> 1) == (b & 2 != 0)
    ensures Low((b as bv24) >> 2) == (b & 4 != 0) && Low(((b as bv24) >> 2) >> 1) == (b & 8 != 0)
  {
  }

  lemma HighBitsOfByte(b: bv8)
    ensures Low((b as bv24) >> 4) == (b & 16 != 0) && Low(((b as bv24) >> 4) >> 1) == (b & 32 != 0)
    ensures Low(((b as bv24) >> 4) >> 2) == (b & 64 != 0) && Low((((b as bv24) >> 4) >> 2) >> 1) == (b & 128 != 0)
    ensures (b as bv24) >> 8 == 0
  {
  }

  lemma FirstBits(c: bv24)
    ensures BitsOdd(HALVER, Low, c, 4) == (((Low(c) != Low(c >> 1)) != Low(c >> 2)) != Low((c >> 2) >> 1))
  {
    hide Low;
    HalveOnce(c);
    HalveTwice(c);
    HalveOnce(c >> 2);
    IterateSplits(HALVER, c, 2, 1);
    assert BitsOdd(HALVER, Low, c, 1) == Low(c);
    assert BitsOdd(HALVER, Low, c, 2) == (Low(c) != Low(c >> 1));
    assert BitsOdd(HALVER, Low, c, 3) == ((Low(c) != Low(c >> 1)) != Low(c >> 2));
  }

  /** Four bits of a byte. */
  function OddNibble(b0: bool, b1: bool, b2: bool, b3: bool): bool {
    ((b0 != b1) != b2) != b3
  }

  lemma OddByteNibbles(b: bv8)
    ensures OddByte(b) == (OddNibble(b & 1 != 0, b & 2 != 0, b & 4 != 0, b & 8 != 0)
                           != OddNibble(b & 16 != 0, b & 32 != 0, b & 64 != 0, b & 128 != 0))
  {
  }

  lemma HalvingZero()
    ensures HALVER.step(HALVER.zero) == HALVER.zero && !Low(HALVER.zero)
  {
  }

  lemma ByteRegister(c: bv24)
    requires c >> 8 == 0
    ensures Odd(c) == (BitsOdd(HALVER, Low, c, 4) != BitsOdd(HALVER, Low, c >> 4, 4))
  {
    HalveFourTimes(c);
    HalveEightTimes(c);
    BitsOddSplits(HALVER, Low, c, 4, 4);
    HalvingZero();
    BitsOddStops(HALVER, Low, c, 8, 16);
  }

  /** A byte in the lowest place. */
  lemma OddOfByte(b: bv8)
    ensures Odd(b as bv24) == OddByte(b)
  {
    var c := b as bv24;
    LowBitsOfByte(b);
    HighBitsOfByte(b);
    FirstBits(c);
    FirstBits(c >> 4);
    ByteRegister(c);
    OddByteNibbles(b);
  }

  lemma DoubleFacts(c: bv24)
    requires c & 0x800000 == 0
    ensures Half(c << 1) == c && !Low(c << 1)
  {
  }

  lemma OddDouble(c: bv24)
    requires c & 0x800000 == 0
    ensures Odd(c << 1) == Odd(c)
  {
    DoubleFacts(c);
    BitsOddDoubled(HALVER, Low, c << 1, 24);
    HalvedAway(c << 1);
    HalvingZero();
    BitsOddStops(HALVER, Low, c << 1, 24, 1);
  }

  lemma OddFourfold(c: bv24)
    requires c & 0xC00000 == 0
    ensures Odd(c << 2) == Odd(c)
  {
    LowTwo(c);
    OddDouble(c);
    OddDouble(c << 1);
  }

  lemma OddSixteenfold(c: bv24)
    requires c & 0xF00000 == 0
    ensures Odd(c << 4) == Odd(c)
  {
    LowFour(c);
    OddFourfold(c);
    OddFourfold(c << 2);
  }

  lemma OddByteUp(c: bv24)
    requires c & 0xFF0000 == 0
    ensures Odd(c << 8) == Odd(c)
  {
    LowEight(c);
    OddSixteenfold(c);
    OddSixteenfold(c << 4);
  }

  lemma OddOfInject(b: bv8)
    ensures Odd(Inject(b)) == OddByte(b) && Odd((b as bv24) << 8) == OddByte(b)
  {
    OddOfByte(b);
    SmallShifts(b);
    OddByteUp(b as bv24);
    OddByteUp((b as bv24) << 8);
  }

  lemma GeneratorBytes()
    ensures FromTrailer(0x86, 0x4C, 0xFB) == 0x864CFB && Inject(0x80) == 0x800000
    ensures OddByte(0x86) && OddByte(0x4C) && OddByte(0xFB) && OddByte(0x80)
  {
  }

  /** Besides its leading term, the generator has an odd number of terms. */
  lemma OddGenerator()
    ensures Odd(0x864CFB) && Odd(0x800000)
  {
    GeneratorBytes();
    TrailerIsSum(0x86, 0x4C, 0xFB);
    OddOfInject(0x86);
    OddOfInject(0x4C);
    OddOfByte(0xFB);
    OddOfInject(0x80);
    OddAdds(Inject(0x86), (0x4C as bv24) << 8);
    OddAdds(Add(Inject(0x86), (0x4C as bv24) << 8), 0xFB as bv24);
  }

  /** A register without its top bit. */
  function WithoutTop(c: bv24): bv24 {
    c & 0x7FFFFF
  }

  lemma TopSplits(c: bv24)
    requires c & 0x800000 != 0
    ensures WithoutTop(c) & 0x800000 == 0 && c == Add(WithoutTop(c), 0x800000)
  {
  }

  lemma TopIsShiftedOut(c: bv24)
    ensures c << 1 == WithoutTop(c) << 1
  {
  }

  lemma OddStepWithTop(c: bv24)
    requires c & 0x800000 != 0
    ensures Odd(Add(c << 1, 0x864CFB)) == Odd(c)
  {
    var d := WithoutTop(c);
    TopSplits(c);
    TopIsShiftedOut(c);
    OddDouble(d);
    OddGenerator();
    OddAdds(d, 0x800000);
    OddAdds(c << 1, 0x864CFB);
  }

  lemma OddStep(c: bv24)
    ensures Odd(BitStep(c)) == Odd(c)
  {
    if c & 0x800000 != 0 {
      OddStepWithTop(c);
    } else {
      OddDouble(c);
    }
  }

  lemma CodeKeepsParity()
    ensures KeepsParity(CRC24Q, Odd, OddByte) && !Odd(CRC24Q.zero)
  {
    forall a, b ensures Odd(CRC24Q.add(a, b)) == (Odd(a) != Odd(b)) {
      OddAdds(a, b);
    }
    forall a ensures Odd(CRC24Q.step(a)) == Odd(a) {
      OddStep(a);
    }
    forall b ensures Odd(CRC24Q.inject(b)) == OddByte(b) {
      OddOfInject(b);
    }
    OddOfByte(0);
  }
}
