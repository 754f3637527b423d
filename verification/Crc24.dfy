/** CRC-24Q as `rtcm_framer.cpp` computes it (generator 0x1864CFB, zero start
    value, no reflection, no final exclusive-or). */
module Crc24 {
  import opened CrcTheory

  function Add(x: bv24, y: bv24): bv24 {
    x ^ y
  }

  /** Multiplication by x modulo the generator polynomial, whose low 24
      coefficients are 0x864CFB. */
  function BitStep(c: bv24): bv24 {
    if c & 0x800000 != 0 then (c << 1) ^ 0x864CFB else c << 1
  }

  function Inject(b: bv8): bv24 {
    (b as bv24) << 16
  }

  const CRC24Q: Code<bv24> := Code(Add, 0, BitStep, Inject)

  /** The bit-at-a-time CRC-24Q of a message. */
  function Crc(s: seq<bv8>): bv24 {
    Run(CRC24Q, 0, s)
  }

  /** A checksum as three bytes, most significant first, and back. */
  function Trailer(c: bv24): seq<bv8> {
    [(c >> 16) as bv8, ((c >> 8) & 0xFF) as bv8, (c & 0xFF) as bv8]
  }

  function FromTrailer(h: bv8, m: bv8, l: bv8): bv24 {
    ((h as bv24) << 16) | ((m as bv24) << 8) | (l as bv24)
  }

  lemma TrailerRoundTrip(c: bv24)
    ensures FromTrailer(Trailer(c)[0], Trailer(c)[1], Trailer(c)[2]) == c
  {
  }

  // ----- bit-level facts -----

  lemma TopBit(c: bv24)
    ensures c & 0x800000 == 0 || c & 0x800000 == 0x800000
  {
  }

  lemma XorTopBit(x: bv24, y: bv24)
    ensures (x ^ y) & 0x800000 == (x & 0x800000) ^ (y & 0x800000)
    ensures (x ^ y) << 1 == (x << 1) ^ (y << 1)
  {
  }

  lemma XorCancels(a: bv24, b: bv24, p: bv24)
    ensures (a ^ p) ^ (b ^ p) == a ^ b
    ensures (a ^ p) ^ b == (a ^ b) ^ p
    ensures a ^ (b ^ p) == (a ^ b) ^ p
  {
  }

  lemma BitStepLinear(x: bv24, y: bv24)
    ensures BitStep(Add(x, y)) == Add(BitStep(x), BitStep(y))
  {
    TopBit(x);
    TopBit(y);
    XorTopBit(x, y);
    XorCancels(x << 1, y << 1, 0x864CFB);
  }

  lemma BitStepKernel(x: bv24)
    ensures BitStep(x) == 0 <==> x == 0
  {
  }

  lemma AddCommutes(a: bv24, b: bv24)
    ensures Add(a, b) == Add(b, a)
  {
  }

  lemma Interchange(a: bv24, b: bv24, c: bv24, d: bv24)
    ensures Add(Add(a, b), Add(c, d)) == Add(Add(a, c), Add(b, d))
  {
    hide Add;
    AddAssociates(a, b, Add(c, d));
    AddAssociates(b, c, d);
    AddCommutes(b, c);
    AddAssociates(c, b, d);
    AddAssociates(a, c, Add(b, d));
  }

  lemma AddAssociates(a: bv24, b: bv24, c: bv24)
    ensures Add(a, Add(b, c)) == Add(Add(a, b), c)
  {
    hide Add;
    AddsFromRight(a, b, c);
    AddsFromLeft(a, b, c);
  }

  lemma AddsFromRight(a: bv24, b: bv24, c: bv24)
    ensures Add(a, Add(b, c)) == a ^ b ^ c
  {
  }

  lemma AddsFromLeft(a: bv24, b: bv24, c: bv24)
    ensures Add(Add(a, b), c) == a ^ b ^ c
  {
  }

  lemma InjectLinear(a: bv8, b: bv8)
    ensures ((a ^ b) as bv24) << 16 == ((a as bv24) << 16) ^ ((b as bv24) << 16)
    ensures (0 as bv24) << 16 == 0
  {
  }

  lemma InjectAddsUp(a: bv8, b: bv8)
    ensures Inject(a ^ b) == Add(Inject(a), Inject(b))
  {
    InjectLinear(a, b);
  }

  // ----- CRC-24Q is a linear, invertible code -----

  lemma CodeAddInterchanges()
    ensures AddInterchanges(CRC24Q)
  {
    hide Add;
    forall a, b, c, d
      ensures CRC24Q.add(CRC24Q.add(a, b), CRC24Q.add(c, d)) == CRC24Q.add(CRC24Q.add(a, c), CRC24Q.add(b, d))
    {
      Interchange(a, b, c, d);
    }
  }

  lemma CodeStepAdds()
    ensures StepAdds(CRC24Q)
  {
    forall a, b ensures CRC24Q.step(CRC24Q.add(a, b)) == CRC24Q.add(CRC24Q.step(a), CRC24Q.step(b)) {
      BitStepLinear(a, b);
    }
  }

  lemma CodeInjectAdds()
    ensures InjectAdds(CRC24Q)
  {
    hide Inject, Add;
    forall a, b ensures InjectAddsAt(CRC24Q, a, b) {
      InjectAddsUp(a, b);
    }
  }

  lemma CodeIsLinear()
    ensures IsLinear(CRC24Q)
  {
    CodeAddInterchanges();
    CodeStepAdds();
    CodeInjectAdds();
  }

  lemma CodeIsInvertible()
    ensures IsInvertible(CRC24Q)
  {
    forall a ensures CRC24Q.step(a) == CRC24Q.zero <==> a == CRC24Q.zero {
      BitStepKernel(a);
    }
    forall a ensures CRC24Q.add(a, CRC24Q.inject(0)) == a {
      InjectLinear(0, 0);
    }
  }

  lemma LowBitsMoveUp(b: bv8)
    ensures Inject(b) == Add(Inject(BitByte(Top(b))), Inject(b & 0x7F))
    ensures BitStep(Inject(b & 0x7F)) == Inject(Up(b))
  {
  }

  lemma CodeShiftsIn()
    ensures ShiftsIn(CRC24Q)
  {
    forall c, b ensures BitStep(Add(c, Inject(b))) == Add(BitStep(Add(c, Inject(BitByte(Top(b))))), Inject(Up(b))) {
      LowBitsMoveUp(b);
      hide Add, BitStep, Inject, BitByte, Top, Up;
      AddAssociates(c, Inject(BitByte(Top(b))), Inject(b & 0x7F));
      BitStepLinear(Add(c, Inject(BitByte(Top(b)))), Inject(b & 0x7F));
    }
  }

  lemma CodeAssociates(a: bv24, b: bv24, c: bv24)
    ensures AssociatesAt(CRC24Q, a, b, c)
  {
    AddAssociates(a, b, c);
  }

  lemma {:induction false} LowStep(x: bv24)
    requires x & 0x800000 == 0
    ensures Iterate(CRC24Q, x, 1) == x << 1
  {
    assert Iterate(CRC24Q, x, 0) == x;
  }

  lemma LowTwo(x: bv24)
    requires x & 0xC00000 == 0
    ensures x & 0x800000 == 0 && (x << 1) & 0x800000 == 0 && (x << 1) << 1 == x << 2
  {
  }

  lemma LowFour(x: bv24)
    requires x & 0xF00000 == 0
    ensures x & 0xC00000 == 0 && (x << 2) & 0xC00000 == 0 && (x << 2) << 2 == x << 4
  {
  }

  lemma LowEight(x: bv24)
    requires x & 0xFF0000 == 0
    ensures x & 0xF00000 == 0 && (x << 4) & 0xF00000 == 0 && (x << 4) << 4 == x << 8
  {
  }

  lemma {:induction false} LowTwoSteps(x: bv24)
    requires x & 0xC00000 == 0
    ensures Iterate(CRC24Q, x, 2) == x << 2
  {
    LowTwo(x);
    LowStep(x);
    LowStep(x << 1);
    IterateSplits(CRC24Q, x, 1, 1);
  }

  lemma {:induction false} LowFourSteps(x: bv24)
    requires x & 0xF00000 == 0
    ensures Iterate(CRC24Q, x, 4) == x << 4
  {
    LowFour(x);
    LowTwoSteps(x);
    LowTwoSteps(x << 2);
    IterateSplits(CRC24Q, x, 2, 2);
  }

  /** Eight steps on a register whose top byte is clear are a plain shift. */
  lemma {:induction false} LowBytesShift(x: bv24)
    requires x & 0xFF0000 == 0
    ensures Iterate(CRC24Q, x, 8) == x << 8
  {
    LowEight(x);
    LowFourSteps(x);
    LowFourSteps(x << 4);
    IterateSplits(CRC24Q, x, 4, 4);
  }

  lemma SmallShifts(b: bv8)
    ensures ((b as bv24) << 8) & 0xFF0000 == 0 && (b as bv24) & 0xFF0000 == 0
    ensures ((b as bv24) << 8) << 8 == (b as bv24) << 16
  {
  }

  /** A byte below the injection place, carried there by eight steps. */
  lemma Carried(m: bv8, l: bv8)
    ensures Iterate(CRC24Q, (m as bv24) << 8, 8) == CRC24Q.inject(m)
    ensures Iterate(CRC24Q, l as bv24, 8) == (l as bv24) << 8
  {
    SmallShifts(m);
    SmallShifts(l);
    LowBytesShift((m as bv24) << 8);
    LowBytesShift(l as bv24);
  }

  lemma AddRegroups(c: bv24, x: bv24, y: bv24, z: bv24)
    ensures Add(Add(c, x), Add(y, z)) == Add(c, Add(Add(x, y), z))
  {
    AddAssociates(c, x, Add(y, z));
    AddAssociates(x, y, z);
  }

  lemma TrailerIsSum(h: bv8, m: bv8, l: bv8)
    ensures FromTrailer(h, m, l) == Add(Add(Inject(h), (m as bv24) << 8), l as bv24)
  {
  }

  lemma AddZero(x: bv24, y: bv24)
    ensures Add(x, y) == 0 <==> x == y
  {
    AddTwice(x, y);
    AddSelf(x);
    FromZero(y);
    hide Add;
  }

  lemma AddTwice(x: bv24, y: bv24)
    ensures Add(Add(x, y), y) == x
  {
  }

  lemma AddSelf(x: bv24)
    ensures Add(x, x) == 0
  {
  }

  lemma FromZero(y: bv24)
    ensures Add(0, y) == y
  {
  }

  lemma {:induction false} ThreeBytesJoint(c: bv24, h: bv8, m: bv8, l: bv8)
    ensures Run(CRC24Q, c, [h, m, l]) == 0 <==>
            Add(Add(c, Inject(h)), Add((m as bv24) << 8, l as bv24)) == 0
  {
    CodeIsLinear();
    CodeIsInvertible();
    CodeAssociates(Absorb(CRC24Q, c, h), CRC24Q.inject(m), (l as bv24) << 8);
    Carried(m, l);
    Carried(l, l);
    ThreeKernel(CRC24Q, c, h, m, l, (m as bv24) << 8, l as bv24, (l as bv24) << 8);
  }

  /** Three bytes bring a register to zero exactly when they spell it. */
  lemma {:induction false} ThreeBytesKernel(c: bv24, h: bv8, m: bv8, l: bv8)
    ensures Run(CRC24Q, c, [h, m, l]) == 0 <==> FromTrailer(h, m, l) == c
  {
    ThreeBytesJoint(c, h, m, l);
    AddRegroups(c, Inject(h), (m as bv24) << 8, l as bv24);
    TrailerIsSum(h, m, l);
    AddZero(c, FromTrailer(h, m, l));
  }

  /** The residue theorem: a message with three bytes after it leaves the
      register at zero exactly when they are its checksum. */
  lemma Residue(s: seq<bv8>, h: bv8, m: bv8, l: bv8)
    ensures Crc(s + [h, m, l]) == 0 <==> FromTrailer(h, m, l) == Crc(s)
  {
    RunConcat(CRC24Q, 0, s, [h, m, l]);
    ThreeBytesKernel(Crc(s), h, m, l);
  }

  lemma CodeSeesThreeBytes()
    ensures SeesThreeBytes(CRC24Q)
  {
    forall h, m, l {:trigger Run(CRC24Q, CRC24Q.zero, [h, m, l])} | Run(CRC24Q, CRC24Q.zero, [h, m, l]) == CRC24Q.zero
      ensures h == 0 && m == 0 && l == 0
    {
      ThreeBytesKernel(0, h, m, l);
      TrailerIsZero(h, m, l);
    }
  }

  lemma TrailerIsZero(h: bv8, m: bv8, l: bv8)
    requires FromTrailer(h, m, l) == 0
    ensures h == 0 && m == 0 && l == 0
  {
  }

  lemma ZeroIsNeutral()
    ensures forall a :: CRC24Q.add(CRC24Q.zero, a) == a
  {
    forall a ensures CRC24Q.add(CRC24Q.zero, a) == a {
      AddZeroLeft(a);
    }
  }

  lemma AddZeroLeft(a: bv24)
    ensures Add(0, a) == a
  {
  }

  // ----- the published check value -----

  function EightBitSteps(c: bv24): bv24 {
    BitStep(BitStep(BitStep(BitStep(BitStep(BitStep(BitStep(BitStep(c))))))))
  }

  lemma {:induction false} AbsorbIsEight(c: bv24, b: bv8)
    ensures Absorb(CRC24Q, c, b) == EightBitSteps(Add(c, Inject(b)))
  {
    hide BitStep, Add, Inject;
    var x := CRC24Q.add(c, CRC24Q.inject(b));
    assert Iterate(CRC24Q, x, 0) == x && Iterate(CRC24Q, x, 1) == CRC24Q.step(x);
    assert Iterate(CRC24Q, x, 2) == CRC24Q.step(Iterate(CRC24Q, x, 1));
    assert Iterate(CRC24Q, x, 3) == CRC24Q.step(Iterate(CRC24Q, x, 2));
    assert Iterate(CRC24Q, x, 4) == CRC24Q.step(Iterate(CRC24Q, x, 3));
    assert Iterate(CRC24Q, x, 5) == CRC24Q.step(Iterate(CRC24Q, x, 4));
    assert Iterate(CRC24Q, x, 6) == CRC24Q.step(Iterate(CRC24Q, x, 5));
    assert Iterate(CRC24Q, x, 7) == CRC24Q.step(Iterate(CRC24Q, x, 6));
    assert Iterate(CRC24Q, x, 8) == CRC24Q.step(Iterate(CRC24Q, x, 7));
  }

  lemma KnownSteps()
    ensures EightBitSteps(Add(0x000000, Inject(0x31))) == 0x4FD39B
    ensures EightBitSteps(Add(0x4FD39B, Inject(0x32))) == 0xB78C91
    ensures EightBitSteps(Add(0xB78C91, Inject(0x33))) == 0x2C3045
    ensures EightBitSteps(Add(0x2C3045, Inject(0x34))) == 0x548AB0
    ensures EightBitSteps(Add(0x548AB0, Inject(0x35))) == 0x198EC0
    ensures EightBitSteps(Add(0x198EC0, Inject(0x36))) == 0xBCEFC7
    ensures EightBitSteps(Add(0xBCEFC7, Inject(0x37))) == 0x71986B
    ensures EightBitSteps(Add(0x71986B, Inject(0x38))) == 0xA60510
    ensures EightBitSteps(Add(0xA60510, Inject(0x39))) == 0xCDE703
  {
  }

  lemma {:induction false} ThreeMore(c: bv24, x: bv8, c1: bv24, y: bv8, c2: bv24, z: bv8, c3: bv24, rest: seq<bv8>)
    requires EightBitSteps(Add(c, Inject(x))) == c1
    requires EightBitSteps(Add(c1, Inject(y))) == c2 && EightBitSteps(Add(c2, Inject(z))) == c3
    ensures Run(CRC24Q, c, [x, y, z] + rest) == Run(CRC24Q, c3, rest)
  {
    hide Add, Inject, BitStep, EightBitSteps, Absorb, Run;
    RunConcat(CRC24Q, c, [x, y, z], rest);
    RunThree(CRC24Q, c, x, y, z);
    AbsorbIsEight(c, x);
    AbsorbIsEight(c1, y);
    AbsorbIsEight(c2, z);
  }

  /** The value published for the digits one to nine. */
  lemma {:induction false} CheckValue()
    ensures Crc([0x31, 0x32, 0x33] + ([0x34, 0x35, 0x36] + ([0x37, 0x38, 0x39] + []))) == 0xCDE703
  {
    hide Add, Inject, BitStep, EightBitSteps, Run;
    KnownSteps();
    var end: seq<bv8> := [];
    var last := [0x37, 0x38, 0x39] + end;
    ThreeMore(0x000000, 0x31, 0x4FD39B, 0x32, 0xB78C91, 0x33, 0x2C3045, [0x34, 0x35, 0x36] + last);
    ThreeMore(0x2C3045, 0x34, 0x548AB0, 0x35, 0x198EC0, 0x36, 0xBCEFC7, last);
    ThreeMore(0xBCEFC7, 0x37, 0x71986B, 0x38, 0xA60510, 0x39, 0xCDE703, end);
    NoBytes(0xCDE703);
  }

  lemma {:induction false} NoBytes(c: bv24)
    ensures Run(CRC24Q, c, []) == c
  {
  }
}
