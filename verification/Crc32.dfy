/** The two 32-bit CRCs of the receiver driver.  Both use the reflected
    generator 0xEDB88320; `command_builder.cpp` starts from all ones and
    complements the result (section 8 of RFC 1952), `unicore_parser.cpp` starts
    from zero and does not. */
module Crc32 {
  import opened CrcTheory

  function Add(x: bv32, y: bv32): bv32 {
    x ^ y
  }

  /** One bit step of the reflected register. */
  function BitStep(c: bv32): bv32 {
    if c & 1 != 0 then 0xEDB88320 ^ (c >> 1) else c >> 1
  }

  function Inject(b: bv8): bv32 {
    b as bv32
  }

  const CRC32: Code<bv32> := Code(Add, 0, BitStep, Inject)
  const ONES: bv32 := 0xFFFFFFFF

  /** The CRC of received messages. */
  function Message(s: seq<bv8>): bv32 {
    Run(CRC32, 0, s)
  }

  /** The CRC of RFC 1952. */
  function Zlib(s: seq<bv8>): bv32 {
    Add(Run(CRC32, ONES, s), ONES)
  }

  // ----- bit-level facts -----

  lemma AddAssociates(a: bv32, b: bv32, c: bv32)
    ensures Add(a, Add(b, c)) == Add(Add(a, b), c)
  {
    hide Add;
    AddsFromRight(a, b, c);
    AddsFromLeft(a, b, c);
  }

  lemma AddsFromRight(a: bv32, b: bv32, c: bv32)
    ensures Add(a, Add(b, c)) == a ^ b ^ c
  {
  }

  lemma AddsFromLeft(a: bv32, b: bv32, c: bv32)
    ensures Add(Add(a, b), c) == a ^ b ^ c
  {
  }

  lemma AddCommutes(a: bv32, b: bv32)
    ensures Add(a, b) == Add(b, a)
  {
  }

  lemma AddCancels(a: bv32)
    ensures Add(a, a) == 0 && Add(a, 0) == a && Add(0, a) == a
  {
  }

  lemma Interchange(a: bv32, b: bv32, c: bv32, d: bv32)
    ensures Add(Add(a, b), Add(c, d)) == Add(Add(a, c), Add(b, d))
  {
    hide Add;
    AddAssociates(a, b, Add(c, d));
    AddAssociates(b, c, d);
    AddCommutes(b, c);
    AddAssociates(c, b, d);
    AddAssociates(a, c, Add(b, d));
  }

  function Half(c: bv32): bv32 {
    c >> 1
  }

  function Low(c: bv32): bool {
    c & 1 != 0
  }

  lemma BitStepSplits(c: bv32)
    ensures BitStep(c) == if Low(c) then Add(0xEDB88320, Half(c)) else Half(c)
  {
  }

  lemma HalfAdds(x: bv32, y: bv32)
    ensures Half(Add(x, y)) == Add(Half(x), Half(y))
    ensures Low(Add(x, y)) == (Low(x) != Low(y))
  {
    HalfAlone(x, y);
    LowAlone(x, y);
  }

  lemma HalfAlone(x: bv32, y: bv32)
    ensures Half(Add(x, y)) == Add(Half(x), Half(y))
  {
    assert Half(x ^ y) == Add(x >> 1, y >> 1);
  }

  lemma LowAlone(x: bv32, y: bv32)
    ensures Low(Add(x, y)) == (Low(x) != Low(y))
  {
  }

  lemma BitStepLinear(x: bv32, y: bv32)
    ensures BitStep(Add(x, y)) == Add(BitStep(x), BitStep(y))
  {
    hide BitStep, Add, Half, Low;
    var p: bv32 := 0xEDB88320;
    var hx, hy := Half(x), Half(y);
    BitStepSplits(x);
    BitStepSplits(y);
    BitStepSplits(Add(x, y));
    HalfAdds(x, y);
    Interchange(p, hx, p, hy);
    AddCancels(p);
    AddCancels(Add(hx, hy));
    AddAssociates(p, hx, hy);
    AddAssociates(hx, p, hy);
    AddCommutes(hx, p);
  }

  lemma InjectAddsUp(a: bv8, b: bv8)
    ensures Inject(a ^ b) == Add(Inject(a), Inject(b))
  {
  }

  lemma CodeStepAdds()
    ensures StepAdds(CRC32)
  {
    hide BitStep, Add;
    forall a, b ensures CRC32.step(CRC32.add(a, b)) == CRC32.add(CRC32.step(a), CRC32.step(b)) {
      BitStepLinear(a, b);
    }
  }

  lemma CodeAddInterchanges()
    ensures AddInterchanges(CRC32)
  {
    hide Add;
    forall a, b, c, d
      ensures CRC32.add(CRC32.add(a, b), CRC32.add(c, d)) == CRC32.add(CRC32.add(a, c), CRC32.add(b, d))
    {
      Interchange(a, b, c, d);
    }
  }

  lemma CodeInjectAdds()
    ensures InjectAdds(CRC32)
  {
    hide Inject, Add;
    forall a, b ensures InjectAddsAt(CRC32, a, b) {
      InjectAddsUp(a, b);
    }
  }

  lemma CodeIsLinear()
    ensures IsLinear(CRC32)
  {
    CodeAddInterchanges();
    CodeStepAdds();
    CodeInjectAdds();
  }

  // ----- the two conventions agree on differences -----

  /** The register of the sum of two messages, from the sum of two start values. */
  lemma {:induction false} RunAdds(c: bv32, d: bv32, a: seq<bv8>, b: seq<bv8>)
    requires |a| == |b|
    ensures Run(CRC32, Add(c, d), Xor(a, b)) == Add(Run(CRC32, c, a), Run(CRC32, d, b))
  {
    hide Add, BitStep, Inject, IsLinear, AbsorbsLinearly;
    CodeIsLinear();
    AbsorbLinear(CRC32);
    RunLinear(CRC32, c, d, a, b);
  }

  /** For messages of one length, the two CRCs of a pair differ by the same word:
      the start value and the final complement cancel. */
  lemma DifferencesAgree(a: seq<bv8>, b: seq<bv8>)
    requires |a| == |b|
    ensures Add(Zlib(a), Zlib(b)) == Add(Message(a), Message(b)) == Message(Xor(a, b))
  {
    hide Add, BitStep, Inject;
    var x, y := Run(CRC32, ONES, a), Run(CRC32, ONES, b);
    RunAdds(ONES, ONES, a, b);
    RunAdds(0, 0, a, b);
    AddCancels(ONES);
    AddCancels(0);
    Interchange(x, ONES, y, ONES);
    AddCancels(Add(x, y));
  }

  // ----- the table -----

  lemma RightTwo(x: bv32)
    requires x & 3 == 0
    ensures !Low(x) && !Low(Half(x)) && Half(Half(x)) == x >> 2
  {
  }

  lemma RightFour(x: bv32)
    requires x & 15 == 0
    ensures x & 3 == 0 && (x >> 2) & 3 == 0 && (x >> 2) >> 2 == x >> 4
  {
  }

  lemma RightEight(x: bv32)
    requires x & 0xFF == 0
    ensures x & 15 == 0 && (x >> 4) & 15 == 0 && (x >> 4) >> 4 == x >> 8
  {
  }

  lemma {:induction false} OneStep(x: bv32)
    requires !Low(x)
    ensures Iterate(CRC32, x, 1) == Half(x)
  {
    hide BitStep, Half, Low, Add;
    BitStepSplits(x);
    assert Iterate(CRC32, x, 0) == x;
    assert CRC32.step(x) == BitStep(x);
  }

  lemma {:induction false} TwoSteps(x: bv32)
    requires x & 3 == 0
    ensures Iterate(CRC32, x, 2) == x >> 2
  {
    RightTwo(x);
    OneStep(x);
    OneStep(Half(x));
    IterateSplits(CRC32, x, 1, 1);
  }

  lemma {:induction false} FourSteps(x: bv32)
    requires x & 15 == 0
    ensures Iterate(CRC32, x, 4) == x >> 4
  {
    RightFour(x);
    TwoSteps(x);
    TwoSteps(x >> 2);
    IterateSplits(CRC32, x, 2, 2);
  }

  /** Eight steps on a register whose low byte is clear are a plain shift. */
  lemma {:induction false} EightSteps(x: bv32)
    requires x & 0xFF == 0
    ensures Iterate(CRC32, x, 8) == x >> 8
  {
    RightEight(x);
    FourSteps(x);
    FourSteps(x >> 4);
    IterateSplits(CRC32, x, 4, 4);
  }

  /** What the table holds for a byte. */
  function Entry(b: bv8): bv32 {
    Iterate(CRC32, Inject(b), 8)
  }

  function Index(c: bv32, b: bv8): bv8 {
    ((c ^ (b as bv32)) & 0xFF) as bv8
  }

  function Fold(c: bv32, entry: bv32): bv32 {
    entry ^ (c >> 8)
  }

  function HighBytes(c: bv32): bv32 {
    c & 0xFFFFFF00
  }

  lemma LowByteSplits(c: bv32, b: bv8)
    ensures Add(c, Inject(b)) == Add(Inject(Index(c, b)), HighBytes(c))
  {
  }

  lemma HighBytesShift(c: bv32, entry: bv32)
    ensures HighBytes(c) & 0xFF == 0
    ensures Fold(c, entry) == Add(entry, HighBytes(c) >> 8)
  {
  }

  lemma LookUp(c: bv32, b: bv8)
    ensures Fold(c, Entry(Index(c, b))) == Absorb(CRC32, c, b)
  {
    hide Fold, Index, HighBytes, Inject, Add, BitStep, StepAdds;
    var i := Index(c, b);
    LowByteSplits(c, b);
    HighBytesShift(c, Entry(i));
    CodeStepAdds();
    IterateLinear(CRC32, Inject(i), HighBytes(c), 8);
    EightSteps(HighBytes(c));
    assert CRC32.add(c, CRC32.inject(b)) == Add(c, Inject(b));
  }

  lemma IndexRoundTrip(b: bv8)
    ensures 0 <= b as int < 256 && (b as int) as bv8 == b
  {
  }

  lemma WordOfIndex(i: int)
    requires 0 <= i < 256
    ensures i as bv32 == Inject(i as bv8)
  {
  }

  // ----- what the CRC catches -----

  lemma StepKernel(x: bv32)
    ensures BitStep(x) == 0 <==> x == 0
  {
  }

  lemma NothingInjected(a: bv32)
    ensures Add(a, Inject(0)) == a
  {
  }

  lemma CodeIsInvertible()
    ensures IsInvertible(CRC32)
  {
    forall a ensures CRC32.step(a) == CRC32.zero <==> a == CRC32.zero { StepKernel(a); }
    forall a ensures CRC32.add(a, CRC32.inject(0)) == a { NothingInjected(a); }
  }

  /** A byte that further eight steps bring into the injection place. */
  function Ahead(x: bv32): bv32 {
    x << 8
  }

  lemma AheadComesDown(x: bv32)
    requires x & 0xFF000000 == 0
    ensures Ahead(x) & 0xFF == 0 && Ahead(x) >> 8 == x
  {
  }

  lemma ByteRoom(b: bv8)
    ensures Inject(b) & 0xFF000000 == 0 && Ahead(Inject(b)) & 0xFF000000 == 0
    ensures Ahead(Ahead(Inject(b))) & 0xFF000000 == 0
  {
  }

  lemma {:induction false} AheadSteps(x: bv32)
    requires x & 0xFF000000 == 0
    ensures Iterate(CRC32, Ahead(x), 8) == x
  {
    AheadComesDown(x);
    EightSteps(Ahead(x));
  }

  /** Four bytes as one word, the first lowest. */
  function WordOf(b0: bv8, b1: bv8, b2: bv8, b3: bv8): bv32 {
    Add(Add(Add(Inject(b0), Ahead(Inject(b1))), Ahead(Ahead(Inject(b2)))), Ahead(Ahead(Ahead(Inject(b3)))))
  }

  lemma WordIsZero(b0: bv8, b1: bv8, b2: bv8, b3: bv8)
    ensures WordOf(b0, b1, b2, b3) == 0 ==> b0 == 0 && b1 == 0 && b2 == 0 && b3 == 0
  {
  }

  lemma {:induction false} Later(x: bv32, y: bv32)
    requires Iterate(CRC32, y, 8) == x
    ensures Iterate(CRC32, y, 16) == Iterate(CRC32, x, 8) && Iterate(CRC32, y, 24) == Iterate(CRC32, x, 16)
  {
    IterateSplits(CRC32, y, 8, 8);
    IterateSplits(CRC32, y, 8, 16);
  }

  /** Feeding four bytes steps their word. */
  lemma {:induction false} FourBytesAtOnce(b0: bv8, b1: bv8, b2: bv8, b3: bv8)
    ensures Run(CRC32, 0, [b0, b1, b2, b3]) == Iterate(CRC32, WordOf(b0, b1, b2, b3), 32)
  {
    hide Add, BitStep, Inject, Ahead, Absorb, Run, StepAdds;
    ByteRoom(b1);
    ByteRoom(b2);
    ByteRoom(b3);
    var x1, x2, x3 := Inject(b1), Inject(b2), Inject(b3);
    AheadSteps(x1);
    AheadSteps(x2);
    AheadSteps(Ahead(x2));
    AheadSteps(x3);
    AheadSteps(Ahead(x3));
    AheadSteps(Ahead(Ahead(x3)));
    var w1 := Add(Inject(b0), Ahead(x1));
    var w2 := Add(w1, Ahead(Ahead(x2)));
    var w3 := Add(w2, Ahead(Ahead(Ahead(x3))));
    FirstByte(b0);
    NextByte(Inject(b0), Ahead(x1), b1, 0);
    Later(x2, Ahead(x2));
    Later(Ahead(x2), Ahead(Ahead(x2)));
    NextByte(w1, Ahead(Ahead(x2)), b2, 8);
    Later(x3, Ahead(x3));
    Later(Ahead(x3), Ahead(Ahead(x3)));
    Later(Ahead(Ahead(x3)), Ahead(Ahead(Ahead(x3))));
    NextByte(w2, Ahead(Ahead(Ahead(x3))), b3, 16);
    RunFour(b0, b1, b2, b3);
  }

  lemma {:induction false} FirstByte(b: bv8)
    ensures Absorb(CRC32, 0, b) == Iterate(CRC32, Inject(b), 8)
  {
    AddCancels(Inject(b));
  }

  /** One more byte, from a register that has taken `n` + 8 steps. */
  lemma {:induction false} NextByte(w: bv32, x: bv32, b: bv8, n: nat)
    requires Iterate(CRC32, x, n + 8) == Inject(b)
    ensures Absorb(CRC32, Iterate(CRC32, w, n + 8), b) == Iterate(CRC32, Add(w, x), n + 16)
  {
    hide Add, BitStep, Inject, StepAdds;
    CodeStepAdds();
    IterateLinear(CRC32, w, x, n + 8);
    IterateSplits(CRC32, Add(w, x), n + 8, 8);
    assert CRC32.add(Iterate(CRC32, w, n + 8), CRC32.inject(b)) == Add(Iterate(CRC32, w, n + 8), Inject(b));
  }

  lemma {:induction false} RunFour(b0: bv8, b1: bv8, b2: bv8, b3: bv8)
    ensures Run(CRC32, 0, [b0, b1, b2, b3]) ==
            Absorb(CRC32, Absorb(CRC32, Absorb(CRC32, Absorb(CRC32, 0, b0), b1), b2), b3)
  {
    hide Absorb;
    RunCons(CRC32, 0, b0, [b1, b2, b3]);
    assert [b0] + [b1, b2, b3] == [b0, b1, b2, b3];
    RunThree(CRC32, Absorb(CRC32, 0, b0), b1, b2, b3);
  }

  /** Four bytes bring the zero register back to zero only if all are zero. */
  lemma {:induction false} FourBytesKernel(b0: bv8, b1: bv8, b2: bv8, b3: bv8)
    ensures Run(CRC32, 0, [b0, b1, b2, b3]) == 0 ==> b0 == 0 && b1 == 0 && b2 == 0 && b3 == 0
  {
    hide WordOf, BitStep, Run;
    FourBytesAtOnce(b0, b1, b2, b3);
    CodeIsInvertible();
    IterateKernel(CRC32, WordOf(b0, b1, b2, b3), 32);
    WordIsZero(b0, b1, b2, b3);
  }

  /** Nor do fewer. */
  lemma {:induction false} ShortKernel(w: seq<bv8>, k: nat)
    requires k < |w| <= 4 && w[k] != 0
    ensures Run(CRC32, 0, w) != 0
  {
    hide Run;
    CodeIsInvertible();
    var zeros: seq<bv8> := seq(4 - |w|, _ => 0);
    StretchKernel(CRC32, [], w, zeros);
    var v := w + zeros;
    assert [] + w + zeros == v == [v[0], v[1], v[2], v[3]] && v[k] == w[k];
    FourBytesKernel(v[0], v[1], v[2], v[3]);
  }

  /** Every change of a message within four consecutive bytes changes both CRCs. */
  lemma {:induction false} FourByteChangeDetected(f: seq<bv8>, g: seq<bv8>, i: nat)
    requires |f| == |g| && i <= |f| && f != g
    requires forall j :: 0 <= j < |f| && !(i <= j < i + 4) ==> f[j] == g[j]
    ensures Message(f) != Message(g) && Zlib(f) != Zlib(g)
  {
    hide Run;
    var e, n := Xor(f, g), if i + 4 <= |f| then i + 4 else |f|;
    forall j | 0 <= j < |f| ensures e[j] == 0 <==> f[j] == g[j] { XorZero(f[j], g[j]); }
    assert e == e[..i] + e[i..n] + e[n..];
    CodeIsInvertible();
    StretchKernel(CRC32, e[..i], e[i..n], e[n..]);
    var j :| 0 <= j < |f| && f[j] != g[j];
    assert e[i..n][j - i] == e[j];
    ShortKernel(e[i..n], j - i);
    DifferencesAgree(f, g);
    hide Zlib, Message;
    AddCancels(Message(f));
    AddCancels(Zlib(f));
  }

  // ----- the published check value -----

  function EightBitSteps(c: bv32): bv32 {
    BitStep(BitStep(BitStep(BitStep(BitStep(BitStep(BitStep(BitStep(c))))))))
  }

  lemma {:induction false} AbsorbIsEight(c: bv32, b: bv8)
    ensures Absorb(CRC32, c, b) == EightBitSteps(Add(c, Inject(b)))
  {
    hide BitStep, Add, Inject;
    var x := CRC32.add(c, CRC32.inject(b));
    assert Iterate(CRC32, x, 0) == x && Iterate(CRC32, x, 1) == CRC32.step(x);
    assert Iterate(CRC32, x, 2) == CRC32.step(Iterate(CRC32, x, 1));
    assert Iterate(CRC32, x, 3) == CRC32.step(Iterate(CRC32, x, 2));
    assert Iterate(CRC32, x, 4) == CRC32.step(Iterate(CRC32, x, 3));
    assert Iterate(CRC32, x, 5) == CRC32.step(Iterate(CRC32, x, 4));
    assert Iterate(CRC32, x, 6) == CRC32.step(Iterate(CRC32, x, 5));
    assert Iterate(CRC32, x, 7) == CRC32.step(Iterate(CRC32, x, 6));
    assert Iterate(CRC32, x, 8) == CRC32.step(Iterate(CRC32, x, 7));
  }

  lemma KnownSteps()
    ensures EightBitSteps(Add(0xFFFFFFFF, Inject(0x31))) == 0x7C231048
    ensures EightBitSteps(Add(0x7C231048, Inject(0x32))) == 0xB0ACBB32
    ensures EightBitSteps(Add(0xB0ACBB32, Inject(0x33))) == 0x77B79C2D
    ensures EightBitSteps(Add(0x77B79C2D, Inject(0x34))) == 0x641C1F5C
    ensures EightBitSteps(Add(0x641C1F5C, Inject(0x35))) == 0x340AC5E3
    ensures EightBitSteps(Add(0x340AC5E3, Inject(0x36))) == 0xF68D2C9E
    ensures EightBitSteps(Add(0xF68D2C9E, Inject(0x37))) == 0xAFFC9660
    ensures EightBitSteps(Add(0xAFFC9660, Inject(0x38))) == 0x651F2550
    ensures EightBitSteps(Add(0x651F2550, Inject(0x39))) == 0x340BC6D9
  {
  }

  lemma {:induction false} ThreeMore(c: bv32, x: bv8, c1: bv32, y: bv8, c2: bv32, z: bv8, c3: bv32, rest: seq<bv8>)
    requires EightBitSteps(Add(c, Inject(x))) == c1
    requires EightBitSteps(Add(c1, Inject(y))) == c2 && EightBitSteps(Add(c2, Inject(z))) == c3
    ensures Run(CRC32, c, [x, y, z] + rest) == Run(CRC32, c3, rest)
  {
    hide Add, Inject, BitStep, EightBitSteps, Absorb, Run;
    RunConcat(CRC32, c, [x, y, z], rest);
    RunThree(CRC32, c, x, y, z);
    AbsorbIsEight(c, x);
    AbsorbIsEight(c1, y);
    AbsorbIsEight(c2, z);
  }

  /** The value published for the digits one to nine. */
  lemma {:induction false} CheckValue()
    ensures Zlib([0x31, 0x32, 0x33] + ([0x34, 0x35, 0x36] + ([0x37, 0x38, 0x39] + []))) == 0xCBF43926
  {
    hide Add, Inject, BitStep, EightBitSteps, Run;
    KnownSteps();
    Complement();
    var end: seq<bv8> := [];
    var last := [0x37, 0x38, 0x39] + end;
    ThreeMore(0xFFFFFFFF, 0x31, 0x7C231048, 0x32, 0xB0ACBB32, 0x33, 0x77B79C2D, [0x34, 0x35, 0x36] + last);
    ThreeMore(0x77B79C2D, 0x34, 0x641C1F5C, 0x35, 0x340AC5E3, 0x36, 0xF68D2C9E, last);
    ThreeMore(0xF68D2C9E, 0x37, 0xAFFC9660, 0x38, 0x651F2550, 0x39, 0x340BC6D9, end);
    NoBytes(0x340BC6D9);
  }

  lemma Complement()
    ensures Add(0x340BC6D9, ONES) == 0xCBF43926
  {
  }

  lemma {:induction false} NoBytes(c: bv32)
    ensures Run(CRC32, c, []) == c
  {
  }

  // ----- the algorithms -----

  /** Eight passes of the bit loop. */
  method StepEight(start: bv32) returns (c: bv32)
    ensures c == Iterate(CRC32, start, 8)
  {
    hide BitStep;
    c := start;
    for k := 0 to 8
      invariant c == Iterate(CRC32, start, k)
    {
      c := BitStep(c);
      assert c == CRC32.step(Iterate(CRC32, start, k));
    }
  }

  method MakeTable() returns (t: array<bv32>)
    ensures fresh(t) && t.Length == 256
    ensures forall i :: 0 <= i < 256 ==> t[i] == Entry(i as bv8)
  {
    hide Entry;
    t := new bv32[256];
    for i := 0 to 256
      invariant forall j :: 0 <= j < i ==> t[j] == Entry(j as bv8)
    {
      var c := TableEntry(i);
      t[i] := c;
    }
  }

  method TableEntry(i: int) returns (c: bv32)
    requires 0 <= i < 256
    ensures c == Entry(i as bv8)
  {
    hide Inject, BitStep;
    WordOfIndex(i);
    c := StepEight(i as bv32);
  }

  /** `unicore_crc32`: table-driven, start and final complement of all ones. */
  method UnicoreCrc32(data: seq<bv8>) returns (crc: bv32)
    ensures crc == Zlib(data)
  {
    hide Entry, Index, Fold, Inject, Add, BitStep, ONES;
    var t := MakeTable();
    var c := ONES;
    for i := 0 to |data|
      invariant c == Run(CRC32, ONES, data[..i])
      modifies {}
    {
      var idx := Index(c, data[i]);
      IndexRoundTrip(idx);
      LookUp(c, data[i]);
      RunSnoc(CRC32, ONES, data, i);
      c := Fold(c, t[idx as int]);
    }
    assert data[..|data|] == data;
    crc := Add(c, ONES);
  }

  /** `unicore_message_crc32`: bit by bit from zero. */
  method UnicoreMessageCrc32(data: seq<bv8>) returns (crc: bv32)
    ensures crc == Message(data)
  {
    hide Inject, Add, BitStep;
    crc := 0;
    for i := 0 to |data|
      invariant crc == Run(CRC32, 0, data[..i])
    {
      RunSnoc(CRC32, 0, data, i);
      crc := StepEight(Add(crc, Inject(data[i])));
    }
    assert data[..|data|] == data;
  }
}
