/** The table-driven CRC-24Q of `rtcm_framer.cpp`, on 32-bit words, proved equal
    to the bit-at-a-time form. */
module Crc24Table {
  import opened CrcTheory
  import opened Crc24

  /** What the table holds for a byte: that byte after eight steps. */
  function Entry(b: bv8): bv24 {
    Iterate(CRC24Q, Inject(b), 8)
  }

  function Widen(c: bv24): bv32 {
    c as bv32
  }

  /** The body of the table's bit loop: shift, and reduce when bit 24 came up. */
  function ShiftAndReduce(crc: bv32): bv32 {
    if (crc << 1) & 0x1000000 != 0 then (crc << 1) ^ 0x1864CFB else crc << 1
  }

  /** The table index for a byte. */
  function Index(crc: bv32, b: bv8): bv8 {
    (((crc >> 16) ^ (b as bv32)) & 0xFF) as bv8
  }

  /** The register after looking up `entry`. */
  function Fold(crc: bv32, entry: bv32): bv32 {
    ((crc << 8) ^ entry) & 0xFFFFFF
  }

  /** The word a table row starts from. */
  function Seed(i: int): bv32
    requires 0 <= i < 256
  {
    (i as bv32) << 16
  }

  function Mask(crc: bv32): bv32 {
    crc & 0xFFFFFF
  }

  // ----- words and registers -----

  lemma WideTop(c: bv24)
    ensures (Widen(c) << 1) & 0x1000000 != 0 <==> c & 0x800000 != 0
  {
  }

  lemma WideShift(c: bv24)
    requires c & 0x800000 == 0
    ensures Widen(c) << 1 == Widen(c << 1)
  {
  }

  lemma WideReduce(c: bv24)
    requires c & 0x800000 != 0
    ensures (Widen(c) << 1) ^ 0x1864CFB == Widen((c << 1) ^ 0x864CFB)
  {
  }

  lemma WideStep(c: bv24)
    ensures ShiftAndReduce(Widen(c)) == Widen(BitStep(c))
  {
    WideTop(c);
    if c & 0x800000 != 0 {
      WideReduce(c);
    } else {
      WideShift(c);
    }
  }

  lemma WideInject(i: int)
    requires 0 <= i < 256
    ensures Seed(i) == Widen(Inject(i as bv8))
  {
  }

  lemma WideMask(c: bv24)
    ensures Mask(Widen(c)) == Widen(c)
  {
  }

  lemma WideFold(c: bv24, e: bv24)
    ensures Fold(Widen(c), Widen(e)) == Widen(Add(e, (c & 0xFFFF) << 8))
  {
  }

  lemma WideIndex(c: bv24, b: bv8)
    ensures Index(Widen(c), b) == ((c >> 16) as bv8) ^ b
  {
  }

  lemma SplitTopByte(c: bv24)
    ensures c == Add(Inject((c >> 16) as bv8), c & 0xFFFF) && (c & 0xFFFF) & 0xFF0000 == 0
  {
  }

  lemma AddCommutes(x: bv24, y: bv24)
    ensures Add(x, y) == Add(y, x)
  {
  }

  lemma InjectAdds(a: bv8, b: bv8)
    ensures Inject(a ^ b) == Add(Inject(a), Inject(b))
  {
  }

  lemma TopByteMeets(h: bv8, low: bv24, b: bv8)
    ensures Add(Add(Inject(h), low), Inject(b)) == Add(Inject(h ^ b), low)
  {
    AddAssociates(Inject(h), low, Inject(b));
    AddCommutes(low, Inject(b));
    AddAssociates(Inject(h), Inject(b), low);
    InjectAdds(h, b);
  }

  lemma {:induction false} EightStepsAdd(x: bv24, y: bv24)
    ensures Iterate(CRC24Q, Add(x, y), 8) == Add(Iterate(CRC24Q, x, 8), Iterate(CRC24Q, y, 8))
  {
    CodeStepAdds();
    IterateLinear(CRC24Q, x, y, 8);
  }

  /** One byte step: look up the top byte, shift in the rest. */
  lemma AbsorbSplit(h: bv8, low: bv24, b: bv8)
    requires low & 0xFF0000 == 0
    ensures Absorb(CRC24Q, Add(Inject(h), low), b) == Add(Entry(h ^ b), low << 8)
  {
    TopByteMeets(h, low, b);
    EightStepsAdd(Inject(h ^ b), low);
    LowBytesShift(low);
  }

  lemma AbsorbByTable(c: bv24, b: bv8)
    ensures Absorb(CRC24Q, c, b) == Add(Entry(((c >> 16) as bv8) ^ b), (c & 0xFFFF) << 8)
  {
    SplitTopByte(c);
    AbsorbSplit((c >> 16) as bv8, c & 0xFFFF, b);
  }

  lemma LookUp(c: bv24, b: bv8)
    ensures Fold(Widen(c), Widen(Entry(Index(Widen(c), b)))) == Widen(Absorb(CRC24Q, c, b))
  {
    WideIndex(c, b);
    AbsorbByTable(c, b);
    WideFold(c, Entry(((c >> 16) as bv8) ^ b));
  }

  lemma IndexRoundTrip(b: bv8)
    ensures 0 <= b as int < 256 && (b as int) as bv8 == b
  {
  }

  // ----- the algorithms -----

  /** The bit loop, from any register. */
  method EightSteps(word: bv32, ghost c: bv24) returns (crc: bv32)
    requires word == Widen(c)
    ensures crc == Widen(Iterate(CRC24Q, c, 8))
  {
    crc := word;
    for bit := 0 to 8
      invariant crc == Widen(Iterate(CRC24Q, c, bit))
    {
      WideStep(Iterate(CRC24Q, c, bit));
      crc := ShiftAndReduce(crc);
    }
  }

  method TableEntry(i: int) returns (crc: bv32)
    requires 0 <= i < 256
    ensures crc == Widen(Entry(i as bv8))
  {
    WideInject(i);
    crc := EightSteps(Seed(i), Inject(i as bv8));
    WideMask(Entry(i as bv8));
    crc := Mask(crc);
  }

  method BuildCrc24qTable() returns (table: array<bv32>)
    ensures fresh(table) && table.Length == 256
    ensures forall i :: 0 <= i < 256 ==> table[i] == Widen(Entry(i as bv8))
  {
    table := new bv32[256];
    for i := 0 to 256
      invariant forall j :: 0 <= j < i ==> table[j] == Widen(Entry(j as bv8))
    {
      var crc := TableEntry(i);
      table[i] := crc;
    }
  }

  method Crc24q(data: seq<bv8>) returns (crc: bv32)
    ensures crc == Widen(Crc(data))
  {
    var table := BuildCrc24qTable();
    crc := 0;
    for i := 0 to |data|
      invariant crc == Widen(Run(CRC24Q, 0, data[..i]))
      modifies {}
    {
      ghost var c := Run(CRC24Q, 0, data[..i]);
      var idx := Index(crc, data[i]);
      IndexRoundTrip(idx);
      var entry := table[idx as int];
      LookUp(c, data[i]);
      RunSnoc(CRC24Q, 0, data, i);
      crc := Fold(crc, entry);
    }
    assert data[..|data|] == data;
  }
}
