/** The checksums and fields of the receiver's ASCII sentences
    (`nmea_parser.cpp`, `unicore_parser.cpp`). */
module Sentences {
  import opened SentenceSplitter
  import Crc32

  datatype Option<+T> = None | Some(value: T)

  const STAR: bv8 := 0x2A
  const BANG: bv8 := 0x21
  const COMMA: bv8 := 0x2C

  // ----- hexadecimal digits -----

  /** The digit for a value below 16, in either letter case. */
  function HexDigit(v: bv8, lower: bool): bv8 {
    if v < 10 then v + 0x30 else if lower then v - 10 + 0x61 else v - 10 + 0x41
  }

  function HexNibble(c: bv8): Option<bv8> {
    if 0x30 <= c <= 0x39 then Some(c - 0x30)
    else if 0x61 <= c <= 0x66 then Some(10 + (c - 0x61))
    else if 0x41 <= c <= 0x46 then Some(10 + (c - 0x41))
    else None
  }

  lemma DigitReadsBack(v: bv8, lower: bool)
    requires v < 16
    ensures HexNibble(HexDigit(v, lower)) == Some(v)
    ensures HexDigit(v, lower) != STAR && !IsEol(HexDigit(v, lower)) && !IsSync(HexDigit(v, lower))
  {
  }

  /** There are no other digits. */
  lemma NibbleIsDigit(c: bv8)
    ensures HexNibble(c).Some? ==>
              var v := HexNibble(c).value; v < 16 && (HexDigit(v, true) == c || HexDigit(v, false) == c)
  {
  }

  // ----- trimming and searching -----

  function Trimmed(s: Bytes): Bytes {
    if s != [] && IsEol(s[|s| - 1]) then Trimmed(s[..|s| - 1]) else s
  }

  method TrimEol(sentence: Bytes) returns (s: Bytes)
    ensures s == Trimmed(sentence)
  {
    s := sentence;
    while s != [] && IsEol(s[|s| - 1])
      invariant Trimmed(sentence) == Trimmed(s)
    {
      s := s[..|s| - 1];
    }
  }

  /** Trimming takes off the line endings at the end, all of them and nothing else. */
  lemma {:induction false} TrimmedIs(s: Bytes)
    ensures var t := Trimmed(s);
      && t <= s && (forall i :: |t| <= i < |s| ==> IsEol(s[i]))
      && (t == [] || !IsEol(t[|t| - 1]))
    decreases |s|
  {
    hide IsEol;
    if s != [] && IsEol(s[|s| - 1]) {
      TrimmedIs(s[..|s| - 1]);
    }
  }

  /** The last star, or the length if there is none. */
  function LastStar(s: Bytes): (i: nat)
    ensures i <= |s|
    ensures i < |s| ==> s[i] == STAR
    ensures forall j :: i < j < |s| ==> s[j] != STAR
    ensures i == |s| ==> STAR !in s
  {
    if s == [] then 0
    else if s[|s| - 1] == STAR then |s| - 1
    else
      var i := LastStar(s[..|s| - 1]);
      if i == |s| - 1 then |s| else i
  }

  lemma {:induction false} LastStarIs(s: Bytes, i: nat)
    requires i < |s| && s[i] == STAR && forall j :: i < j < |s| ==> s[j] != STAR
    ensures LastStar(s) == i
  {
  }

  // ----- NMEA -----

  function XorOf(s: Bytes): bv8 {
    if s == [] then 0 else XorOf(s[..|s| - 1]) ^ s[|s| - 1]
  }

  /** `$` or `!`, a body, a star, and two digits that spell the exclusive-or of
      the body. */
  predicate NmeaHolds(t: Bytes) {
    && |t| >= 4 && (t[0] == DOLLAR || t[0] == BANG)
    && LastStar(t) + 3 == |t|
    && HexNibble(t[|t| - 2]).Some? && HexNibble(t[|t| - 1]).Some?
    && XorOf(t[1..LastStar(t)]) == (HexNibble(t[|t| - 2]).value << 4) | HexNibble(t[|t| - 1]).value
  }

  method VerifyNmeaChecksum(sentence: Bytes) returns (ok: bool)
    ensures ok == NmeaHolds(Trimmed(sentence))
  {
    hide HexNibble;
    var s := TrimEol(sentence);
    if |s| < 4 {
      return false;
    }
    if s[0] != DOLLAR && s[0] != BANG {
      return false;
    }
    var star := LastStar(s);
    if star == |s| || star + 3 != |s| {
      return false;
    }
    var computed: bv8 := 0;
    for i := 1 to star
      invariant computed == XorOf(s[1..i])
    {
      assert s[1..i + 1][..i - 1] == s[1..i];
      computed := computed ^ s[i];
    }
    var hi, lo := HexNibble(s[star + 1]), HexNibble(s[star + 2]);
    if hi.None? || lo.None? {
      return false;
    }
    return computed == (hi.value << 4) | lo.value;
  }

  /** A byte as two digits. */
  function ByteDigits(x: bv8, lower: bool): Bytes {
    [HexDigit(x >> 4, lower), HexDigit(x & 15, lower)]
  }

  /** What the receiver sends for a body. */
  function NmeaText(body: Bytes, lower: bool): Bytes {
    [DOLLAR] + body + [STAR] + ByteDigits(XorOf(body), lower)
  }

  lemma NibblesOfByte(x: bv8)
    ensures x >> 4 < 16 && x & 15 < 16 && ((x >> 4) << 4) | (x & 15) == x
  {
  }

  lemma ByteDigitsRead(x: bv8, lower: bool)
    ensures var d := ByteDigits(x, lower);
      && |d| == 2 && STAR !in d && IsBody(d)
      && HexNibble(d[0]) == Some(x >> 4) && HexNibble(d[1]) == Some(x & 15)
  {
    hide HexNibble, HexDigit;
    NibblesOfByte(x);
    DigitReadsBack(x >> 4, lower);
    DigitReadsBack(x & 15, lower);
  }

  lemma {:induction false} NmeaTextShape(body: Bytes, lower: bool)
    ensures var t := NmeaText(body, lower);
      && |t| == |body| + 4 && t[1..|body| + 1] == body && LastStar(t) == |body| + 1
      && HexNibble(t[|t| - 2]) == Some(XorOf(body) >> 4) && HexNibble(t[|t| - 1]) == Some(XorOf(body) & 15)
      && Trimmed(t) == t
      && (IsBody(body) ==> IsBody(t[1..]))
  {
    hide HexNibble, ByteDigits, XorOf, LastStar, Trimmed;
    ByteDigitsRead(XorOf(body), lower);
    FramedShape(DOLLAR, body, ByteDigits(XorOf(body), lower));
  }

  /** The parts of a framed text are found again. */
  lemma FramedShape(sync: bv8, body: Bytes, digits: Bytes)
    requires digits != [] && STAR !in digits && IsBody(digits)
    ensures var t := [sync] + body + [STAR] + digits;
      && t[1..|body| + 1] == body && t[|body| + 2..] == digits
      && LastStar(t) == |body| + 1 && Trimmed(t) == t
      && (IsBody(body) ==> IsBody(t[1..]))
  {
    var t := [sync] + body + [STAR] + digits;
    assert t[|body| + 2..] == digits;
    forall j | |body| + 1 < j < |t| ensures t[j] != STAR {
      assert t[j] == digits[j - |body| - 2];
    }
    LastStarIs(t, |body| + 1);
    assert t[|t| - 1] == digits[|digits| - 1] && digits[|digits| - 1] in digits;
    assert t[1..] == body + [STAR] + digits;
    hide LastStar;
  }

  /** Every framed body passes its verifier. */
  lemma NmeaTextHolds(body: Bytes, lower: bool)
    ensures NmeaHolds(Trimmed(NmeaText(body, lower)))
  {
    hide HexNibble, HexDigit, XorOf, NmeaText, Trimmed;
    NmeaTextShape(body, lower);
    NibblesOfByte(XorOf(body));
    assert NmeaText(body, lower)[0] == DOLLAR by { NmeaStarts(body, lower); }
  }

  lemma NmeaStarts(body: Bytes, lower: bool)
    ensures NmeaText(body, lower)[0] == DOLLAR
  {
  }

  /** A text of this frame passes exactly if its lead is `$` or `!` and its digits, in
      whatever case, spell the exclusive-or of its body. */
  lemma {:induction false} NmeaHoldsExactly(lead: bv8, body: Bytes, x: bv8, high: bool, low: bool)
    ensures var t := [lead] + body + [STAR] + [HexDigit(x >> 4, high), HexDigit(x & 15, low)];
      && Trimmed(t) == t
      && (NmeaHolds(t) <==> (lead == DOLLAR || lead == BANG) && x == XorOf(body))
  {
    hide HexNibble, HexDigit, XorOf, Trimmed, LastStar;
    var digits := [HexDigit(x >> 4, high), HexDigit(x & 15, low)];
    NibblesOfByte(x);
    DigitReadsBack(x >> 4, high);
    DigitReadsBack(x & 15, low);
    FramedShape(lead, body, digits);
    var t := [lead] + body + [STAR] + digits;
    assert t[|t| - 2] == digits[0] && t[|t| - 1] == digits[1] && t[0] == lead;
  }

  /** And every text that passes has this frame. */
  lemma {:induction false} NmeaHoldsOnlyFramed(t: Bytes) returns (lead: bv8, body: Bytes, high: bool, low: bool)
    requires NmeaHolds(t)
    ensures var x := XorOf(body);
      t == [lead] + body + [STAR] + [HexDigit(x >> 4, high), HexDigit(x & 15, low)]
  {
    hide HexNibble, HexDigit, XorOf;
    var n := |t| - 3;
    lead, body := t[0], t[1..n];
    NibbleIsDigit(t[n + 1]);
    NibbleIsDigit(t[n + 2]);
    var hi, lo := HexNibble(t[n + 1]).value, HexNibble(t[n + 2]).value;
    high, low := HexDigit(hi, true) == t[n + 1], HexDigit(lo, true) == t[n + 2];
    Joined(hi, lo);
    assert t == [t[0]] + t[1..n] + [t[n]] + [t[n + 1], t[n + 2]];
  }

  lemma Joined(hi: bv8, lo: bv8)
    requires hi < 16 && lo < 16
    ensures ((hi << 4) | lo) >> 4 == hi && ((hi << 4) | lo) & 15 == lo
  {
  }

  lemma XorLaws(a: bv8, b: bv8, c: bv8)
    ensures (a ^ b) ^ c == a ^ (b ^ c) && 0 ^ a == a
    ensures a ^ b == a ^ c ==> b == c
  {
  }

  /** The exclusive-or is that of the parts; a byte counts for itself. */
  lemma {:induction false} XorAdds(a: Bytes, b: Bytes, c: bv8)
    ensures XorOf(a + b) == XorOf(a) ^ XorOf(b)
    ensures XorOf([]) == 0 && XorOf([c]) == c
    decreases |b|
  {
    assert [c][..0] == [];
    XorLaws(c, 0, 0);
    if b == [] {
      assert a + b == a;
    } else {
      var less := b[..|b| - 1];
      assert (a + b)[..|a + b| - 1] == a + less;
      XorAdds(a, less, c);
      XorLaws(XorOf(a), XorOf(less), b[|b| - 1]);
    }
  }

  /** So any change of one byte of the body of a framed sentence is refused. */
  lemma {:induction false} NmeaChangeRefused(body: Bytes, i: nat, b: bv8, lower: bool)
    requires i < |body| && b != body[i]
    ensures !NmeaHolds([DOLLAR] + body[i := b] + [STAR] + ByteDigits(XorOf(body), lower))
  {
    hide HexDigit, XorOf, NmeaHolds;
    ByteChangesXor(body, i, b);
    NmeaHoldsExactly(DOLLAR, body[i := b], XorOf(body), lower, lower);
  }

  lemma {:induction false} ByteChangesXor(body: Bytes, i: nat, b: bv8)
    requires i < |body| && b != body[i]
    ensures XorOf(body[i := b]) != XorOf(body)
  {
    hide XorOf;
    var before, after := body[..i], body[i + 1..];
    assert body == before + ([body[i]] + after) && body[i := b] == before + ([b] + after);
    XorAdds(before, [body[i]] + after, b);
    XorAdds(before, [b] + after, b);
    XorAdds([body[i]], after, body[i]);
    XorAdds([b], after, b);
    XorDiffers(XorOf(before), XorOf(after), body[i], b);
  }

  lemma XorDiffers(p: bv8, q: bv8, a: bv8, b: bv8)
    requires a != b
    ensures p ^ (a ^ q) != p ^ (b ^ q)
  {
  }

  // ----- fields -----

  /** Join with commas. */
  function Join(fields: seq<Bytes>): Bytes {
    if fields == [] then []
    else if |fields| == 1 then fields[0]
    else Join(fields[..|fields| - 1]) + [COMMA] + fields[|fields| - 1]
  }

  lemma JoinSnoc(fields: seq<Bytes>, f: Bytes)
    requires fields != []
    ensures Join(fields + [f]) == Join(fields) + [COMMA] + f
  {
    assert (fields + [f])[..|fields|] == fields;
  }

  lemma FieldEnds(fields: seq<Bytes>, body: Bytes, start: nat, i: nat)
    requires start <= i <= |body| && (start == 0 <==> fields == [])
    requires start > 0 ==> Join(fields) + [COMMA] == body[..start]
    ensures Join(fields + [body[start..i]]) == body[..i]
    ensures i < |body| && body[i] == COMMA ==> Join(fields + [body[start..i]]) + [COMMA] == body[..i + 1]
  {
    hide Join;
    var f := body[start..i];
    if fields == [] {
      JoinOne(f);
      assert fields + [f] == [f];
    } else {
      JoinSnoc(fields, f);
      assert body[..start] + f == body[..i];
    }
    if i < |body| && body[i] == COMMA { assert body[..i] + [COMMA] == body[..i + 1]; }
  }

  lemma JoinOne(f: Bytes)
    ensures Join([f]) == f
  {
  }

  method SplitNmeaFields(sentence: Bytes) returns (fields: seq<Bytes>)
    ensures var t := Trimmed(sentence);
      var wellFormed := |t| >= 4 && (t[0] == DOLLAR || t[0] == BANG) && LastStar(t) < |t|;
      && (fields != [] <==> wellFormed)
      && (wellFormed ==> Join(fields) == t[1..LastStar(t)])
      && forall f :: f in fields ==> COMMA !in f
  {
    hide Join;
    var s := TrimEol(sentence);
    fields := [];
    if |s| < 4 {
      return;
    }
    if s[0] != DOLLAR && s[0] != BANG {
      return;
    }
    var star := LastStar(s);
    if star == |s| {
      return;
    }
    var body := s[1..star];
    var start := 0;
    for i := 0 to |body| + 1
      invariant 0 <= start <= i
      invariant i <= |body| ==> COMMA !in body[start..i]
      invariant start == 0 <==> fields == []
      invariant start > 0 && start <= |body| ==> Join(fields) + [COMMA] == body[..start]
      invariant start == |body| + 1 ==> Join(fields) == body
      invariant i == |body| + 1 ==> start == |body| + 1
      invariant forall f :: f in fields ==> COMMA !in f
    {
      if i == |body| || body[i] == COMMA {
        FieldEnds(fields, body, start, i);
        fields := fields + [body[start..i]];
        start := i + 1;
      }
    }
  }

  // ----- Unicore -----

  /** One more digit on the right of a 32-bit word. */
  function PutNibble(x: bv32, v: bv8): bv32 {
    (x << 4) | (v as bv32)
  }

  function LowNibble(x: bv32): bv8 {
    (x & 15) as bv8
  }

  function DropNibble(x: bv32): bv32 {
    x >> 4
  }

  /** The value of hexadecimal digits, most significant first, on 32 bits; or
      none if one of them is not a digit. */
  function HexValue(s: Bytes): Option<bv32> {
    if s == [] then Some(0)
    else
      var v := HexNibble(s[|s| - 1]);
      var rest := HexValue(s[..|s| - 1]);
      if v.Some? && rest.Some? then Some(PutNibble(rest.value, v.value)) else None
  }

  /** `#`, a body of at least one byte, a star, and eight digits that spell the
      CRC of the body. */
  predicate UnicoreHolds(t: Bytes) {
    && |t| >= 11 && t[0] == HASH
    && LastStar(t) + 9 == |t|
    && HexValue(t[LastStar(t) + 1..]) == Some(Crc32.Message(t[1..LastStar(t)]))
  }

  lemma {:induction false} HexValueStops(s: Bytes, i: nat)
    requires i <= |s| && HexValue(s[..i]).None?
    ensures HexValue(s).None?
    decreases |s| - i
  {
    if i < |s| {
      assert s[..i + 1][..i] == s[..i];
      HexValueStops(s, i + 1);
    } else {
      assert s[..i] == s;
    }
  }

  method VerifyUnicoreChecksum(sentence: Bytes) returns (ok: bool)
    ensures ok == UnicoreHolds(Trimmed(sentence))
  {
    hide HexNibble, Crc32.Message;
    var s := TrimEol(sentence);
    if |s| < 11 || s[0] != HASH {
      return false;
    }
    var star := LastStar(s);
    if star == |s| || star + 9 != |s| {
      return false;
    }
    var expected: bv32 := 0;
    ghost var digits := s[star + 1..];
    for i := star + 1 to |s|
      invariant HexValue(digits[..i - star - 1]) == Some(expected)
    {
      ghost var k := i - star - 1;
      assert digits[..k + 1][..k] == digits[..k];
      var v := HexNibble(s[i]);
      if v.None? {
        HexValueStops(digits, k + 1);
        return false;
      }
      expected := PutNibble(expected, v.value);
    }
    assert digits[..8] == digits;
    var crc := Crc32.UnicoreMessageCrc32(s[1..star]);
    return crc == expected;
  }

  /** The low nibbles of a word, one digit for each case given. */
  function HexDigits(x: bv32, lowers: seq<bool>): Bytes {
    if lowers == [] then []
    else
      var last := |lowers| - 1;
      HexDigits(DropNibble(x), lowers[..last]) + [HexDigit(LowNibble(x), lowers[last])]
  }

  /** Eight digits of one case. */
  function Eight(lower: bool): seq<bool> {
    [lower, lower, lower, lower, lower, lower, lower, lower]
  }

  /** The word has no bits beyond its low `n` nibbles. */
  ghost predicate Fits(x: bv32, n: nat) {
    if n == 0 then x == 0 else Fits(DropNibble(x), n - 1)
  }

  lemma NibbleAndRest(x: bv32)
    ensures LowNibble(x) < 16 && PutNibble(DropNibble(x), LowNibble(x)) == x
  {
  }

  lemma {:induction false} DigitsReadBack(x: bv32, lowers: seq<bool>)
    requires Fits(x, |lowers|)
    ensures var digits := HexDigits(x, lowers);
      |digits| == |lowers| && HexValue(digits) == Some(x) && STAR !in digits && IsBody(digits)
    decreases |lowers|
  {
    hide HexNibble, HexDigit, IsEol, IsSync, PutNibble, LowNibble, DropNibble;
    if lowers != [] {
      var last := |lowers| - 1;
      NibbleAndRest(x);
      DigitsReadBack(DropNibble(x), lowers[..last]);
      DigitReadsBack(LowNibble(x), lowers[last]);
      assert HexDigits(x, lowers)[..last] == HexDigits(DropNibble(x), lowers[..last]);
    }
  }

  /** And up to eight digits with a value are those of it. */
  lemma {:induction false} DigitsOfValue(s: Bytes) returns (lowers: seq<bool>)
    requires |s| <= 8 && HexValue(s).Some?
    ensures var x := HexValue(s).value; |lowers| == |s| && Fits(x, |s|) && HexDigits(x, lowers) == s
    decreases |s|
  {
    hide HexNibble, HexDigit, PutNibble, LowNibble, DropNibble;
    if s == [] {
      lowers := [];
    } else {
      var last := |s| - 1;
      LastDigit(s);
      hide *;
      var front := DigitsOfValue(s[..last]);
      NibbleIsDigit(s[last]);
      var v := HexNibble(s[last]).value;
      var lower := HexDigit(v, true) == s[last];
      DigitsGrow(HexValue(s[..last]).value, v, front, lower);
      lowers := front + [lower];
    }
  }

  lemma {:induction false} LastDigit(s: Bytes)
    requires s != [] && HexValue(s).Some?
    ensures var v, rest := HexNibble(s[|s| - 1]), HexValue(s[..|s| - 1]);
      v.Some? && rest.Some? && HexValue(s).value == PutNibble(rest.value, v.value)
  {
    hide HexNibble, PutNibble;
  }

  lemma {:induction false} DigitsGrow(r: bv32, v: bv8, front: seq<bool>, lower: bool)
    requires Fits(r, |front|) && |front| <= 7 && v < 16
    ensures var x, lowers := PutNibble(r, v), front + [lower];
      Fits(x, |lowers|) && HexDigits(x, lowers) == HexDigits(r, front) + [HexDigit(v, lower)]
  {
    hide HexDigit, PutNibble, LowNibble, DropNibble;
    RestComesBack(r, v, |front|);
    assert (front + [lower])[..|front|] == front;
  }

  lemma {:induction false} RestComesBack(r: bv32, v: bv8, n: nat)
    requires Fits(r, n) && n <= 7 && v < 16
    ensures DropNibble(PutNibble(r, v)) == r && LowNibble(PutNibble(r, v)) == v
  {
    FitsSeven(r, n);
    NibbleComesBack(r, v);
  }

  lemma {:induction false} FitsSeven(x: bv32, n: nat)
    requires Fits(x, n) && n <= 7
    ensures x >> 28 == 0
  {
    hide DropNibble;
    FitsMore(x, n);
    var x2 := DropNibble(DropNibble(x));
    var x4 := DropNibble(DropNibble(x2));
    assert Fits(DropNibble(x), 6);
    assert Fits(x2, 5);
    assert Fits(DropNibble(x2), 4);
    assert Fits(x4, 3);
    assert Fits(DropNibble(x4), 2);
    assert Fits(DropNibble(DropNibble(x4)), 1);
    SevenDropped(x);
  }

  lemma SevenDropped(x: bv32)
    ensures DropNibble(DropNibble(DropNibble(DropNibble(DropNibble(DropNibble(DropNibble(x))))))) == x >> 28
  {
    assert (((((x >> 4) >> 4) >> 4) >> 4) >> 4) >> 4 == x >> 24;
  }

  lemma {:induction false} FitsMore(x: bv32, n: nat)
    requires Fits(x, n) && n <= 7
    ensures Fits(x, 7)
    decreases 7 - n
  {
    hide DropNibble;
    if n < 7 {
      FitsOneMore(x, n);
      FitsMore(x, n + 1);
    }
  }

  lemma {:induction false} FitsOneMore(x: bv32, n: nat)
    requires Fits(x, n)
    ensures Fits(x, n + 1)
    decreases n
  {
    if n > 0 { FitsOneMore(DropNibble(x), n - 1); }
  }

  lemma NibbleComesBack(r: bv32, v: bv8)
    requires r >> 28 == 0 && v < 16
    ensures DropNibble(PutNibble(r, v)) == r && LowNibble(PutNibble(r, v)) == v
  {
  }

  lemma NothingLeft(x: bv32)
    ensures DropNibble(DropNibble(DropNibble(DropNibble(DropNibble(DropNibble(DropNibble(DropNibble(x)))))))) == 0
  {
    assert ((((((x >> 4) >> 4) >> 4) >> 4) >> 4) >> 4) >> 4 == x >> 28;
  }

  lemma {:induction false} EightNibblesFit(x: bv32)
    ensures Fits(x, 8)
  {
    hide DropNibble;
    NothingLeft(x);
    var x2 := DropNibble(DropNibble(x));
    var x4 := DropNibble(DropNibble(x2));
    var x6 := DropNibble(DropNibble(x4));
    assert Fits(DropNibble(x6), 1);
    assert Fits(x6, 2);
    assert Fits(DropNibble(x4), 3);
    assert Fits(x4, 4);
    assert Fits(DropNibble(x2), 5);
    assert Fits(x2, 6);
    assert Fits(DropNibble(x), 7);
  }

  /** What the receiver sends for a body. */
  function UnicoreText(body: Bytes, lower: bool): Bytes {
    [HASH] + body + [STAR] + HexDigits(Crc32.Message(body), Eight(lower))
  }

  lemma UnicoreTextShape(body: Bytes, lower: bool)
    ensures var t := UnicoreText(body, lower);
      && |t| == |body| + 10 && t[0] == HASH && t[1..|body| + 1] == body && LastStar(t) == |body| + 1
      && HexValue(t[|body| + 2..]) == Some(Crc32.Message(body))
      && Trimmed(t) == t
      && (IsBody(body) ==> IsBody(t[1..]))
  {
    hide HexDigits, HexValue, Crc32.Message;
    var t := UnicoreText(body, lower);
    var digits := HexDigits(Crc32.Message(body), Eight(lower));
    EightNibblesFit(Crc32.Message(body));
    DigitsReadBack(Crc32.Message(body), Eight(lower));
    FramedShape(HASH, body, digits);
  }

  /** A framed body passes its verifier exactly when it is not empty. */
  lemma UnicoreTextHolds(body: Bytes, lower: bool)
    ensures UnicoreHolds(Trimmed(UnicoreText(body, lower))) <==> body != []
  {
    hide HexValue, Crc32.Message, UnicoreText, Trimmed;
    UnicoreTextShape(body, lower);
  }

  /** A text of this frame passes exactly if its body is not empty and its digits, in
      any mixture of cases, spell the CRC of the body. */
  lemma {:induction false} UnicoreHoldsExactly(lead: bv8, body: Bytes, x: bv32, lowers: seq<bool>)
    requires |lowers| == 8
    ensures var t := [lead] + body + [STAR] + HexDigits(x, lowers);
      && Trimmed(t) == t
      && (UnicoreHolds(t) <==> lead == HASH && body != [] && x == Crc32.Message(body))
  {
    hide HexDigits, HexValue, Crc32.Message, Trimmed, LastStar;
    EightNibblesFit(x);
    DigitsReadBack(x, lowers);
    var digits := HexDigits(x, lowers);
    FramedShape(lead, body, digits);
    var t := [lead] + body + [STAR] + digits;
    assert t[0] == lead && |t| == |body| + 10;
  }

  /** And every text that passes has this frame. */
  lemma {:induction false} UnicoreHoldsOnlyFramed(t: Bytes) returns (body: Bytes, lowers: seq<bool>)
    requires UnicoreHolds(t)
    ensures body != [] && |lowers| == 8 && t == [HASH] + body + [STAR] + HexDigits(Crc32.Message(body), lowers)
  {
    hide HexDigits, HexValue, Crc32.Message;
    var n := |t| - 9;
    body := t[1..n];
    lowers := DigitsOfValue(t[n + 1..]);
    assert t == [t[0]] + t[1..n] + [t[n]] + t[n + 1..];
  }

  /** So any change of the body of a framed sentence within four consecutive bytes is
      refused. */
  lemma {:induction false} UnicoreChangeRefused(body: Bytes, changed: Bytes, i: nat, lower: bool)
    requires |changed| == |body| && i <= |body| && changed != body
    requires forall j :: 0 <= j < |body| && !(i <= j < i + 4) ==> changed[j] == body[j]
    ensures !UnicoreHolds([HASH] + changed + [STAR] + HexDigits(Crc32.Message(body), Eight(lower)))
  {
    hide UnicoreHolds, Crc32.Message, Crc32.Zlib, HexDigits;
    Crc32.FourByteChangeDetected(body, changed, i);
    UnicoreHoldsExactly(HASH, changed, Crc32.Message(body), Eight(lower));
  }

  // ----- end to end -----

  /** A body to send, and in which family. */
  datatype Item = Item(kind: Kind, body: Bytes, lower: bool)

  function Framed(item: Item): Sentence {
    Sentence(
      item.kind,
      if item.kind == Nmea then NmeaText(item.body, item.lower) else UnicoreText(item.body, item.lower))
  }

  /** A non-empty body free of sync and line-ending bytes that fits once framed. */
  ghost predicate Fitting(item: Item) {
    && item.body != [] && IsBody(item.body)
    && |item.body| + (if item.kind == Nmea then 4 else 10) <= 2048
  }

  ghost predicate Verifies(s: Sentence) {
    if s.kind == Nmea then NmeaHolds(Trimmed(s.text)) else UnicoreHolds(Trimmed(s.text))
  }

  lemma FramedIsSendable(item: Item)
    requires Fitting(item)
    ensures Sendable(Framed(item)) && Verifies(Framed(item))
  {
    hide NmeaText, UnicoreText, Trimmed, NmeaHolds, UnicoreHolds, IsBody;
    if item.kind == Nmea {
      NmeaTextShape(item.body, item.lower);
      NmeaStarts(item.body, item.lower);
      NmeaTextHolds(item.body, item.lower);
    } else {
      UnicoreTextShape(item.body, item.lower);
      UnicoreTextHolds(item.body, item.lower);
    }
  }

  ghost function FramedAll(items: seq<Item>): seq<Sentence> {
    seq(|items|, i requires 0 <= i < |items| => Framed(items[i]))
  }

  /** Any sequence of fitting bodies, framed and sent as lines, comes out of a
      fresh splitter in order with nothing discarded, and each sentence passes
      its own verifier.  (`Run` does not see how the bytes were cut.) */
  lemma SentencesRoundTrip(items: seq<Item>)
    requires forall i :: 0 <= i < |items| ==> Fitting(items[i])
    ensures var m := Run(FRESH, Lines(FramedAll(items)));
      && m == FRESH.(out := FramedAll(items), eols := 2 * |items|)
      && forall i :: 0 <= i < |items| ==> Verifies(m.out[i])
  {
    hide Framed, Verifies, Sendable, Fitting, Run;
    var ss := FramedAll(items);
    forall i | 0 <= i < |items| ensures Sendable(ss[i]) && Verifies(ss[i]) {
      FramedIsSendable(items[i]);
    }
    LinesArrive(FRESH, ss);
    assert FRESH.out + ss == ss;
  }

  /** Joining the fields of a framed NMEA body with commas restores the body. */
  method FieldsRestoreBody(body: Bytes, lower: bool) returns (fields: seq<Bytes>)
    ensures Join(fields) == body && fields != []
    ensures forall f :: f in fields ==> COMMA !in f
  {
    hide NmeaText, Trimmed, Join;
    NmeaTextShape(body, lower);
    NmeaStarts(body, lower);
    fields := SplitNmeaFields(NmeaText(body, lower));
  }
}
