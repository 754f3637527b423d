/** The base64 encoder of `ntrip_client_node.cpp` and a decoder written from
    section 4 of RFC 4648. */
module Base64 {
  import opened ByteValues

  datatype Option<+T> = None | Some(value: T)

  type Bytes = seq<bv8>

  const PAD := '='

  /** The alphabet, in the order of its values. */
  const UPPER: string := "ABCDEFGHIJKLMNOPQRSTUVWXYZ"
  const LOWER: string := "abcdefghijklmnopqrstuvwxyz"
  const DIGITS: string := "0123456789+/"
  const ALPHABET: string := UPPER + LOWER + DIGITS

  lemma AlphabetLength()
    ensures |UPPER| == 26 && |LOWER| == 26 && |DIGITS| == 12
  {
  }

  // ----- words of three bytes and of four six-bit values -----

  function Word(a: bv8, b: bv8, c: bv8): bv24 {
    ((a as bv24) << 16) | ((b as bv24) << 8) | (c as bv24)
  }

  function Sextet(w: bv24, i: nat): bv24
    requires i < 4
  {
    if i == 0 then (w >> 18) & 0x3F
    else if i == 1 then (w >> 12) & 0x3F
    else if i == 2 then (w >> 6) & 0x3F
    else w & 0x3F
  }

  function FromSextets(p: bv24, q: bv24, r: bv24, s: bv24): bv24 {
    (p << 18) | (q << 12) | (r << 6) | s
  }

  function Byte(w: bv24, i: nat): bv8
    requires i < 3
  {
    if i == 0 then (w >> 16) as bv8 else if i == 1 then ((w >> 8) & 0xFF) as bv8 else (w & 0xFF) as bv8
  }

  lemma WordSplits(w: bv24)
    ensures FromSextets(Sextet(w, 0), Sextet(w, 1), Sextet(w, 2), Sextet(w, 3)) == w
    ensures forall i: nat :: i < 4 ==> Sextet(w, i) < 64
  {
  }

  lemma WordBytes(a: bv8, b: bv8, c: bv8)
    ensures Byte(Word(a, b, c), 0) == a && Byte(Word(a, b, c), 1) == b && Byte(Word(a, b, c), 2) == c
  {
  }

  lemma ShortWords(a: bv8, b: bv8)
    ensures Sextet(Word(a, b, 0), 3) == 0 && Sextet(Word(a, b, 0), 2) & 3 == 0
    ensures Sextet(Word(a, 0, 0), 3) == 0 && Sextet(Word(a, 0, 0), 2) == 0 && Sextet(Word(a, 0, 0), 1) & 15 == 0
  {
  }

  // ----- symbols -----

  lemma SextetIndex(v: bv24)
    requires v < 64
    ensures 0 <= v as int < 64 && (v as int) as bv24 == v
  {
  }

  function Symbol(v: bv24): char
    requires v < 64
  {
    SextetIndex(v);
    AlphabetLength();
    ALPHABET[v as int]
  }

  /** The value of a character of the alphabet, as table 1 of the RFC lists them. */
  function ValueOf(c: char): Option<nat> {
    if 'A' <= c <= 'Z' then Some(c as int - 'A' as int)
    else if 'a' <= c <= 'z' then Some(c as int - 'a' as int + 26)
    else if '0' <= c <= '9' then Some(c as int - '0' as int + 52)
    else if c == '+' then Some(62)
    else if c == '/' then Some(63)
    else None
  }

  lemma UpperValues(k: nat)
    requires k < 26
    ensures ValueOf(UPPER[k]) == Some(k)
  {
  }

  lemma LowerValues(k: nat)
    requires k < 26
    ensures ValueOf(LOWER[k]) == Some(k + 26)
  {
  }

  lemma DigitValues(k: nat)
    requires k < 12
    ensures ValueOf(DIGITS[k]) == Some(k + 52)
  {
  }

  lemma AlphabetValues(k: nat)
    requires k < 64
    ensures |ALPHABET| == 64 && ValueOf(ALPHABET[k]) == Some(k) && ALPHABET[k] != PAD
  {
    hide ValueOf, UPPER, LOWER, DIGITS;
    AlphabetLength();
    if k < 26 {
      UpperValues(k);
    } else if k < 52 {
      LowerValues(k - 26);
    } else {
      DigitValues(k - 52);
    }
    assert ValueOf(PAD) == None by { PadHasNoValue(); }
  }

  lemma PadHasNoValue()
    ensures ValueOf(PAD) == None
  {
  }

  /** A character's six-bit value. */
  function Decoded1(c: char): Option<bv24> {
    if ValueOf(c).Some? then Some(ValueOf(c).value as bv24) else None
  }

  lemma SymbolReadsBack(v: bv24)
    requires v < 64
    ensures Decoded1(Symbol(v)) == Some(v) && Symbol(v) != PAD
  {
    hide ValueOf, ALPHABET;
    SextetIndex(v);
    AlphabetValues(v as int);
  }

  // ----- the encoding -----

  /** The four characters of a word. */
  function Quartet(w: bv24): (t: string)
    ensures |t| == 4
  {
    WordSplits(w);
    [Symbol(Sextet(w, 0)), Symbol(Sextet(w, 1)), Symbol(Sextet(w, 2)), Symbol(Sextet(w, 3))]
  }

  function Encoded(s: Bytes): string {
    if s == [] then []
    else if |s| == 1 then Quartet(Word(s[0], 0, 0))[..2] + [PAD, PAD]
    else if |s| == 2 then Quartet(Word(s[0], s[1], 0))[..3] + [PAD]
    else Quartet(Word(s[0], s[1], s[2])) + Encoded(s[3..])
  }

  /** The loop over whole groups, then the remainder. */
  method Base64Encode(input: Bytes) returns (out: string)
    ensures out == Encoded(input)
  {
    hide Word, Quartet, Encoded;
    out := [];
    var i := 0;
    EncodedParts(input);
    assert input[0..] == input;
    while i + 3 <= |input|
      invariant 0 <= i <= |input|
      invariant out + Encoded(input[i..]) == Encoded(input)
    {
      var v := Word(input[i], input[i + 1], input[i + 2]);
      ghost var rest := input[i..];
      EncodedParts(rest);
      assert rest[3..] == input[i + 3..];
      out := out + Quartet(v);
      i := i + 3;
    }
    EncodedParts(input[i..]);
    var rem := |input| - i;
    if rem == 1 {
      var v := Word(input[i], 0, 0);
      out := out + (Quartet(v)[..2] + [PAD, PAD]);
    } else if rem == 2 {
      var v := Word(input[i], input[i + 1], 0);
      out := out + (Quartet(v)[..3] + [PAD]);
    }
  }

  lemma {:induction false} EncodedParts(s: Bytes)
    ensures |s| >= 3 ==> Encoded(s) == Quartet(Word(s[0], s[1], s[2])) + Encoded(s[3..])
    ensures |s| == 2 ==> Encoded(s) == Quartet(Word(s[0], s[1], 0))[..3] + [PAD]
    ensures |s| == 1 ==> Encoded(s) == Quartet(Word(s[0], 0, 0))[..2] + [PAD, PAD]
    ensures |s| == 0 ==> Encoded(s) == []
  {
  }

  // ----- the decoder of the RFC -----

  /** One quartet without padding. */
  function DecodedFour(t: string): Option<Bytes>
    requires |t| == 4
  {
    var p, q, r, s := Decoded1(t[0]), Decoded1(t[1]), Decoded1(t[2]), Decoded1(t[3]);
    if p.None? || q.None? || r.None? || s.None? then None
    else
      var w := FromSextets(p.value, q.value, r.value, s.value);
      Some([Byte(w, 0), Byte(w, 1), Byte(w, 2)])
  }

  /** A last quartet with one pad: the two unused bits must be zero. */
  function DecodedThree(t: string): Option<Bytes>
    requires |t| == 3
  {
    var p, q, r := Decoded1(t[0]), Decoded1(t[1]), Decoded1(t[2]);
    if p.None? || q.None? || r.None? || r.value & 3 != 0 then None
    else
      var w := FromSextets(p.value, q.value, r.value, 0);
      Some([Byte(w, 0), Byte(w, 1)])
  }

  /** A last quartet with two pads: the four unused bits must be zero. */
  function DecodedTwo(t: string): Option<Bytes>
    requires |t| == 2
  {
    var p, q := Decoded1(t[0]), Decoded1(t[1]);
    if p.None? || q.None? || q.value & 15 != 0 then None
    else
      var w := FromSextets(p.value, q.value, 0, 0);
      Some([Byte(w, 0)])
  }

  function Decoded(t: string): Option<Bytes> {
    if t == [] then Some([])
    else if |t| < 4 then None
    else if |t| == 4 && t[3] == PAD then
      if t[2] == PAD then DecodedTwo(t[..2]) else DecodedThree(t[..3])
    else
      var head, tail := DecodedFour(t[..4]), Decoded(t[4..]);
      if head.None? || tail.None? then None else Some(head.value + tail.value)
  }

  // ----- the round trip -----

  lemma QuartetReads(w: bv24)
    ensures var t := Quartet(w);
      && |t| == 4
      && (forall i: nat :: i < 4 ==> Decoded1(t[i]) == Some(Sextet(w, i)) && t[i] != PAD)
  {
    hide Sextet, FromSextets, Decoded1, Symbol;
    WordSplits(w);
    forall i: nat | i < 4 ensures Decoded1(Quartet(w)[i]) == Some(Sextet(w, i)) && Quartet(w)[i] != PAD {
      SymbolReadsBack(Sextet(w, i));
    }
  }

  lemma FourReadBack(a: bv8, b: bv8, c: bv8)
    ensures DecodedFour(Quartet(Word(a, b, c))) == Some([a, b, c])
  {
    hide Sextet, FromSextets, Decoded1, Quartet, Byte, Word;
    QuartetReads(Word(a, b, c));
    WordSplits(Word(a, b, c));
    WordBytes(a, b, c);
  }

  lemma ThreeReadBack(a: bv8, b: bv8)
    ensures |Quartet(Word(a, b, 0))| == 4 && DecodedThree(Quartet(Word(a, b, 0))[..3]) == Some([a, b])
  {
    hide Sextet, FromSextets, Decoded1, Quartet, Byte, Word;
    QuartetReads(Word(a, b, 0));
    WordSplits(Word(a, b, 0));
    WordBytes(a, b, 0);
    ShortWords(a, b);
  }

  lemma TwoReadBack(a: bv8)
    ensures |Quartet(Word(a, 0, 0))| == 4 && DecodedTwo(Quartet(Word(a, 0, 0))[..2]) == Some([a])
  {
    hide Sextet, FromSextets, Decoded1, Quartet, Byte, Word;
    QuartetReads(Word(a, 0, 0));
    WordSplits(Word(a, 0, 0));
    WordBytes(a, 0, 0);
    ShortWords(a, 0);
  }

  /** Decoding an encoding returns the bytes, for every byte string. */
  lemma {:induction false} RoundTrip(s: Bytes)
    ensures Decoded(Encoded(s)) == Some(s)
    decreases |s|
  {
    hide Quartet, Word, DecodedFour, DecodedThree, DecodedTwo;
    var t := Encoded(s);
    if s == [] {
    } else if |s| == 1 {
      TwoReadBack(s[0]);
      assert t[..2] == Quartet(Word(s[0], 0, 0))[..2] && s == [s[0]];
    } else if |s| == 2 {
      ThreeReadBack(s[0], s[1]);
      QuartetReads(Word(s[0], s[1], 0));
      assert t[..3] == Quartet(Word(s[0], s[1], 0))[..3] && s == [s[0], s[1]];
    } else {
      var w := Word(s[0], s[1], s[2]);
      FourReadBack(s[0], s[1], s[2]);
      QuartetReads(w);
      assert t[..4] == Quartet(w) && t[4..] == Encoded(s[3..]);
      RoundTrip(s[3..]);
      assert s == [s[0], s[1], s[2]] + s[3..];
    }
  }

  // ----- nothing but encodings decodes -----

  lemma ByteWidens(b: bv8)
    ensures (b as bv24) as int == b as int
  {
  }

  lemma SmallValue(v: bv24)
    requires v as int < 64
    ensures v < 64
  {
  }

  lemma ValueHolds(n: nat)
    requires n < 64
    ensures (n as bv24) as int == n && n as bv24 < 64
  {
    ByteHolds(n);
    var v := (n as bv8) as bv24;
    ByteWidens(n as bv8);
    SmallValue(v);
    SextetIndex(v);
  }

  lemma ValuesDiffer(c: char, d: char)
    requires ValueOf(c).Some? && ValueOf(c) == ValueOf(d)
    ensures c == d && ValueOf(c).value < 64
  {
  }

  /** Each value belongs to one character. */
  lemma OneSymbol(c: char)
    requires Decoded1(c).Some?
    ensures Decoded1(c).value < 64 && Symbol(Decoded1(c).value) == c && c != PAD
  {
    var k := ValueOf(c).value;
    ValuesDiffer(c, c);
    ValueHolds(k);
    AlphabetValues(k);
    ValuesDiffer(c, ALPHABET[k]);
  }

  lemma SextetsReadBack(p: bv24, q: bv24, r: bv24, s: bv24)
    requires p < 64 && q < 64 && r < 64 && s < 64
    ensures var w := FromSextets(p, q, r, s);
      Sextet(w, 0) == p && Sextet(w, 1) == q && Sextet(w, 2) == r && Sextet(w, 3) == s
  {
  }

  lemma BytesMakeWord(w: bv24)
    ensures Word(Byte(w, 0), Byte(w, 1), Byte(w, 2)) == w
  {
  }

  /** Zero spare bits leave zero bytes. */
  lemma SpareBytes(p: bv24, q: bv24, r: bv24)
    requires p < 64 && q < 64 && r < 64
    ensures r & 3 == 0 ==> Byte(FromSextets(p, q, r, 0), 2) == 0
    ensures q & 15 == 0 ==> Byte(FromSextets(p, q, 0, 0), 1) == 0 && Byte(FromSextets(p, q, 0, 0), 2) == 0
  {
  }

  lemma FourWriteBack(t: string)
    requires |t| == 4 && DecodedFour(t).Some?
    ensures var b := DecodedFour(t).value; |b| == 3 && Quartet(Word(b[0], b[1], b[2])) == t
  {
    hide Decoded1, FromSextets, Sextet, Symbol, Byte, Word;
    OneSymbol(t[0]);
    OneSymbol(t[1]);
    OneSymbol(t[2]);
    OneSymbol(t[3]);
    var p, q, r, s := Decoded1(t[0]).value, Decoded1(t[1]).value, Decoded1(t[2]).value, Decoded1(t[3]).value;
    SextetsReadBack(p, q, r, s);
    BytesMakeWord(FromSextets(p, q, r, s));
  }

  lemma ThreeWriteBack(t: string)
    requires |t| == 3 && DecodedThree(t).Some?
    ensures var b := DecodedThree(t).value; |b| == 2 && Quartet(Word(b[0], b[1], 0))[..3] == t
  {
    hide Decoded1, FromSextets, Sextet, Symbol, Byte, Word;
    OneSymbol(t[0]);
    OneSymbol(t[1]);
    OneSymbol(t[2]);
    var p, q, r := Decoded1(t[0]).value, Decoded1(t[1]).value, Decoded1(t[2]).value;
    SextetsReadBack(p, q, r, 0);
    SpareBytes(p, q, r);
    BytesMakeWord(FromSextets(p, q, r, 0));
  }

  lemma TwoWriteBack(t: string)
    requires |t| == 2 && DecodedTwo(t).Some?
    ensures var b := DecodedTwo(t).value; |b| == 1 && Quartet(Word(b[0], 0, 0))[..2] == t
  {
    hide Decoded1, FromSextets, Sextet, Symbol, Byte, Word;
    OneSymbol(t[0]);
    OneSymbol(t[1]);
    var p, q := Decoded1(t[0]).value, Decoded1(t[1]).value;
    SextetsReadBack(p, q, 0, 0);
    SpareBytes(p, q, 0);
    BytesMakeWord(FromSextets(p, q, 0, 0));
  }

  /** What decodes is the encoding of what it decodes to. */
  lemma {:induction false} DecodedIsEncoded(t: string)
    ensures Decoded(t).Some? ==> Encoded(Decoded(t).value) == t
    decreases |t|
  {
    hide Quartet, Word, DecodedFour, DecodedThree, DecodedTwo;
    if Decoded(t).Some? && t != [] {
      if |t| == 4 && t[3] == PAD {
        if t[2] == PAD {
          TwoWriteBack(t[..2]);
          assert t == t[..2] + [PAD, PAD];
        } else {
          ThreeWriteBack(t[..3]);
          assert t == t[..3] + [PAD];
        }
      } else {
        var head, tail := DecodedFour(t[..4]), Decoded(t[4..]);
        FourWriteBack(t[..4]);
        DecodedIsEncoded(t[4..]);
        assert (head.value + tail.value)[3..] == tail.value;
        assert t == t[..4] + t[4..];
      }
    }
  }

  /** The decoder accepts the encodings and nothing else: a text of another length,
      with a foreign character, a misplaced pad or spare bits set is refused. */
  lemma {:induction false} DecodesExactlyEncodings(t: string, s: Bytes)
    ensures Decoded(t) == Some(s) <==> t == Encoded(s)
  {
    RoundTrip(s);
    DecodedIsEncoded(t);
  }

  /** The shape of an encoding of `n` bytes: four characters for every three bytes
      begun, with padding only in the last two places: one pad for two bytes over,
      two for one byte over. */
  ghost predicate Padded(t: string, n: nat) {
    && |t| == 4 * ((n + 2) / 3)
    && (forall i :: 0 <= i < |t| && t[i] == PAD ==> i >= |t| - 2)
    && (n != 0 ==> (t[|t| - 1] == PAD <==> n % 3 != 0) && (t[|t| - 2] == PAD <==> n % 3 == 1))
  }

  /** Every encoding has that shape. */
  lemma {:induction false} Shape(s: Bytes)
    ensures Padded(Encoded(s), |s|)
    decreases |s|
  {
    hide Quartet, Word, Decoded1, Sextet;
    if s == [] {
    } else if |s| == 1 {
      QuartetReads(Word(s[0], 0, 0));
    } else if |s| == 2 {
      QuartetReads(Word(s[0], s[1], 0));
    } else {
      var q, rest := Quartet(Word(s[0], s[1], s[2])), Encoded(s[3..]);
      QuartetReads(Word(s[0], s[1], s[2]));
      Shape(s[3..]);
      assert forall i: nat :: i < 4 ==> q[i] != PAD;
      assert Encoded(s) == q + rest;
      hide Encoded, Padded;
      PadsAfter(q, rest, |s| - 3);
    }
  }

  lemma PadsAfter(q: string, rest: string, n: nat)
    requires |q| == 4 && (forall i: nat :: i < 4 ==> q[i] != PAD) && Padded(rest, n)
    ensures Padded(q + rest, n + 3)
  {
    var t := q + rest;
    assert forall i :: 4 <= i < |t| ==> t[i] == rest[i - 4];
  }
}
