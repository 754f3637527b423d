/** RTCM 3 frames: their layout, the decision `rtcm_framer.cpp` takes at its
    cursor, and what the checksum catches. */
module RtcmFrames {
  import opened ByteValues
  import opened Scanner
  import opened CrcTheory
  import opened Crc24
  import Crc24Parity

  const PREAMBLE: bv8 := 0xD3
  const HEADER_SIZE := 3
  const CRC_SIZE := 3
  const MAX_PAYLOAD := 1023
  const MAX_FRAME_SIZE := HEADER_SIZE + MAX_PAYLOAD + CRC_SIZE

  type Bytes = seq<bv8>

  /** The ten-bit payload length in header bytes 1 and 2. */
  function Length(b1: bv8, b2: bv8): nat {
    LengthBits(b1, b2);
    ((((b1 & 3) as bv16) << 8) | (b2 as bv16)) as int
  }

  lemma LengthBits(b1: bv8, b2: bv8)
    ensures ((((b1 & 3) as bv16) << 8) | (b2 as bv16)) as int == ((b1 & 3) as int) * 256 + (b2 as int)
    ensures 0 <= ((((b1 & 3) as bv16) << 8) | (b2 as bv16)) as int <= MAX_PAYLOAD
  {
  }

  /** The last three bytes are the CRC-24Q of those before them. */
  predicate CheckHolds(f: Bytes)
    requires |f| >= 3
  {
    Crc(f[..|f| - 3]) == FromTrailer(f[|f| - 3], f[|f| - 2], f[|f| - 1])
  }

  /** A frame as the standard lays it out: preamble, six reserved zero bits, a
      ten-bit length, the payload, and the CRC-24Q of all of it. */
  predicate ValidFrame(f: Bytes) {
    && |f| >= HEADER_SIZE + CRC_SIZE
    && f[0] == 0xD3
    && f[1] & 0xFC == 0
    && |f| == HEADER_SIZE + Length(f[1], f[2]) + CRC_SIZE
    && CheckHolds(f)
  }

  /** What `try_extract_frames` does with the bytes at its cursor. */
  function RtcmStep(s: Bytes): Verdict<Bytes> {
    if s == [] then NeedMore
    else if s[0] != PREAMBLE then Skip(NoSync)
    else if |s| < HEADER_SIZE then NeedMore
    else if s[1] & 0xFC != 0 then Skip(BadHeader)
    else
      var length := Length(s[1], s[2]);
      var size := HEADER_SIZE + length + CRC_SIZE;
      if |s| < size then NeedMore
      else if !CheckHolds(s[..size]) then Skip(BadCheck)
      else Take(size, s[..size])
  }

  lemma StepDecides(s: Bytes)
    ensures RtcmStep(s).Skip? ==> 0 < |s|
    ensures RtcmStep(s).Take? ==> 0 < RtcmStep(s).size <= |s|
    ensures MAX_FRAME_SIZE <= |s| ==> !RtcmStep(s).NeedMore?
  {
    if |s| >= 3 { LengthBits(s[1], s[2]); }
  }

  lemma StepSkipsNoise(s: Bytes)
    requires s != [] && s[0] != PREAMBLE
    ensures RtcmStep(s) == Skip(NoSync)
  {
  }

  lemma StepSkipsReserved(s: Bytes)
    requires |s| >= HEADER_SIZE && s[0] == PREAMBLE && s[1] & 0xFC != 0
    ensures RtcmStep(s) == Skip(BadHeader)
  {
  }

  lemma StepWaits(s: Bytes)
    requires s == [] || s[0] == PREAMBLE
    requires |s| < HEADER_SIZE || (s[1] & 0xFC == 0 && |s| < HEADER_SIZE + Length(s[1], s[2]) + CRC_SIZE)
    ensures RtcmStep(s).NeedMore?
  {
  }

  lemma StepIsStable(s: Bytes, t: Bytes)
    requires Extends(t, s) && !RtcmStep(s).NeedMore?
    ensures RtcmStep(t) == RtcmStep(s)
  {
    assert s[0] == t[0];
    if s[0] == PREAMBLE {
      assert s[1] == t[1] && s[2] == t[2];
      if s[1] & 0xFC == 0 {
        var size := HEADER_SIZE + Length(s[1], s[2]) + CRC_SIZE;
        StepChecks(s, s[..size]);
        assert t[..size] == s[..size];
        StepChecks(t, s[..size]);
      }
    }
  }

  /** With a good header and enough bytes, only the checksum is left to decide. */
  lemma StepChecks(s: Bytes, f: Bytes)
    requires |s| >= HEADER_SIZE && s[0] == PREAMBLE && s[1] & 0xFC == 0
    requires HEADER_SIZE + Length(s[1], s[2]) + CRC_SIZE == |f| && f <= s
    ensures RtcmStep(s) == if CheckHolds(f) then Take(|f|, f) else Skip(BadCheck)
  {
    assert s[..|f|] == f;
  }

  lemma StepIsRecogniser()
    ensures IsRecogniser(RtcmStep) && DecidesWithin(RtcmStep, MAX_FRAME_SIZE)
  {
    forall s { StepDecides(s); }
    forall s, t {:trigger Extends(t, s)} | Extends(t, s) && !RtcmStep(s).NeedMore? ensures RtcmStep(t) == RtcmStep(s) {
      StepIsStable(s, t);
    }
  }

  /** The framer takes exactly the valid frames at its cursor, whole. */
  lemma TakesValidFrames(s: Bytes, n: nat, f: Bytes)
    ensures RtcmStep(s) == Take(n, f) <==> n <= |s| && f == s[..n] && ValidFrame(f)
  {
    if n <= |s| && f == s[..n] {
      if |f| >= 6 {
        assert f[0] == s[0] && f[1] == s[1] && f[2] == s[2];
      }
    }
  }

  // ----- error detection -----

  /** The checksum holds exactly when the whole frame leaves a zero register. */
  lemma CheckIsResidue(f: Bytes)
    requires |f| >= 3
    ensures CheckHolds(f) <==> Crc(f) == 0
  {
    var n := |f| - 3;
    assert f == f[..n] + [f[n], f[n + 1], f[n + 2]];
    Residue(f[..n], f[n], f[n + 1], f[n + 2]);
  }

  /** In how many bits two byte strings of one length differ. */
  ghost function FlippedBits(f: Bytes, g: Bytes): nat
    requires |f| == |g|
  {
    BitCount(Crc24Parity.BitsSet, Xor(f, g))
  }

  /** A change that the code is built to catch: confined to 24 consecutive bits,
      across however many bytes, or of an odd number of bits. */
  ghost predicate Corrupts(f: Bytes, g: Bytes) {
    |f| == |g| && ((exists p: nat :: DifferInBurst(f, g, p)) || FlippedBits(f, g) % 2 == 1)
  }

  /** Any change within three consecutive bytes is one. */
  lemma {:induction false} ThreeBytesCorrupt(f: Bytes, g: Bytes, i: nat)
    requires |f| == |g| && i + 3 <= |f| && f != g
    requires forall j :: 0 <= j < |f| && !(i <= j < i + 3) ==> f[j] == g[j]
    ensures Corrupts(f, g)
  {
    ThreeBytesAreABurst(f, g, i);
  }

  lemma CorruptionBreaksResidue(f: Bytes, g: Bytes)
    requires Crc(f) == 0 && Corrupts(f, g)
    ensures Crc(g) != 0
  {
    CodeIsLinear();
    ZeroIsNeutral();
    if p: nat :| DifferInBurst(f, g, p) {
      CodeShiftsIn();
      CodeIsInvertible();
      CodeSeesThreeBytes();
      BurstDetected(CRC24Q, f, g, p);
    } else {
      BitCountParity(Crc24Parity.BitsSet, Crc24Parity.OddByte, Xor(f, g));
      Crc24Parity.CodeKeepsParity();
      OddChangeDetected(CRC24Q, Crc24Parity.Odd, Crc24Parity.OddByte, f, g);
    }
  }

  /** Every such change to an accepted frame, behind its three header bytes, makes
      the framer drop it for its checksum, whatever follows it in the stream. */
  lemma CorruptionDetected(f: Bytes, g: Bytes, after: Bytes)
    requires ValidFrame(f) && Corrupts(f, g) && g[..HEADER_SIZE] == f[..HEADER_SIZE]
    ensures RtcmStep(g + after) == Skip(BadCheck)
  {
    CheckIsResidue(f);
    CorruptionBreaksResidue(f, g);
    CheckIsResidue(g);
    assert g[0] == g[..3][0] && g[1] == g[..3][1] && g[2] == g[..3][2];
    StepChecks(g + after, g);
  }

  // ----- frames a sender builds -----

  function Header(length: nat): Bytes
    requires length <= MAX_PAYLOAD
  {
    [PREAMBLE, (length / 256) as bv8, (length % 256) as bv8]
  }

  function Encode(payload: Bytes): Bytes
    requires |payload| <= MAX_PAYLOAD
  {
    var body := Header(|payload|) + payload;
    body + Trailer(Crc(body))
  }

  lemma HeaderReadsBack(length: nat)
    requires length <= MAX_PAYLOAD
    ensures Header(length)[1] & 0xFC == 0 && Length(Header(length)[1], Header(length)[2]) == length
  {
    var q, r := length / 256, length % 256;
    SmallByte(q);
    ByteHolds(r);
    LengthBits(q as bv8, r as bv8);
    assert q * 256 + r == length;
  }

  lemma SmallByte(q: int)
    requires 0 <= q <= 3
    ensures (q as bv8) & 3 == q as bv8 && (q as bv8) & 0xFC == 0 && (q as bv8) as int == q
  {
  }

  lemma EncodeIsValid(payload: Bytes)
    requires |payload| <= 1023
    ensures ValidFrame(Encode(payload))
    ensures RtcmStep(Encode(payload)) == Take(|Encode(payload)|, Encode(payload))
  {
    var body := Header(|payload|) + payload;
    var f := Encode(payload);
    HeaderReadsBack(|payload|);
    TrailerRoundTrip(Crc(body));
    assert f[..|f| - 3] == body;
    TakesValidFrames(f, |f|, f);
  }

  // ----- what the framer waits for -----

  /** Up to the check, `s` is the beginning of the longer valid frame `f`. */
  ghost predicate Begins(s: Bytes, f: Bytes) {
    ValidFrame(f) && |s| < |f| && forall i :: 0 <= i < |s| && i < |f| - CRC_SIZE ==> s[i] == f[i]
  }

  lemma HeaderOfLength(b1: bv8, b2: bv8)
    requires b1 & 0xFC == 0
    ensures Length(b1, b2) <= MAX_PAYLOAD && Header(Length(b1, b2)) == [PREAMBLE, b1, b2]
  {
    LengthBits(b1, b2);
    TwoBits(b1);
    BackToByte(b1);
    BackToByte(b2);
    var n := Length(b1, b2);
    assert n == (b1 as int) * 256 + (b2 as int);
    assert n / 256 == b1 as int && n % 256 == b2 as int by { Digits256(n, b1 as int, b2 as int); }
  }

  lemma TwoBits(b: bv8)
    requires b & 0xFC == 0
    ensures b & 3 == b && b as int <= 3
  {
  }

  lemma BackToByte(b: bv8)
    ensures 0 <= b as int < 256 && (b as int) as bv8 == b
  {
  }

  lemma Digits256(n: int, q: int, r: int)
    requires n == q * 256 + r && 0 <= r < 256
    ensures n / 256 == q && n % 256 == r
  {
  }

  function Filled(s: Bytes, n: nat): (r: Bytes)
    ensures |r| == n && forall i :: 0 <= i < n && i < |s| ==> r[i] == s[i]
  {
    seq(n, i requires 0 <= i < n => if i < |s| then s[i] else 0)
  }

  /** The framer waits exactly while what it has, checks aside, can still become a
      valid frame; and it sees reserved bits only with the third header byte. */
  lemma WaitsExactlyForFrames(s: Bytes)
    ensures RtcmStep(s).NeedMore? <==>
            (exists f :: Begins(s, f)) || (|s| == 2 && s[0] == PREAMBLE && s[1] & 0xFC != 0)
  {
    if RtcmStep(s).NeedMore? && !(|s| == 2 && s[1] & 0xFC != 0) {
      CanBecomeFrame(s);
    }
    if exists f :: Begins(s, f) {
      var f :| Begins(s, f);
      if |s| > 0 { assert s[0] == f[0]; }
      if |s| >= HEADER_SIZE { assert s[1] == f[1] && s[2] == f[2]; }
      StepWaits(s);
    }
  }

  lemma CanBecomeFrame(s: Bytes)
    requires RtcmStep(s).NeedMore? && !(|s| == 2 && s[1] & 0xFC != 0)
    ensures exists f :: Begins(s, f)
  {
    hide Length, Header, Encode, ValidFrame, CheckHolds;
    var b1, b2 := if |s| >= 2 then s[1] else 0, if |s| >= 3 then s[2] else 0;
    NeedBytes(s);
    HeaderOfLength(b1, b2);
    var sent := if |s| >= 3 then s[3..] else [];
    var payload := Filled(sent, Length(b1, b2));
    var f := Encode(payload);
    EncodeIsValid(payload);
    EncodeParts(payload);
    forall i | 0 <= i < |s| && i < |f| - CRC_SIZE ensures s[i] == f[i] {
      if i < 3 {
        assert f[i] == f[..3][i];
      } else {
        assert f[i] == f[3..|f| - 3][i - 3] == sent[i - 3];
      }
    }
    assert Begins(s, f);
  }

  lemma NeedBytes(s: Bytes)
    requires RtcmStep(s).NeedMore?
    ensures |s| > 0 ==> s[0] == PREAMBLE
    ensures |s| >= 3 ==> s[1] & 0xFC == 0 && |s| < HEADER_SIZE + Length(s[1], s[2]) + CRC_SIZE
  {
    hide CheckHolds;
  }

  lemma EncodeParts(payload: Bytes)
    requires |payload| <= MAX_PAYLOAD
    ensures var f := Encode(payload);
      |f| == |payload| + 6 && f[..3] == Header(|payload|) && f[3..|f| - 3] == payload
  {
  }
}
