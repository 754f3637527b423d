/** The Inertial Labs binary frames: their layout, what a host or a device sends,
    and the decision `frame_parser.cpp` takes at the front of its buffer. */
module ImuFrames {
  import opened ByteValues
  import opened Scanner

  type Bytes = seq<bv8>

  const HEADER_0: bv8 := 0xAA
  const HEADER_1: bv8 := 0x55
  const HEADER_LEN := 6
  const MIN_LENGTH_FIELD := 6
  const MAX_PAYLOAD_LEN := 4096

  /** The longest frame: two sync bytes and a maximal length field. */
  const MAX_FRAME_SIZE := 2 + MIN_LENGTH_FIELD + MAX_PAYLOAD_LEN

  datatype Frame = Frame(msgType: bv8, dataId: bv8, payload: Bytes)

  /** A little-endian 16-bit field. */
  function Field(low: bv8, high: bv8): (n: nat)
    ensures n < 0x10000
  {
    FieldBits(low, high);
    ((low as bv16) | ((high as bv16) << 8)) as int
  }

  lemma FieldBits(low: bv8, high: bv8)
    ensures ((low as bv16) | ((high as bv16) << 8)) as int == (low as int) + 256 * (high as int)
  {
  }

  /** The same field, written. */
  function FieldBytes(n: nat): Bytes
    requires n < 0x10000
  {
    [(n % 256) as bv8, (n / 256) as bv8]
  }

  lemma FieldValue(low: bv8, high: bv8)
    ensures Field(low, high) == (low as int) + 256 * (high as int)
  {
    FieldBits(low, high);
  }

  lemma FieldReadsBack(n: nat)
    requires n < 0x10000
    ensures |FieldBytes(n)| == 2 && Field(FieldBytes(n)[0], FieldBytes(n)[1]) == n
  {
    hide Field;
    var low, high := n % 256, n / 256;
    ByteHolds(low);
    ByteHolds(high);
    FieldValue(low as bv8, high as bv8);
  }

  /** The 16-bit arithmetic sum of some bytes, wrapping around. */
  function Sum(s: Bytes): (n: nat)
    ensures n < 0x10000
  {
    if s == [] then 0 else (Sum(s[..|s| - 1]) + s[|s| - 1] as int) % 0x10000
  }

  /** Bytes two to the last payload byte sum to the two checksum bytes. */
  predicate CheckHolds(f: Bytes)
    requires |f| >= 4
  {
    Sum(f[2..|f| - 2]) == Field(f[|f| - 2], f[|f| - 1])
  }

  function Decode(f: Bytes): Frame
    requires |f| >= HEADER_LEN + 2
  {
    Frame(f[2], f[3], f[HEADER_LEN..|f| - 2])
  }

  /** A frame on the wire: sync word, type, id, length of all but the sync word,
      payload and checksum. */
  predicate ValidFrame(f: Bytes) {
    && |f| >= HEADER_LEN + 2
    && f[0] == 0xAA && f[1] == 0x55
    && 6 <= Field(f[4], f[5]) <= 6 + 4096
    && |f| == 2 + Field(f[4], f[5])
    && CheckHolds(f)
  }

  /** What `push` does with the front of its buffer. */
  function ImuStep(s: Bytes): Verdict<Frame> {
    if |s| < 2 then NeedMore
    else if s[0] != HEADER_0 then Skip(NoSync)
    else if s[1] != HEADER_1 then Skip(NoSync)
    else if |s| < HEADER_LEN then NeedMore
    else
      var field := Field(s[4], s[5]);
      if field < MIN_LENGTH_FIELD || field - MIN_LENGTH_FIELD > MAX_PAYLOAD_LEN then Skip(BadHeader)
      else
        var total := field + 2;
        if |s| < total then NeedMore
        else if !CheckHolds(s[..total]) then Skip(BadCheck)
        else Take(total, Decode(s[..total]))
  }

  lemma StepSkipsNoise(s: Bytes)
    requires |s| >= 2 && (s[0] != HEADER_0 || s[1] != HEADER_1)
    ensures ImuStep(s) == Skip(NoSync)
  {
  }

  lemma StepSkipsLength(s: Bytes)
    requires |s| >= HEADER_LEN && s[0] == HEADER_0 && s[1] == HEADER_1
    requires !(MIN_LENGTH_FIELD <= Field(s[4], s[5]) <= MIN_LENGTH_FIELD + MAX_PAYLOAD_LEN)
    ensures ImuStep(s) == Skip(BadHeader)
  {
  }

  lemma StepWaits(s: Bytes)
    requires |s| >= 2 ==> s[0] == HEADER_0 && s[1] == HEADER_1
    requires |s| < HEADER_LEN ||
        (MIN_LENGTH_FIELD <= Field(s[4], s[5]) <= MIN_LENGTH_FIELD + MAX_PAYLOAD_LEN && |s| < Field(s[4], s[5]) + 2)
    ensures ImuStep(s).NeedMore?
  {
  }

  /** With a good header and enough bytes, only the checksum is left to decide. */
  lemma StepChecks(s: Bytes, f: Bytes)
    requires |s| >= HEADER_LEN && s[0] == HEADER_0 && s[1] == HEADER_1
    requires MIN_LENGTH_FIELD <= Field(s[4], s[5]) <= MIN_LENGTH_FIELD + MAX_PAYLOAD_LEN
    requires |f| == Field(s[4], s[5]) + 2 && f <= s
    ensures ImuStep(s) == if CheckHolds(f) then Take(|f|, Decode(f)) else Skip(BadCheck)
  {
    hide CheckHolds;
    assert s[..|f|] == f;
  }

  lemma StepDecides(s: Bytes)
    ensures ImuStep(s).Skip? ==> 0 < |s|
    ensures ImuStep(s).Take? ==> 0 < ImuStep(s).size <= |s|
    ensures MAX_FRAME_SIZE <= |s| ==> !ImuStep(s).NeedMore?
  {
    hide CheckHolds;
  }

  lemma StepIsStable(s: Bytes, t: Bytes)
    requires Extends(t, s) && !ImuStep(s).NeedMore?
    ensures ImuStep(t) == ImuStep(s)
  {
    hide CheckHolds;
    assert s[0] == t[0] && s[1] == t[1];
    if s[0] == HEADER_0 && s[1] == HEADER_1 {
      assert s[4] == t[4] && s[5] == t[5];
      if MIN_LENGTH_FIELD <= Field(s[4], s[5]) <= MIN_LENGTH_FIELD + MAX_PAYLOAD_LEN {
        var f := s[..Field(s[4], s[5]) + 2];
        StepChecks(s, f);
        StepChecks(t, f);
      }
    }
  }

  lemma StepIsRecogniser()
    ensures IsRecogniser(ImuStep) && DecidesWithin(ImuStep, MAX_FRAME_SIZE)
  {
    hide ImuStep;
    forall s { StepDecides(s); }
    forall s, t {:trigger Extends(t, s)} | Extends(t, s) && !ImuStep(s).NeedMore? ensures ImuStep(t) == ImuStep(s) {
      StepIsStable(s, t);
    }
  }

  /** The parser takes exactly the valid frames at its front, and decodes them. */
  lemma TakesValidFrames(s: Bytes, n: nat, frame: Frame)
    ensures ImuStep(s) == Take(n, frame) <==> n <= |s| && ValidFrame(s[..n]) && frame == Decode(s[..n])
  {
    hide CheckHolds, Field;
    if n <= |s| && n >= 8 {
      var f := s[..n];
      assert f[0] == s[0] && f[1] == s[1] && f[4] == s[4] && f[5] == s[5];
    }
  }

  // ----- what the sum catches -----

  /** The sum of some bytes, not wrapped. */
  ghost function Total(s: Bytes): nat {
    if s == [] then 0 else Total(s[..|s| - 1]) + s[|s| - 1] as int
  }

  lemma {:induction false} SumIsTotal(s: Bytes)
    ensures Sum(s) == Total(s) % 0x10000
    decreases |s|
  {
    if s != [] {
      SumIsTotal(s[..|s| - 1]);
      WrapsOnce(Total(s[..|s| - 1]), s[|s| - 1] as int);
    }
  }

  lemma WrapsOnce(x: nat, y: int)
    ensures (x % 0x10000 + y) % 0x10000 == (x + y) % 0x10000
  {
  }

  lemma {:induction false} TotalConcat(a: Bytes, b: Bytes)
    ensures Total(a + b) == Total(a) + Total(b)
    decreases |b|
  {
    if b == [] {
      assert a + b == a;
    } else {
      assert (a + b)[..|a + b| - 1] == a + b[..|b| - 1];
      TotalConcat(a, b[..|b| - 1]);
    }
  }

  /** The sum is that of its parts, wrapped: it starts from zero, and a byte counts
      for itself. */
  lemma {:induction false} SumAdds(a: Bytes, b: Bytes, c: bv8)
    ensures Sum(a + b) == (Sum(a) + Sum(b)) % 0x10000
    ensures Sum([]) == 0 && Sum([c]) == c as int
  {
    OneByteSum(c);
    SumIsTotal(a);
    SumIsTotal(b);
    SumIsTotal(a + b);
    TotalConcat(a, b);
    hide Sum, Total;
    RemaindersAdd(Total(a), Total(b));
  }

  lemma {:induction false} OneByteSum(c: bv8)
    ensures Sum([]) == 0 && Sum([c]) == c as int
  {
    var one := [c];
    assert one[..0] == [] && Sum(one) == (Sum(one[..0]) + one[0] as int) % 0x10000;
    ValuesDiffer(c, 0);
    SmallRemainder(Value(c));
  }

  lemma SmallRemainder(x: int)
    requires 0 <= x < 0x10000
    ensures x % 0x10000 == x
  {
  }

  lemma RemaindersAdd(x: nat, y: nat)
    ensures (x + y) % 0x10000 == (x % 0x10000 + y % 0x10000) % 0x10000
  {
  }

  lemma {:induction false} TotalOfChange(s: Bytes, i: nat, b: bv8)
    requires i < |s|
    ensures Total(s[i := b]) == Total(s) - s[i] as int + b as int
  {
    var t := s[i := b];
    assert s == s[..i] + [s[i]] + s[i + 1..] && t == s[..i] + [b] + s[i + 1..];
    TotalConcat(s[..i] + [s[i]], s[i + 1..]);
    TotalConcat(s[..i], [s[i]]);
    TotalConcat(s[..i] + [b], s[i + 1..]);
    TotalConcat(s[..i], [b]);
    assert [s[i]][..0] == [] && [b][..0] == [];
  }

  /** By how much the summed bytes and the checksum of a frame disagree. */
  ghost function Discrepancy(f: Bytes): int
    requires |f| >= 4
  {
    Total(f[2..|f| - 2]) - Field(f[|f| - 2], f[|f| - 1])
  }

  lemma {:induction false} CheckIsBalance(f: Bytes)
    requires |f| >= 4
    ensures CheckHolds(f) <==> Discrepancy(f) % 0x10000 == 0
  {
    hide Sum, Total, Field;
    SumIsTotal(f[2..|f| - 2]);
    RemainderIs(Total(f[2..|f| - 2]), Field(f[|f| - 2], f[|f| - 1]));
  }

  lemma RemainderIs(x: nat, r: nat)
    requires r < 0x10000
    ensures x % 0x10000 == r <==> (x - r) % 0x10000 == 0
  {
  }

  /** With the sync word and the length intact, an altered frame is dropped exactly
      if the change moves the summed bytes against the checksum, modulo 2^16. */
  lemma {:induction false} ChangeIsCaughtWhen(f: Bytes, g: Bytes, after: Bytes)
    requires ValidFrame(f) && |g| == |f|
    requires g[0] == f[0] && g[1] == f[1] && g[4] == f[4] && g[5] == f[5]
    ensures (Discrepancy(g) - Discrepancy(f)) % 0x10000 != 0 ==> ImuStep(g + after) == Skip(BadCheck)
    ensures (Discrepancy(g) - Discrepancy(f)) % 0x10000 == 0 ==> ImuStep(g + after) == Take(|g|, Decode(g))
  {
    hide CheckHolds, Discrepancy;
    CheckIsBalance(f);
    CheckIsBalance(g);
    StepChecks(g + after, g);
  }

  function Value(b: bv8): int {
    b as int
  }

  /** How much a changed byte moves the balance: a summed byte and the low byte of
      the checksum by their difference, the high byte by 256 times it. */
  lemma {:induction false} DiscrepancyOfChange(f: Bytes, i: nat, b: bv8)
    requires |f| >= 4 && 2 <= i < |f|
    ensures var n := |f| - 2;
      var d := Value(b) - Value(f[i]);
      Discrepancy(f[i := b]) - Discrepancy(f) == if i < n then d else if i == n then -d else -256 * d
  {
    hide Total, Field;
    var g, n := f[i := b], |f| - 2;
    if i < n {
      assert g[2..n] == f[2..n][i - 2 := b];
      TotalOfChange(f[2..n], i - 2, b);
    } else {
      assert g[2..n] == f[2..n];
    }
    FieldValue(f[n], f[n + 1]);
    FieldValue(g[n], g[n + 1]);
  }

  /** Any change of one byte is caught: of the sync word as noise, and of any other
      byte but the two of the length by the checksum. */
  lemma {:induction false} ByteChangeDetected(f: Bytes, i: nat, b: bv8, after: Bytes)
    requires ValidFrame(f) && i < |f| && i != 4 && i != 5 && b != f[i]
    ensures ImuStep(f[i := b] + after) == Skip(if i < 2 then NoSync else BadCheck)
  {
    hide CheckHolds, Discrepancy, Field;
    var g := f[i := b];
    if i < 2 {
      StepSkipsNoise(g + after);
    } else {
      ChangeUnbalances(f, i, b);
      ChangeIsCaughtWhen(f, g, after);
    }
  }

  lemma ValuesDiffer(a: bv8, b: bv8)
    ensures Value(a) == Value(b) ==> a == b
    ensures 0 <= Value(a) < 256 && 0 <= Value(b) < 256
  {
  }

  lemma {:induction false} ChangeUnbalances(f: Bytes, i: nat, b: bv8)
    requires |f| >= 4 && 2 <= i < |f| && b != f[i]
    ensures (Discrepancy(f[i := b]) - Discrepancy(f)) % 0x10000 != 0
  {
    hide Discrepancy, Value;
    ValuesDiffer(b, f[i]);
    DiscrepancyOfChange(f, i, b);
    SmallChange(Discrepancy(f[i := b]) - Discrepancy(f));
  }

  lemma SmallChange(d: int)
    requires d != 0 && -0x10000 < d < 0x10000
    ensures d % 0x10000 != 0
  {
  }

  /** An exchange of two payload bytes is not: the frame is taken with its payload
      altered. */
  lemma {:induction false} SwapIsMissed(f: Bytes, i: nat, j: nat, after: Bytes)
    requires ValidFrame(f) && HEADER_LEN <= i < j < |f| - 2
    ensures var g := f[i := f[j]][j := f[i]]; ImuStep(g + after) == Take(|g|, Decode(g))
  {
    hide CheckHolds, Total, Field;
    var n := |f| - 2;
    var g := f[i := f[j]][j := f[i]];
    assert g[2..n] == f[2..n][i - 2 := f[j]][j - 2 := f[i]];
    TotalOfChange(f[2..n], i - 2, f[j]);
    TotalOfChange(f[2..n][i - 2 := f[j]], j - 2, f[i]);
    ChangeIsCaughtWhen(f, g, after);
  }

  // ----- frames a sender builds -----

  function Encode(frame: Frame): Bytes
    requires |frame.payload| <= MAX_PAYLOAD_LEN
  {
    var body := [frame.msgType, frame.dataId] + FieldBytes(|frame.payload| + MIN_LENGTH_FIELD) + frame.payload;
    [HEADER_0, HEADER_1] + body + FieldBytes(Sum(body))
  }

  lemma EncodeIsRecognised(frame: Frame)
    requires |frame.payload| <= 4096
    ensures ImuStep(Encode(frame)) == Take(|Encode(frame)|, frame)
  {
    hide Field, Sum, FieldBytes, ImuStep;
    var length := FieldBytes(|frame.payload| + MIN_LENGTH_FIELD);
    var body := [frame.msgType, frame.dataId] + length + frame.payload;
    var check := FieldBytes(Sum(body));
    FieldReadsBack(|frame.payload| + MIN_LENGTH_FIELD);
    FieldReadsBack(Sum(body));
    var f := Encode(frame);
    assert f[4] == length[0] && f[5] == length[1];
    assert f[2..|f| - 2] == body && f[6..|f| - 2] == frame.payload;
    assert f[|f| - 2] == check[0] && f[|f| - 1] == check[1];
    StepChecks(f, f);
  }

  // ----- what the parser waits for -----

  /** Up to the checksum, `s` is the beginning of the longer valid frame `f`. */
  ghost predicate Begins(s: Bytes, f: Bytes) {
    ValidFrame(f) && |s| < |f| && forall i :: 0 <= i < |s| && i < |f| - 2 ==> s[i] == f[i]
  }

  function Filled(s: Bytes, n: nat): (r: Bytes)
    ensures |r| == n && forall i :: 0 <= i < n && i < |s| ==> r[i] == s[i]
  {
    seq(n, i requires 0 <= i < n => if i < |s| then s[i] else 0)
  }

  /** The parser waits exactly while what it has, checksum aside, can still become a
      valid frame; and it looks at the first byte only together with the second. */
  lemma {:induction false} WaitsExactlyForFrames(s: Bytes)
    ensures ImuStep(s).NeedMore? <==> (exists f :: Begins(s, f)) || (|s| == 1 && s[0] != HEADER_0)
  {
    hide CheckHolds, Field;
    if ImuStep(s).NeedMore? && !(|s| == 1 && s[0] != HEADER_0) {
      CanBecomeFrame(s);
    }
    if exists f :: Begins(s, f) {
      var f :| Begins(s, f);
      if |s| >= 2 { assert s[0] == f[0] && s[1] == f[1]; }
      if |s| >= HEADER_LEN { assert s[4] == f[4] && s[5] == f[5]; }
      StepWaits(s);
    }
  }

  lemma {:induction false} CanBecomeFrame(s: Bytes)
    requires ImuStep(s).NeedMore? && !(|s| == 1 && s[0] != HEADER_0)
    ensures exists f :: Begins(s, f)
  {
    hide CheckHolds, Field, Encode, ValidFrame, ImuStep, Filled;
    var low, high: bv8 := if |s| >= 5 then s[4] else 6, if |s| >= 6 then s[5] else 1;
    NeedBytes(s);
    FieldInRange(low);
    var sent := if |s| >= 6 then s[6..] else [];
    var payload := Filled(sent, Field(low, high) - MIN_LENGTH_FIELD);
    var msgType, dataId := if |s| >= 3 then s[2] else 0, if |s| >= 4 then s[3] else 0;
    var f := FrameWithHead(msgType, dataId, low, high, payload);
    PartsAgree(s, f, [HEADER_0, HEADER_1, msgType, dataId, low, high], payload);
    assert Begins(s, f);
  }

  lemma FrameWithHead(msgType: bv8, dataId: bv8, low: bv8, high: bv8, payload: Bytes) returns (f: Bytes)
    requires MIN_LENGTH_FIELD <= Field(low, high) <= MIN_LENGTH_FIELD + MAX_PAYLOAD_LEN
    requires |payload| == Field(low, high) - MIN_LENGTH_FIELD
    ensures ValidFrame(f) && |f| == Field(low, high) + 2
    ensures f[..6] == [HEADER_0, HEADER_1, msgType, dataId, low, high] && f[6..|f| - 2] == payload
  {
    hide CheckHolds, Field, FieldBytes, Encode, ValidFrame;
    FieldWrites(low, high);
    var frame := Frame(msgType, dataId, payload);
    f := Encode(frame);
    EncodeIsValid(frame);
    EncodeParts(frame);
  }

  lemma PartsAgree(s: Bytes, f: Bytes, head: Bytes, payload: Bytes)
    requires |head| == 6 && |f| >= 8 && f[..6] == head && f[6..|f| - 2] == payload
    requires forall i :: 0 <= i < |s| && i < 6 ==> s[i] == head[i]
    requires |s| > 6 ==> forall i :: 0 <= i < |s| - 6 && i < |payload| ==> s[6..][i] == payload[i]
    ensures forall i :: 0 <= i < |s| && i < |f| - 2 ==> s[i] == f[i]
  {
    forall i | 0 <= i < |s| && i < |f| - 2 ensures s[i] == f[i] {
      if i < 6 {
        assert f[i] == f[..6][i];
      } else {
        assert f[i] == f[6..|f| - 2][i - 6] && s[i] == s[6..][i - 6];
      }
    }
  }

  lemma EncodeIsValid(frame: Frame)
    requires |frame.payload| <= MAX_PAYLOAD_LEN
    ensures ValidFrame(Encode(frame))
  {
    var f := Encode(frame);
    EncodeIsRecognised(frame);
    TakesValidFrames(f, |f|, frame);
    assert f[..|f|] == f;
  }

  lemma EncodeParts(frame: Frame)
    requires |frame.payload| <= MAX_PAYLOAD_LEN
    ensures var f := Encode(frame);
      && |f| == |frame.payload| + 8 && f[6..|f| - 2] == frame.payload
      && f[..6] == [HEADER_0, HEADER_1, frame.msgType, frame.dataId] + FieldBytes(|frame.payload| + MIN_LENGTH_FIELD)
  {
  }

  lemma NeedBytes(s: Bytes)
    requires ImuStep(s).NeedMore?
    ensures |s| >= 2 ==> s[0] == HEADER_0 && s[1] == HEADER_1
    ensures |s| >= 6 ==> MIN_LENGTH_FIELD <= Field(s[4], s[5]) <= MIN_LENGTH_FIELD + MAX_PAYLOAD_LEN
    ensures |s| >= 6 ==> |s| < Field(s[4], s[5]) + 2
  {
    hide CheckHolds;
  }

  lemma FieldInRange(low: bv8)
    ensures MIN_LENGTH_FIELD <= Field(low, 1) <= MIN_LENGTH_FIELD + MAX_PAYLOAD_LEN
  {
    ValuesDiffer(low, 0);
    FieldValue(low, 1);
  }

  lemma FieldWrites(low: bv8, high: bv8)
    ensures FieldBytes(Field(low, high)) == [low, high]
  {
    hide Field;
    FieldValue(low, high);
    BackToByte(low);
    BackToByte(high);
    SplitField(Field(low, high), high as int, low as int);
  }

  lemma BackToByte(b: bv8)
    ensures 0 <= b as int < 256 && (b as int) as bv8 == b
  {
  }

  lemma SplitField(n: int, q: int, r: int)
    requires n == r + 256 * q && 0 <= r < 256
    ensures n / 256 == q && n % 256 == r
  {
  }

  // ----- messages.cpp -----

  /** The running-sum loop. */
  method Checksum(data: Bytes) returns (sum: nat)
    ensures sum == Sum(data)
  {
    sum := 0;
    for i := 0 to |data|
      invariant sum == Sum(data[..i])
    {
      assert data[..i + 1][..i] == data[..i];
      sum := (sum + data[i] as int) % 0x10000;
    }
    assert data[..|data|] == data;
  }

  /** A command is the frame of type 0 and id 0 whose payload is its code. */
  method BuildCommand(code: bv8) returns (f: Bytes)
    ensures f == Encode(Frame(0, 0, [code]))
  {
    hide Sum;
    f := [HEADER_0, HEADER_1, 0x00, 0x00, 0x07, 0x00, code];
    ghost var body: Bytes := [0, 0] + FieldBytes(7) + [code];
    assert f[2..] == body;
    var ck := Checksum(f[2..]);
    f := f + [(ck % 256) as bv8];
    f := f + [(ck / 256) as bv8];
    assert f == [HEADER_0, HEADER_1] + body + FieldBytes(ck);
  }
}
