/** The incremental IMU parser of `frame_parser.cpp`: a buffer that pushes append
    to and the hunt erases from the front of, and four counters. */
module ImuParser {
  import opened Scanner
  import opened ImuFrames

  /** What one push of a whole stream into a fresh parser produces. */
  ghost function Parse(s: Bytes): Outcome<Frame> {
    StepIsRecogniser();
    Scan(ImuStep, s)
  }

  /** A frame takes eight bytes more than its payload. */
  ghost function WireLength(frames: seq<Frame>): nat {
    if frames == [] then 0 else |frames[0].payload| + 8 + WireLength(frames[1..])
  }

  lemma {:induction false} WireLengthConcat(a: seq<Frame>, b: seq<Frame>)
    ensures WireLength(a + b) == WireLength(a) + WireLength(b)
    decreases |a|
  {
    if a == [] {
      assert a + b == b;
    } else {
      assert (a + b)[1..] == a[1..] + b;
      WireLengthConcat(a[1..], b);
    }
  }

  lemma ParseUnfolds(s: Bytes)
    ensures ImuStep(s).NeedMore? ==> Parse(s) == Waiting(s)
    ensures ImuStep(s).Skip? ==> s != [] && Parse(s) == Dropped<Frame>(ImuStep(s).fault).Then(Parse(s[1..]))
    ensures ImuStep(s).Take? ==> 0 < ImuStep(s).size <= |s|
    ensures ImuStep(s).Take? ==> Parse(s) == Taken(ImuStep(s).size, ImuStep(s).frame).Then(Parse(s[ImuStep(s).size..]))
  {
    StepIsRecogniser();
  }

  /** The bytes a scan took are the bytes of the frames it returned. */
  lemma {:induction false} FrameBytesAreFrames(s: Bytes)
    ensures Parse(s).frameBytes == WireLength(Parse(s).frames)
    decreases |s|
  {
    hide ImuStep, Parse;
    ParseUnfolds(s);
    match ImuStep(s)
    case NeedMore =>
    case Skip(fault) =>
      FrameBytesAreFrames(s[1..]);
      assert Parse(s).frames == Parse(s[1..]).frames;
    case Take(n, f) =>
      TakesValidFrames(s, n, f);
      FrameBytesAreFrames(s[n..]);
      WireLengthConcat([f], Parse(s[n..]).frames);
      assert WireLength([f]) == |f.payload| + 8;
  }

  // ----- the stream theorems -----

  /** Every cutting of a stream into pushes yields the frames, the buffer and the
      counters of one push. */
  lemma {:induction false} ChunkingIsInvisible(chunks: seq<Bytes>)
    ensures IsRecogniser(ImuStep) && Feed(ImuStep, [], chunks) == Parse(Joined(chunks))
  {
    hide ImuStep;
    StepIsRecogniser();
    StepWaits([]);
    FeedIsScan(ImuStep, [], chunks);
    assert [] + Joined(chunks) == Joined(chunks);
  }

  /** The bytes of a stream are those of the parsed frames, those discarded and
      those still buffered, of which there are fewer than 4104. */
  lemma BytesAreConserved(s: Bytes)
    ensures WireLength(Parse(s).frames) + Parse(s).discarded + |Parse(s).rest| == |s|
    ensures |Parse(s).rest| < MAX_FRAME_SIZE
    ensures Parse(s).badHeader + Parse(s).badCheck <= Parse(s).discarded
  {
    hide ImuStep;
    StepIsRecogniser();
    ScanAccounts(ImuStep, s);
    ResidueBound(ImuStep, MAX_FRAME_SIZE, s);
    FrameBytesAreFrames(s);
  }

  /** How many bytes of the stream have left the buffer. */
  ghost function Consumed(s: Bytes): (hi: nat)
    ensures hi <= |s|
  {
    BytesAreConserved(s);
    |s| - |Parse(s).rest|
  }

  /** A valid frame lies at position `k` of the stream. */
  ghost predicate ValidAt(s: Bytes, k: nat, n: nat) {
    k + n <= |s| && ValidFrame(s[k..k + n])
  }

  /** `hits` are valid frames of `s`, in order and disjoint, and no valid frame
      that starts before `hi` is left out unless it starts inside one of them. */
  ghost predicate LeftmostValid(s: Bytes, hi: nat, hits: seq<Hit<Frame>>) {
    && (forall h :: h in hits ==>
        h.at < hi && ValidAt(s, h.at, h.size) && h.frame == Decode(s[h.at..h.at + h.size]) && h.at + h.size <= hi)
    && InOrder(hits)
    && (forall k: nat, n: nat {:trigger ValidAt(s, k, n)} :: k < hi && ValidAt(s, k, n) ==> Covered(hits, k))
  }

  lemma TakeIsValidAt(s: Bytes, k: nat, n: nat, f: Frame)
    requires k <= |s|
    ensures ImuStep(s[k..]) == Take(n, f) <==> ValidAt(s, k, n) && f == Decode(s[k..k + n])
    ensures ImuStep(s[k..]) == Take(n, f) ==> 0 < n
  {
    hide ImuStep;
    StepDecides(s[k..]);
    TakesValidFrames(s[k..], n, f);
    if k + n <= |s| { assert s[k..][..n] == s[k..k + n]; }
  }

  lemma ValidIsGreedy(s: Bytes, hi: nat, hits: seq<Hit<Frame>>)
    requires hi <= |s|
    ensures LeftmostValid(s, hi, hits) <==> LeftmostGreedy(ImuStep, s, 0, hi, hits)
  {
    hide ImuStep, Decode;
    forall h: Hit<Frame>
      ensures HitIn(ImuStep, s, 0, hi, h) <==>
              h.at < hi && ValidAt(s, h.at, h.size) && h.frame == Decode(s[h.at..h.at + h.size]) && h.at + h.size <= hi
    {
      if h.at < hi { TakeIsValidAt(s, h.at, h.size, h.frame); }
    }
    forall k: nat, n: nat | k < hi && ValidAt(s, k, n) ensures ImuStep(s[k..]).Take? {
      TakeIsValidAt(s, k, n, Decode(s[k..k + n]));
    }
    forall k: nat | k < hi && ImuStep(s[k..]).Take? ensures ValidAt(s, k, ImuStep(s[k..]).size) {
      TakeIsValidAt(s, k, ImuStep(s[k..]).size, ImuStep(s[k..]).frame);
    }
  }

  /** The parsed frames are the leftmost non-overlapping valid frames of the part
      of the stream that has left the buffer, and no other choice is. */
  lemma ParsesLeftmostValid(s: Bytes) returns (hits: seq<Hit<Frame>>)
    ensures Parse(s).frames == Frames(hits)
    ensures LeftmostValid(s, Consumed(s), hits)
    ensures forall other :: LeftmostValid(s, Consumed(s), other) ==> other == hits
  {
    hide ImuStep, LeftmostValid, LeftmostGreedy;
    StepIsRecogniser();
    hits := Hits(ImuStep, s, 0);
    ScanIsTheGreedyChoice(ImuStep, s, hits);
    var hi := Consumed(s);
    ValidIsGreedy(s, hi, hits);
    forall other | LeftmostValid(s, hi, other) ensures other == hits {
      ValidIsGreedy(s, hi, other);
      ScanIsTheGreedyChoice(ImuStep, s, other);
    }
  }

  /** Bounded resync latency: once 4104 bytes from position `k` on have arrived, a
      valid frame at `k` has been parsed, unless an earlier parsed frame covers its
      first byte; no false sync word before it delays it further. */
  lemma {:induction false} ParsesWithin4104(s: Bytes, k: nat, n: nat, hits: seq<Hit<Frame>>)
    requires k + 4104 <= |s| && ValidAt(s, k, n)
    requires LeftmostValid(s, Consumed(s), hits)
    ensures Covered(hits, k) && Parse(s).frames == Frames(hits)
  {
    BytesAreConserved(s);
    var own := ParsesLeftmostValid(s);
    assert hits == own;
  }

  /** A whole frame with a good header but a wrong checksum lies at position `k`. */
  ghost predicate BadSumAt(s: Bytes, k: nat) {
    && k + HEADER_LEN <= |s| && s[k] == HEADER_0 && s[k + 1] == HEADER_1
    && MIN_LENGTH_FIELD <= Field(s[k + 4], s[k + 5]) <= MIN_LENGTH_FIELD + MAX_PAYLOAD_LEN
    && var n := Field(s[k + 4], s[k + 5]) + 2;
      k + n <= |s| && Discrepancy(s[k..k + n]) % 0x10000 != 0
  }

  /** A sync word with an impossible length behind it lies at position `k`. */
  ghost predicate BadLengthAt(s: Bytes, k: nat) {
    && k + HEADER_LEN <= |s| && s[k] == HEADER_0 && s[k + 1] == HEADER_1
    && !(MIN_LENGTH_FIELD <= Field(s[k + 4], s[k + 5]) <= MIN_LENGTH_FIELD + MAX_PAYLOAD_LEN)
  }

  lemma BadSumIsSkip(s: Bytes, k: nat)
    requires k <= |s|
    ensures ImuStep(s[k..]) == Skip(BadCheck) <==> BadSumAt(s, k)
    ensures ImuStep(s[k..]) == Skip(BadHeader) <==> BadLengthAt(s, k)
  {
    hide CheckHolds, Field, Discrepancy;
    var t := s[k..];
    if |t| >= HEADER_LEN {
      var n := Field(t[4], t[5]) + 2;
      if 8 <= n <= |t| {
        assert t[..n] == s[k..k + n];
        CheckIsBalance(t[..n]);
      }
    }
  }

  /** The failures counted are the positions consumed, outside the parsed frames,
      where a whole frame with a wrong checksum lies, and those where the length is
      impossible. */
  lemma {:induction false} CountsBadFrames(s: Bytes, hits: seq<Hit<Frame>>)
    requires LeftmostValid(s, Consumed(s), hits)
    ensures Parse(s).badCheck == |set k: nat | k < Consumed(s) && BadSumAt(s, k) && !Covered(hits, k)|
    ensures Parse(s).badHeader == |set k: nat | k < Consumed(s) && BadLengthAt(s, k) && !Covered(hits, k)|
  {
    hide ImuStep, LeftmostValid, BadSumAt, BadLengthAt;
    StepIsRecogniser();
    var own := ParsesLeftmostValid(s);
    ScanIsTheGreedyChoice(ImuStep, s, Hits(ImuStep, s, 0));
    ValidIsGreedy(s, Consumed(s), Hits(ImuStep, s, 0));
    ScanCountsFaults(ImuStep, s, 0, BadCheck);
    ScanCountsFaults(ImuStep, s, 0, BadHeader);
    assert s[0..] == s;
    forall k: nat | k < Consumed(s)
      ensures ImuStep(s[k..]) == Skip(BadCheck) <==> BadSumAt(s, k)
      ensures ImuStep(s[k..]) == Skip(BadHeader) <==> BadLengthAt(s, k)
    {
      BadSumIsSkip(s, k);
    }
    assert Faults(ImuStep, s, 0, Consumed(s), hits, BadCheck) ==
        set k: nat | k < Consumed(s) && BadSumAt(s, k) && !Covered(hits, k);
    assert Faults(ImuStep, s, 0, Consumed(s), hits, BadHeader) ==
        set k: nat | k < Consumed(s) && BadLengthAt(s, k) && !Covered(hits, k);
  }

  /** Encoded frames sent back to back, in any chunking, come out as sent, with
      nothing discarded, nothing left and no checksum error. */
  lemma {:induction false} SentFramesArrive(frames: seq<Frame>, codes: seq<Bytes>, chunks: seq<Bytes>)
    requires |codes| == |frames|
    requires forall i :: 0 <= i < |codes| ==> |frames[i].payload| <= 4096 && codes[i] == Encode(frames[i])
    requires Joined(chunks) == Joined(codes)
    ensures IsRecogniser(ImuStep)
    ensures Feed(ImuStep, [], chunks) == Outcome(frames, [], |Joined(codes)|, 0, 0, 0)
  {
    hide ImuStep, Encode;
    StepIsRecogniser();
    StepWaits([]);
    forall i | 0 <= i < |codes| ensures ImuStep(codes[i]) == Take(|codes[i]|, frames[i]) {
      EncodeIsRecognised(frames[i]);
    }
    EncodedScan(ImuStep, frames, codes);
    ChunkingIsInvisible(chunks);
  }

  /** Appending to the stream and pushing onto its residue are the same. */
  lemma PushContinues(stream: Bytes, data: Bytes)
    ensures var o := Parse(Parse(stream).rest + data);
      && Parse(stream + data) == Parse(stream).Then(o)
      && |o.rest| < MAX_FRAME_SIZE && o.badHeader + o.badCheck <= o.discarded
      && WireLength(o.frames) + o.discarded + |o.rest| == |Parse(stream).rest| + |data|
  {
    hide ImuStep;
    StepIsRecogniser();
    ScanConcat(ImuStep, stream, data);
    BytesAreConserved(Parse(stream).rest + data);
  }

  // ----- the parser -----

  class FrameParser {
    var buf: Bytes
    var framesParsed: nat
    var checksumErrors: nat
    var bytesDiscarded: nat
    var resyncs: nat

    /** The bytes pushed and the frames returned since the last reset, and the
        discard count it started from. */
    ghost var received: Bytes
    ghost var returned: seq<Frame>
    ghost var discardedBefore: nat

    ghost predicate Valid()
      reads this
    {
      && buf == Parse(received).rest && |buf| < MAX_FRAME_SIZE
      && returned == Parse(received).frames
      && discardedBefore <= bytesDiscarded
      && |received| == WireLength(returned) + (bytesDiscarded - discardedBefore) + |buf|
      && checksumErrors <= resyncs <= bytesDiscarded
    }

    constructor ()
      ensures Valid() && buf == [] && received == [] && returned == [] && discardedBefore == 0
      ensures framesParsed == checksumErrors == bytesDiscarded == resyncs == 0
    {
      buf := [];
      framesParsed, checksumErrors, bytesDiscarded, resyncs := 0, 0, 0, 0;
      received, returned, discardedBefore := [], [], 0;
      new;
      StepWaits([]);
      ParseUnfolds([]);
    }

    /** Buffered bytes go uncounted. */
    method Reset()
      requires Valid()
      modifies this
      ensures Valid() && buf == [] && received == [] && returned == []
      ensures framesParsed == old(framesParsed) && checksumErrors == old(checksumErrors)
      ensures bytesDiscarded == old(bytesDiscarded) && resyncs == old(resyncs)
    {
      buf := [];
      received, returned, discardedBefore := [], [], bytesDiscarded;
      StepWaits([]);
      ParseUnfolds([]);
    }

    /** Appends the completed frames to `given`. */
    method Push(data: Bytes, given: seq<Frame>) returns (out: seq<Frame>)
      requires Valid()
      modifies this
      ensures Valid()
      ensures received == old(received) + data && discardedBefore == old(discardedBefore)
      ensures out == given + Parse(old(buf) + data).frames
      ensures returned == old(returned) + Parse(old(buf) + data).frames
      ensures buf == Parse(old(buf) + data).rest
      ensures framesParsed == old(framesParsed) + |Parse(old(buf) + data).frames|
      ensures checksumErrors == old(checksumErrors) + Parse(old(buf) + data).badCheck
      ensures resyncs == old(resyncs) + Parse(old(buf) + data).badHeader + Parse(old(buf) + data).badCheck
      ensures bytesDiscarded == old(bytesDiscarded) + Parse(old(buf) + data).discarded
    {
      hide Parse, WireLength;
      PushContinues(received, data);
      ghost var whole := buf + data;
      received := received + data;
      out := Hunt(data, given);
      WireLengthConcat(returned, Parse(whole).frames);
      returned := returned + Parse(whole).frames;
    }

    /** Append, then hunt for frames until the buffer needs more bytes. */
    method Hunt(data: Bytes, given: seq<Frame>) returns (out: seq<Frame>)
      modifies this`buf, this`framesParsed, this`checksumErrors, this`resyncs, this`bytesDiscarded
      ensures buf == Parse(old(buf) + data).rest
      ensures out == given + Parse(old(buf) + data).frames
      ensures framesParsed == old(framesParsed) + |Parse(old(buf) + data).frames|
      ensures checksumErrors == old(checksumErrors) + Parse(old(buf) + data).badCheck
      ensures resyncs == old(resyncs) + Parse(old(buf) + data).badHeader + Parse(old(buf) + data).badCheck
      ensures bytesDiscarded == old(bytesDiscarded) + Parse(old(buf) + data).discarded
    {
      hide Scan, ImuStep, Progress, IsRecogniser;
      StepIsRecogniser();
      buf := buf + data;
      out := given;
      ghost var whole := buf;
      ghost var done := ProgressStarts(ImuStep, whole);
      while |buf| >= 2
        invariant Progress(ImuStep, whole, buf, done)
        invariant out == given + done.frames
        invariant framesParsed == old(framesParsed) + |done.frames|
        invariant checksumErrors == old(checksumErrors) + done.badCheck
        invariant resyncs == old(resyncs) + done.badHeader + done.badCheck
        invariant bytesDiscarded == old(bytesDiscarded) + done.discarded
        decreases |buf|
      {
        var verdict := Look();
        match verdict {
          case NeedMore =>
            break;
          case Skip(fault) =>
            done := ProgressSkips(ImuStep, whole, buf, done, fault);
            DropFront();
            if fault == BadCheck {
              checksumErrors := checksumErrors + 1;
            }
            if fault != NoSync {
              resyncs := resyncs + 1;
            }
          case Take(totalLen, frame) =>
            done := ProgressTakes(ImuStep, whole, buf, done, totalLen, frame);
            out := out + [frame];
            framesParsed := framesParsed + 1;
            buf := buf[totalLen..];
        }
      }
      if |buf| < 2 { StepWaits(buf); }
      ProgressEnds(ImuStep, whole, buf, done);
    }

    method DropFront()
      requires buf != []
      modifies this`buf, this`bytesDiscarded
      ensures buf == old(buf)[1..] && bytesDiscarded == old(bytesDiscarded) + 1
    {
      buf := buf[1..];
      bytesDiscarded := bytesDiscarded + 1;
    }

    /** The tests the hunt makes at the front of the buffer, in its order. */
    method Look() returns (verdict: Verdict<Frame>)
      requires |buf| >= 2
      ensures verdict == ImuStep(buf)
      ensures verdict.Take? ==> 0 < verdict.size <= |buf|
    {
      hide ImuStep, Field, Sum;
      StepDecides(buf);
      if buf[0] != HEADER_0 || buf[1] != HEADER_1 {
        StepSkipsNoise(buf);
        return Skip(NoSync);
      }
      if |buf| < HEADER_LEN {
        StepWaits(buf);
        return NeedMore;
      }
      var lengthField := Field(buf[4], buf[5]);
      if lengthField < MIN_LENGTH_FIELD || lengthField - MIN_LENGTH_FIELD > MAX_PAYLOAD_LEN {
        StepSkipsLength(buf);
        return Skip(BadHeader);
      }
      var totalLen := lengthField + 2;
      if |buf| < totalLen {
        StepWaits(buf);
        return NeedMore;
      }
      var frame := buf[..totalLen];
      var sum := Checksum(frame[2..totalLen - 2]);
      StepChecks(buf, frame);
      if sum != Field(buf[totalLen - 2], buf[totalLen - 1]) {
        return Skip(BadCheck);
      }
      assert frame[HEADER_LEN..|frame| - 2] == buf[HEADER_LEN..totalLen - 2];
      return Take(totalLen, Frame(buf[2], buf[3], buf[HEADER_LEN..totalLen - 2]));
    }
  }
}
