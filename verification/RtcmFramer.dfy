/** The RTCM 3 stream framer of `rtcm_framer.cpp`: a buffer that pushes append to
    and extraction erases from, three counters, and a handler for the frames. */
module RtcmFramer {
  import opened Scanner
  import opened RtcmFrames
  import Crc24
  import Crc24Table

  /** What one push of a whole stream into a fresh framer produces. */
  ghost function Extract(s: Bytes): Outcome<Bytes> {
    StepIsRecogniser();
    Scan(RtcmStep, s)
  }

  ghost function TotalLength(frames: seq<Bytes>): nat {
    if frames == [] then 0 else |frames[0]| + TotalLength(frames[1..])
  }

  lemma {:induction false} TotalLengthConcat(a: seq<Bytes>, b: seq<Bytes>)
    ensures TotalLength(a + b) == TotalLength(a) + TotalLength(b)
    decreases |a|
  {
    if a == [] {
      assert a + b == b;
    } else {
      assert (a + b)[1..] == a[1..] + b;
      TotalLengthConcat(a[1..], b);
    }
  }

  /** The bytes a scan took are the bytes of the frames it returned. */
  lemma {:induction false} FrameBytesAreFrames(s: Bytes)
    ensures Extract(s).frameBytes == TotalLength(Extract(s).frames)
    decreases |s|
  {
    StepIsRecogniser();
    match RtcmStep(s)
    case NeedMore =>
    case Skip(fault) =>
      FrameBytesAreFrames(s[1..]);
      assert Extract(s).frames == Extract(s[1..]).frames;
    case Take(n, f) =>
      TakesValidFrames(s, n, f);
      FrameBytesAreFrames(s[n..]);
      TotalLengthConcat([f], Extract(s[n..]).frames);
      assert TotalLength([f]) == |f|;
  }

  // ----- the stream theorems -----

  /** Every cutting of a stream into pushes yields the frames, the buffer and the
      counters of one push. */
  lemma {:induction false} ChunkingIsInvisible(chunks: seq<Bytes>)
    ensures IsRecogniser(RtcmStep) && Feed(RtcmStep, [], chunks) == Extract(Joined(chunks))
  {
    StepIsRecogniser();
    FeedIsScan(RtcmStep, [], chunks);
    assert [] + Joined(chunks) == Joined(chunks);
  }

  /** The bytes of a stream are those of the emitted frames, those discarded and
      those still buffered, of which there are fewer than 1029. */
  lemma BytesAreConserved(s: Bytes)
    ensures TotalLength(Extract(s).frames) + Extract(s).discarded + |Extract(s).rest| == |s|
    ensures |Extract(s).rest| < MAX_FRAME_SIZE
    ensures Extract(s).badCheck <= Extract(s).discarded
  {
    StepIsRecogniser();
    ScanAccounts(RtcmStep, s);
    ResidueBound(RtcmStep, MAX_FRAME_SIZE, s);
    FrameBytesAreFrames(s);
  }

  /** How many bytes of the stream have left the buffer. */
  ghost function Consumed(s: Bytes): (hi: nat)
    ensures hi <= |s|
  {
    StepIsRecogniser();
    ScanAccounts(RtcmStep, s);
    |s| - |Extract(s).rest|
  }

  /** A valid frame lies at position `k` of the stream. */
  ghost predicate ValidAt(s: Bytes, k: nat, n: nat) {
    k + n <= |s| && ValidFrame(s[k..k + n])
  }

  /** `hits` are valid frames of `s`, in order and disjoint, and no valid frame
      that starts before `hi` is left out unless it starts inside one of them. */
  ghost predicate LeftmostValid(s: Bytes, hi: nat, hits: seq<Hit<Bytes>>) {
    && (forall h :: h in hits ==>
        h.at < hi && ValidAt(s, h.at, h.size) && h.frame == s[h.at..h.at + h.size] && h.at + h.size <= hi)
    && InOrder(hits)
    && (forall k: nat, n: nat {:trigger ValidAt(s, k, n)} :: k < hi && ValidAt(s, k, n) ==> Covered(hits, k))
  }

  lemma TakeIsValidAt(s: Bytes, k: nat, n: nat, f: Bytes)
    requires k <= |s|
    ensures RtcmStep(s[k..]) == Take(n, f) <==> ValidAt(s, k, n) && f == s[k..k + n]
  {
    TakesValidFrames(s[k..], n, f);
    if k + n <= |s| { assert s[k..][..n] == s[k..k + n]; }
  }

  lemma TakeHasSize(s: Bytes)
    ensures RtcmStep(s).Take? ==> 0 < RtcmStep(s).size
  {
    StepDecides(s);
  }

  lemma ValidIsGreedy(s: Bytes, hi: nat, hits: seq<Hit<Bytes>>)
    requires hi <= |s|
    ensures LeftmostValid(s, hi, hits) <==> LeftmostGreedy(RtcmStep, s, 0, hi, hits)
  {
    forall h: Hit<Bytes>
      ensures HitIn(RtcmStep, s, 0, hi, h) <==>
              h.at < hi && ValidAt(s, h.at, h.size) && h.frame == s[h.at..h.at + h.size] && h.at + h.size <= hi
    {
      if h.at < hi {
        TakeIsValidAt(s, h.at, h.size, h.frame);
        TakeHasSize(s[h.at..]);
      }
    }
    forall k: nat, n: nat | k < hi && ValidAt(s, k, n) ensures RtcmStep(s[k..]).Take? {
      TakeIsValidAt(s, k, n, s[k..k + n]);
    }
    forall k: nat | k < hi && RtcmStep(s[k..]).Take? ensures ValidAt(s, k, RtcmStep(s[k..]).size) {
      TakeIsValidAt(s, k, RtcmStep(s[k..]).size, RtcmStep(s[k..]).frame);
    }
  }

  /** The emitted frames are the leftmost non-overlapping valid frames of the part
      of the stream that has left the buffer, and no other choice is. */
  lemma EmitsLeftmostValid(s: Bytes) returns (hits: seq<Hit<Bytes>>)
    ensures Extract(s).frames == Frames(hits)
    ensures LeftmostValid(s, Consumed(s), hits)
    ensures forall other :: LeftmostValid(s, Consumed(s), other) ==> other == hits
  {
    StepIsRecogniser();
    hits := Hits(RtcmStep, s, 0);
    ScanIsTheGreedyChoice(RtcmStep, s, hits);
    var hi := Consumed(s);
    ValidIsGreedy(s, hi, hits);
    forall other | LeftmostValid(s, hi, other) ensures other == hits {
      ValidIsGreedy(s, hi, other);
      ScanIsTheGreedyChoice(RtcmStep, s, other);
    }
  }

  /** Bounded resync latency: once 1029 bytes from position `k` on have arrived, a
      valid frame at `k` has been emitted, unless an earlier emitted frame covers
      its first byte; no false preamble before it delays it further. */
  lemma {:induction false} EmitsWithin1029(s: Bytes, k: nat, n: nat, hits: seq<Hit<Bytes>>)
    requires k + 1029 <= |s| && ValidAt(s, k, n)
    requires LeftmostValid(s, Consumed(s), hits)
    ensures Covered(hits, k) && Extract(s).frames == Frames(hits)
  {
    BytesAreConserved(s);
    var own := EmitsLeftmostValid(s);
    assert hits == own;
  }

  /** A whole frame with a good header but a wrong CRC lies at position `k`. */
  ghost predicate BadCrcAt(s: Bytes, k: nat) {
    && k + HEADER_SIZE <= |s| && s[k] == PREAMBLE && s[k + 1] & 0xFC == 0
    && var n := HEADER_SIZE + Length(s[k + 1], s[k + 2]) + CRC_SIZE;
      k + n <= |s| && Crc24.Crc(s[k..k + n]) != 0
  }

  lemma BadCrcIsSkip(s: Bytes, k: nat)
    requires k <= |s|
    ensures RtcmStep(s[k..]) == Skip(BadCheck) <==> BadCrcAt(s, k)
  {
    hide CheckHolds, Length, Crc24.Crc;
    var t := s[k..];
    if |t| >= HEADER_SIZE {
      var n := HEADER_SIZE + Length(t[1], t[2]) + CRC_SIZE;
      if n <= |t| {
        assert t[..n] == s[k..k + n];
        CheckIsResidue(t[..n]);
      }
    }
  }

  /** The CRC failures counted are the positions consumed, outside the emitted
      frames, where a whole frame with a wrong CRC lies. */
  lemma {:induction false} CountsBadCrcs(s: Bytes, hits: seq<Hit<Bytes>>)
    requires LeftmostValid(s, Consumed(s), hits)
    ensures Extract(s).badCheck == |set k: nat | k < Consumed(s) && BadCrcAt(s, k) && !Covered(hits, k)|
  {
    hide RtcmStep, LeftmostValid, BadCrcAt;
    StepIsRecogniser();
    var own := EmitsLeftmostValid(s);
    ScanIsTheGreedyChoice(RtcmStep, s, Hits(RtcmStep, s, 0));
    ValidIsGreedy(s, Consumed(s), Hits(RtcmStep, s, 0));
    ScanCountsFaults(RtcmStep, s, 0, BadCheck);
    assert s[0..] == s;
    BadCrcFaults(s, Consumed(s), hits);
  }

  lemma {:induction false} BadCrcFaults(s: Bytes, hi: nat, hits: seq<Hit<Bytes>>)
    requires hi <= |s|
    ensures Faults(RtcmStep, s, 0, hi, hits, BadCheck) == set k: nat | k < hi && BadCrcAt(s, k) && !Covered(hits, k)
  {
    hide RtcmStep, BadCrcAt, Covered;
    forall k: nat | k < hi ensures RtcmStep(s[k..]) == Skip(BadCheck) <==> BadCrcAt(s, k) {
      BadCrcIsSkip(s, k);
    }
  }

  /** Encoded payloads sent back to back come out as sent. */
  lemma {:induction false} SentFramesArrive(payloads: seq<Bytes>, codes: seq<Bytes>)
    requires |codes| == |payloads|
    requires forall i :: 0 <= i < |codes| ==> |payloads[i]| <= 1023 && codes[i] == Encode(payloads[i])
    ensures Extract(Joined(codes)) == Outcome(codes, [], |Joined(codes)|, 0, 0, 0)
  {
    StepIsRecogniser();
    forall i | 0 <= i < |codes| ensures RtcmStep(codes[i]) == Take(|codes[i]|, codes[i]) {
      EncodeIsValid(payloads[i]);
    }
    EncodedScan(RtcmStep, codes, codes);
  }

  // ----- the framer -----

  /** The received checksum, as the framer assembles it. */
  function Word(h: bv8, m: bv8, l: bv8): bv32 {
    ((h as bv32) << 16) | ((m as bv32) << 8) | (l as bv32)
  }

  lemma WordIsTrailer(h: bv8, m: bv8, l: bv8)
    ensures Word(h, m, l) == Crc24Table.Widen(Crc24.FromTrailer(h, m, l))
  {
  }

  lemma WidenIsInjective(c: bv24, d: bv24)
    ensures Crc24Table.Widen(c) == Crc24Table.Widen(d) <==> c == d
  {
  }

  method CheckFrame(f: Bytes) returns (ok: bool)
    requires |f| >= 3
    ensures ok == CheckHolds(f)
  {
    hide Crc24.Crc, Crc24.FromTrailer, Crc24Table.Widen, Word;
    var n := |f| - 3;
    var computed := Crc24Table.Crc24q(f[..n]);
    var received := Word(f[n], f[n + 1], f[n + 2]);
    WordIsTrailer(f[n], f[n + 1], f[n + 2]);
    WidenIsInjective(Crc24.Crc(f[..n]), Crc24.FromTrailer(f[n], f[n + 1], f[n + 2]));
    ok := computed == received;
  }

  /** Appending to the stream and pushing onto its residue are the same. */
  lemma PushContinues(stream: Bytes, data: Bytes)
    ensures var o := Extract(Extract(stream).rest + data);
      && Extract(stream + data) == Extract(stream).Then(o)
      && |o.rest| < MAX_FRAME_SIZE && o.badCheck <= o.discarded
      && TotalLength(o.frames) + o.discarded + |o.rest| == |Extract(stream).rest| + |data|
  {
    StepIsRecogniser();
    ScanConcat(RtcmStep, stream, data);
    BytesAreConserved(Extract(stream).rest + data);
  }

  lemma PushNothing(stream: Bytes)
    ensures Extract(Extract(stream).rest) == Waiting(Extract(stream).rest)
  {
    StepIsRecogniser();
    ScanAccounts(RtcmStep, stream);
    ScanSettled(RtcmStep, Extract(stream).rest);
  }

  class Framer {
    var buffer: Bytes
    var framesEmitted: nat
    var badCrcCount: nat
    var bytesDiscarded: nat

    /** What the handler has been called with. */
    var published: seq<Bytes>

    /** Every byte ever pushed, the bytes pushed since the last reset, and the
        frames published before it. */
    ghost var pushed: nat
    ghost var received: Bytes
    ghost var earlier: seq<Bytes>

    ghost predicate Valid()
      reads this
    {
      && buffer == Extract(received).rest
      && published == earlier + Extract(received).frames
      && framesEmitted == |published|
      && pushed == TotalLength(published) + bytesDiscarded + |buffer|
      && |buffer| < MAX_FRAME_SIZE
      && badCrcCount <= bytesDiscarded
    }

    /** Since the last reset exactly the frames of the bytes pushed were published. */
    lemma PublishedWhatArrived()
      requires Valid()
      ensures published == earlier + Extract(received).frames && framesEmitted == |published|
    {
    }

    constructor ()
      ensures Valid() && buffer == [] && published == [] && received == [] && earlier == []
      ensures framesEmitted == badCrcCount == bytesDiscarded == pushed == 0
    {
      buffer := [];
      framesEmitted, badCrcCount, bytesDiscarded := 0, 0, 0;
      published := [];
      pushed, received, earlier := 0, [], [];
      new;
      StepIsRecogniser();
    }

    method Push(data: Bytes)
      requires Valid()
      modifies this
      ensures Valid()
      ensures received == old(received) + data && earlier == old(earlier) && pushed == old(pushed) + |data|
      ensures buffer == Extract(old(buffer) + data).rest
      ensures published == old(published) + Extract(old(buffer) + data).frames
      ensures framesEmitted == old(framesEmitted) + |Extract(old(buffer) + data).frames|
      ensures badCrcCount == old(badCrcCount) + Extract(old(buffer) + data).badCheck
      ensures bytesDiscarded == old(bytesDiscarded) + Extract(old(buffer) + data).discarded
    {
      hide Extract, TotalLength, RtcmStep;
      PushContinues(received, data);
      PushNothing(received);
      ghost var whole := buffer + data;
      received := received + data;
      pushed := pushed + |data|;
      if |data| == 0 {
        assert whole == buffer;
        return;
      }
      buffer := buffer + data;
      TryExtractFrames();
      TotalLengthConcat(old(published), Extract(whole).frames);
      assert published == earlier + Extract(received).frames;
    }

    method Reset()
      requires Valid()
      modifies this
      ensures Valid()
      ensures buffer == [] && received == [] && earlier == published == old(published) && pushed == old(pushed)
      ensures bytesDiscarded == old(bytesDiscarded) + old(|buffer|)
      ensures framesEmitted == old(framesEmitted) && badCrcCount == old(badCrcCount)
    {
      bytesDiscarded := bytesDiscarded + |buffer|;
      buffer := [];
      received, earlier := [], published;
      StepIsRecogniser();
    }

    method TryExtractFrames()
      modifies this`buffer, this`framesEmitted, this`badCrcCount, this`bytesDiscarded, this`published
      ensures buffer == Extract(old(buffer)).rest
      ensures published == old(published) + Extract(old(buffer)).frames
      ensures framesEmitted == old(framesEmitted) + |Extract(old(buffer)).frames|
      ensures badCrcCount == old(badCrcCount) + Extract(old(buffer)).badCheck
      ensures bytesDiscarded == old(bytesDiscarded) + Extract(old(buffer)).discarded
    {
      hide Scan, RtcmStep, Progress, IsRecogniser;
      StepIsRecogniser();
      var cursor: nat := 0;
      ghost var done := ProgressStarts(RtcmStep, buffer);
      assert buffer[0..] == buffer;
      while cursor < |buffer|
        invariant buffer == old(buffer) && cursor <= |buffer| && Progress(RtcmStep, buffer, buffer[cursor..], done)
        invariant published == old(published) + done.frames
        invariant framesEmitted == old(framesEmitted) + |done.frames|
        invariant badCrcCount == old(badCrcCount) + done.badCheck
        invariant bytesDiscarded == old(bytesDiscarded) + done.discarded
        decreases |buffer| - cursor
      {
        ghost var s := buffer[cursor..];
        var verdict := Look(cursor);
        match verdict {
          case NeedMore =>
            break;
          case Skip(fault) =>
            done := ProgressSkips(RtcmStep, buffer, s, done, fault);
            assert s[1..] == buffer[cursor + 1..];
            if fault == BadCheck {
              badCrcCount := badCrcCount + 1;
            }
            cursor := cursor + 1;
            bytesDiscarded := bytesDiscarded + 1;
          case Take(frameSize, frame) =>
            done := ProgressTakes(RtcmStep, buffer, s, done, frameSize, frame);
            assert s[frameSize..] == buffer[cursor + frameSize..];
            published := published + [frame];
            framesEmitted := framesEmitted + 1;
            cursor := cursor + frameSize;
        }
      }

      StepWaits([]);
      assert cursor == |buffer| ==> buffer[cursor..] == [];
      ProgressEnds(RtcmStep, buffer, buffer[cursor..], done);
      if cursor > 0 {
        buffer := buffer[cursor..];
      }
    }

    /** The tests the extraction loop makes at its cursor, in its order. */
    method Look(cursor: nat) returns (verdict: Verdict<Bytes>)
      requires cursor < |buffer|
      ensures verdict == RtcmStep(buffer[cursor..])
      ensures verdict.Take? ==> 0 < verdict.size <= |buffer| - cursor
    {
      hide RtcmStep, CheckHolds, Length;
      ghost var s := buffer[cursor..];
      StepDecides(s);
      if buffer[cursor] != PREAMBLE {
        StepSkipsNoise(s);
        return Skip(NoSync);
      }
      if |buffer| - cursor < HEADER_SIZE {
        StepWaits(s);
        return NeedMore;
      }
      // The upper six bits of byte 1 are reserved.
      if buffer[cursor + 1] & 0xFC != 0 {
        StepSkipsReserved(s);
        return Skip(BadHeader);
      }
      var length := Length(buffer[cursor + 1], buffer[cursor + 2]);
      var frameSize := HEADER_SIZE + length + CRC_SIZE;
      if |buffer| - cursor < frameSize {
        StepWaits(s);
        return NeedMore;
      }
      var frame := buffer[cursor..cursor + frameSize];
      assert frame <= s;
      StepChecks(s, frame);
      var ok := CheckFrame(frame);
      return if ok then Take(frameSize, frame) else Skip(BadCheck);
    }
  }
}
