/** One NTRIP session of `ntrip_client_node.cpp`, from the response header to the
    end of the stream.  The socket delivers its bytes in arbitrary pieces. */
module NtripSession {
  import opened RtcmFramer
  import ChunkedBody

  type Bytes = seq<bv8>

  const CR: bv8 := 0x0D
  const LF: bv8 := 0x0A
  const BLANK_LINE: Bytes := [CR, LF, CR, LF]
  const HEADER_BUFFER := 512
  const HEADER_LIMIT := 8192
  const BODY_BUFFER := 4096

  /** What one `recv` reports. */
  datatype Received = Data(bytes: Bytes) | Interrupted | Closed

  /** The receiving end of a connection.  `incoming` is what will still arrive
      before the connection ends, however it ends; `interrupts` is how many more
      calls a signal will interrupt. */
  class Socket {
    var incoming: Bytes
    var interrupts: nat

    constructor (bytes: Bytes, signals: nat)
      ensures incoming == bytes && interrupts == signals
    {
      incoming, interrupts := bytes, signals;
    }

    /** Some non-empty prefix of what is coming, of any length up to `max`. */
    method Recv(max: nat) returns (r: Received)
      requires max > 0
      modifies this
      ensures r.Data? ==> 0 < |r.bytes| <= max && old(incoming) == r.bytes + incoming && interrupts == old(interrupts)
      ensures r.Interrupted? ==> incoming == old(incoming) && interrupts < old(interrupts)
      ensures r.Closed? ==> old(incoming) == [] == incoming && interrupts == old(interrupts)
    {
      if interrupts > 0 {
        var signalled: bool := *;
        if signalled {
          interrupts := interrupts - 1;
          return Interrupted;
        }
      }
      if incoming == [] {
        return Closed;
      }
      var n :| 0 < n <= max && n <= |incoming|;
      r := Data(incoming[..n]);
      incoming := incoming[n..];
    }
  }

  // ----- the header block -----

  /** A blank line ends at `k`. */
  predicate BlankAt(s: Bytes, k: nat) {
    4 <= k <= |s| && s[k - 4..k] == BLANK_LINE
  }

  /** The block up to and including the first blank line ends at `e`. */
  ghost predicate EndsAt(s: Bytes, e: nat) {
    BlankAt(s, e) && forall k: nat :: k < e ==> !BlankAt(s, k)
  }

  /** The end of the first blank line, or zero if there is none. */
  method FindBlankLine(s: Bytes) returns (e: nat)
    ensures e != 0 ==> EndsAt(s, e)
    ensures e == 0 ==> forall k: nat :: !BlankAt(s, k)
  {
    e := 4;
    while e <= |s|
      invariant e >= 4 && forall k: nat :: k < e ==> !BlankAt(s, k)
    {
      if BlankAt(s, e) {
        return;
      }
      e := e + 1;
    }
    e := 0;
  }

  /** A prefix that shows a blank line shows it at the same place. */
  lemma BlankIsStable(s: Bytes, t: Bytes, k: nat)
    requires s <= t && k <= |s|
    ensures BlankAt(s, k) <==> BlankAt(t, k)
  {
    if 4 <= k { assert s[k - 4..k] == t[k - 4..k]; }
  }

  lemma EndIsStable(s: Bytes, t: Bytes, e: nat)
    requires s <= t && e <= |s|
    ensures EndsAt(s, e) <==> EndsAt(t, e)
  {
    forall k: nat | k <= e ensures BlankAt(s, k) <==> BlankAt(t, k) {
      BlankIsStable(s, t, k);
    }
  }

  lemma EndIsUnique(s: Bytes, d: nat, e: nat)
    requires EndsAt(s, d) && EndsAt(s, e)
    ensures d == e
  {
  }

  /** Where a prefix has no blank line, the block can only end beyond it. */
  lemma EndIsBeyond(s: Bytes, t: Bytes, e: nat)
    requires s <= t && EndsAt(t, e) && forall k: nat :: !BlankAt(s, k)
    ensures e > |s|
  {
    if e <= |s| { BlankIsStable(s, t, e); }
  }

  /** Returns the header block, or an empty one on failure, and what arrived
      behind it, always less than a buffer.  A block of at most 8192 bytes is always
      found, one longer than 8192 + 512 bytes never. */
  method ReadHeaders(sock: Socket) returns (header: Bytes, leftover: Bytes)
    modifies sock
    ensures header != [] ==> old(sock.incoming) == header + leftover + sock.incoming
    ensures header != [] ==> EndsAt(old(sock.incoming), |header|) && |header| <= 8704
    ensures |leftover| < 512
    ensures forall e: nat :: EndsAt(old(sock.incoming), e) && e <= 8192 ==> header != []
  {
    hide EndsAt, BlankAt;
    ghost var stream := sock.incoming;
    header, leftover := [], [];
    NothingIsBlank();
    while true
      invariant stream == header + sock.incoming && |header| <= HEADER_LIMIT
      invariant forall k: nat :: !BlankAt(header, k)
      decreases |sock.incoming| + sock.interrupts
    {
      ghost var before := header;
      var r := sock.Recv(HEADER_BUFFER);
      match r {
        case Interrupted =>
        case Closed =>
          assert header == stream;
          NoBlankNoEnd(stream);
          return [], [];
        case Data(bytes) =>
          header := header + bytes;
          Regroup(before, bytes, sock.incoming);
          var e := FindBlankLine(header);
          if e != 0 {
            HeaderEnds(before, bytes, sock.incoming, e);
            header, leftover := header[..e], header[e..];
            return;
          }
          if |header| > HEADER_LIMIT {
            forall d: nat | EndsAt(stream, d) ensures d > HEADER_LIMIT {
              EndIsBeyond(header, stream, d);
            }
            return [], [];
          }
      }
    }
  }

  lemma Regroup(a: Bytes, b: Bytes, rest: Bytes)
    ensures a + (b + rest) == (a + b) + rest && a + b <= (a + b) + rest
  {
  }

  /** A blank line found with the bytes of one piece ends within that piece, and
      splits the stream there. */
  lemma HeaderEnds(before: Bytes, bytes: Bytes, rest: Bytes, e: nat)
    requires EndsAt(before + bytes, e) && forall k: nat :: !BlankAt(before, k)
    ensures var s := before + bytes;
      && 4 <= e <= |s| && |s[e..]| < |bytes| && EndsAt(s + rest, e)
      && s + rest == s[..e] + s[e..] + rest
  {
    hide EndsAt, BlankAt;
    var s := before + bytes;
    EndIsWithin(s, e);
    EndIsStable(s, s + rest, e);
    EndIsBeyond(before, s, e);
  }

  lemma EndIsWithin(s: Bytes, e: nat)
    requires EndsAt(s, e)
    ensures 4 <= e <= |s|
  {
  }

  lemma NoBlankNoEnd(s: Bytes)
    requires forall k: nat :: !BlankAt(s, k)
    ensures forall e: nat :: !EndsAt(s, e)
  {
  }

  lemma NothingIsBlank()
    ensures forall k: nat :: !BlankAt([], k)
  {
  }

  // ----- exact reads -----

  method RecvExact(sock: Socket, len: nat) returns (ok: bool, bytes: Bytes)
    modifies sock
    ensures ok == (|old(sock.incoming)| >= len)
    ensures ok ==> old(sock.incoming) == bytes + sock.incoming && |bytes| == len
    ensures !ok ==> sock.incoming == []
  {
    bytes := [];
    while |bytes| < len
      invariant |bytes| <= len && old(sock.incoming) == bytes + sock.incoming
      decreases |sock.incoming| + sock.interrupts
    {
      var r := sock.Recv(len - |bytes|);
      match r {
        case Data(more) => bytes := bytes + more;
        case Interrupted =>
        case Closed => return false, bytes;
      }
    }
    ok := true;
  }

  // ----- the chunked reader -----

  method ReadChunkSize(sock: Socket) returns (size: ChunkedBody.Option<nat>)
    modifies sock
    ensures var s := ChunkedBody.ChunkSize(old(sock.incoming));
      if s.None? then size.None? else size == ChunkedBody.Some(s.value.size) && sock.incoming == s.value.rest
  {
    hide ChunkedBody.Stoul16;
    var line: Bytes := [];
    ghost var stream := sock.incoming;
    while |line| < ChunkedBody.MAX_LINE
      invariant ChunkedBody.TakeLine([], stream) == ChunkedBody.TakeLine(line, sock.incoming)
      decreases |sock.incoming|
    {
      ghost var before := sock.incoming;
      var ok, c := RecvExact(sock, 1);
      if !ok {
        return ChunkedBody.None;
      }
      assert before[0] == c[0] && before[1..] == sock.incoming;
      if c[0] == LF && line != [] && line[|line| - 1] == CR {
        line := line[..|line| - 1];
        assert ChunkedBody.TakeLine([], stream) == ChunkedBody.Line(line, sock.incoming);
        break;
      }
      line := line + [c[0]];
    }
    if line == [] {
      return ChunkedBody.None;
    }
    size := ChunkedBody.Stoul16(line);
    if size.Some? && size.value == ChunkedBody.SIZE_MAX {
      return ChunkedBody.None;
    }
  }

  /** Blocks of at most 4096 bytes go to the framer as they fill; the return value
      says whether the chunk came whole. */
  method ReadChunkData(sock: Socket, framer: Framer, size: nat) returns (whole: bool)
    requires framer.Valid() && size > 0
    modifies sock, framer
    ensures framer.Valid() && framer.earlier == old(framer.earlier)
    ensures whole == (|old(sock.incoming)| >= size)
    ensures whole ==>
      && framer.received == old(framer.received) + old(sock.incoming)[..size]
      && sock.incoming == old(sock.incoming)[size..]
    ensures !whole ==>
      framer.received == old(framer.received) + old(sock.incoming)[..|old(sock.incoming)| / BODY_BUFFER * BODY_BUFFER]
  {
    hide Framer.Valid, Extract;
    var left := size;
    ghost var done := 0;
    ghost var stream := sock.incoming;
    ghost var base := framer.received;
    while left > 0
      invariant left >= 0 && left + done == size && done <= |stream| && sock.incoming == stream[done..]
      invariant done % BODY_BUFFER == 0 || left == 0
      invariant framer.Valid() && framer.earlier == old(framer.earlier)
      invariant framer.received == base + stream[..done]
    {
      var want := if left < BODY_BUFFER then left else BODY_BUFFER;
      var ok, block := RecvExact(sock, want);
      if !ok {
        assert done == |stream| / BODY_BUFFER * BODY_BUFFER;
        return false;
      }
      framer.Push(block);
      assert stream[..done] + block == stream[..done + want];
      left := left - want;
      done := done + want;
    }
    whole := true;
  }

  /** One turn of the chunk loop; the return value says whether to go on. */
  method ReadChunk(sock: Socket, framer: Framer) returns (more: bool)
    requires framer.Valid()
    modifies sock, framer
    ensures framer.Valid() && framer.earlier == old(framer.earlier)
    ensures old(framer.received) <= framer.received
    ensures var got := framer.received[|old(framer.received)|..];
      ChunkedBody.Body(old(sock.incoming)) == if more then got + ChunkedBody.Body(sock.incoming) else got
    ensures more ==> |sock.incoming| < |old(sock.incoming)|
  {
    hide ChunkedBody.ChunkSize, ChunkedBody.Body, Framer.Valid, Extract;
    ChunkedBody.BodyUnfolds(sock.incoming);
    var size := ReadChunkSize(sock);
    if size.None? {
      return false;
    }
    if size.value == 0 {
      var _, _ := RecvExact(sock, 2);
      return false;
    }
    ghost var rest := sock.incoming;
    var whole := ReadChunkData(sock, framer, size.value);
    if !whole {
      return false;
    }
    var ok, crlf := RecvExact(sock, 2);
    assert ok ==> sock.incoming == rest[size.value..][2..] == rest[size.value + 2..];
    return ok;
  }

  method ReadChunked(sock: Socket, framer: Framer)
    requires framer.Valid()
    modifies sock, framer
    ensures framer.Valid() && framer.earlier == old(framer.earlier)
    ensures framer.received == old(framer.received) + ChunkedBody.Body(old(sock.incoming))
  {
    hide ChunkedBody.Body, Framer.Valid, Extract;
    ghost var base, stream := framer.received, sock.incoming;
    var more := true;
    while more
      invariant framer.Valid() && framer.earlier == old(framer.earlier)
      invariant more ==> framer.received + ChunkedBody.Body(sock.incoming) == base + ChunkedBody.Body(stream)
      invariant !more ==> framer.received == base + ChunkedBody.Body(stream)
      decreases more, |sock.incoming|
    {
      ghost var before := framer.received;
      more := ReadChunk(sock, framer);
      assert framer.received == before + framer.received[|before|..];
    }
  }

  // ----- the raw reader -----

  method ReadRaw(sock: Socket, framer: Framer, leftover: Bytes)
    requires framer.Valid()
    modifies sock, framer
    ensures framer.Valid() && framer.earlier == old(framer.earlier)
    ensures framer.received == old(framer.received) + leftover + old(sock.incoming)
  {
    hide Framer.Valid, Extract;
    if leftover != [] {
      framer.Push(leftover);
    }
    ghost var base := framer.received;
    assert base == old(framer.received) + leftover;
    while true
      invariant framer.Valid() && framer.earlier == old(framer.earlier)
      invariant framer.received + sock.incoming == base + old(sock.incoming)
      decreases |sock.incoming| + sock.interrupts
    {
      var r := sock.Recv(BODY_BUFFER);
      match r {
        case Data(bytes) => framer.Push(bytes);
        case Interrupted =>
        case Closed =>
          assert framer.received + [] == framer.received;
          return;
      }
    }
  }

  // ----- a session -----

  /** What the response header says: a stream, chunked or not, or anything else. */
  datatype Response = Stream(chunked: bool) | Rejected

  /** Reads the header, resets the framer, and feeds it the body.

      With a header block of at most 8192 bytes, the frames published depend on
      nothing but the bytes after it: in raw mode they are those of the bytes
      behind the blank line; in chunked mode those of the chunk data of what
      followed the `skipped` bytes that arrived together with the header.  If there
      were none of these, they are those of the data of which the body is an
      encoding, however it was cut into chunks. */
  method OneSession(sock: Socket, framer: Framer, classify: Bytes -> Response) returns (streamedAny: bool, skipped: nat)
    requires framer.Valid()
    modifies sock, framer
    ensures framer.Valid()
    ensures streamedAny == (framer.framesEmitted > old(framer.framesEmitted))
    ensures skipped < 512
    ensures forall e: nat :: EndsAt(old(sock.incoming), e) && e <= 8192 ==>
      var body := old(sock.incoming)[e..];
      match classify(old(sock.incoming)[..e])
      case Rejected => framer.published == old(framer.published)
      case Stream(false) => framer.published == old(framer.published) + Extract(body).frames
      case Stream(true) =>
        && skipped <= |body|
        && framer.published == old(framer.published) + Extract(ChunkedBody.Body(body[skipped..])).frames
        && (skipped == 0 ==> forall data :: ChunkedBody.Encodes(body, data) ==>
              framer.published == old(framer.published) + Extract(data).frames)
  {
    hide Framer.Valid, Extract, ChunkedBody.Body, ChunkedBody.Encodes;
    ghost var stream := sock.incoming;
    var header, leftover := ReadHeaders(sock);
    skipped := |leftover|;
    forall e: nat | EndsAt(stream, e) && e <= HEADER_LIMIT
      ensures header == stream[..e] && stream[e..] == leftover + sock.incoming
    {
      EndIsUnique(stream, e, |header|);
    }
    if header == [] || classify(header) == Rejected {
      return false, skipped;
    }
    var chunked := classify(header).chunked;
    framer.Reset();
    var before := framer.framesEmitted;
    ghost var rest := sock.incoming;
    if chunked {
      ReadChunked(sock, framer);
      assert framer.received == [] + ChunkedBody.Body(rest) == ChunkedBody.Body(rest);
    } else {
      ReadRaw(sock, framer, leftover);
      assert framer.received == [] + leftover + rest == leftover + rest;
    }
    streamedAny := framer.framesEmitted > before;
    framer.PublishedWhatArrived();
    forall e: nat | EndsAt(stream, e) && e <= HEADER_LIMIT
      ensures stream[e..][skipped..] == rest && stream[e..] == leftover + rest
    {
      assert (leftover + rest)[|leftover|..] == rest;
    }
    forall data | ChunkedBody.Encodes(rest, data) ensures ChunkedBody.Body(rest) == data {
      ChunkedBody.EncodingDecodes(rest, data);
    }
    assert skipped == 0 ==> leftover + rest == rest;
  }

  /** How data is cut into chunks, and which terminating chunk ends it, makes no
      difference to the frames. */
  lemma {:induction false} ChunkSplitIsInvisible(a: Bytes, b: Bytes, data: Bytes)
    requires ChunkedBody.Encodes(a, data) && ChunkedBody.Encodes(b, data)
    ensures Extract(ChunkedBody.Body(a)) == Extract(ChunkedBody.Body(b)) == Extract(data)
  {
    ChunkedBody.EncodingDecodes(a, data);
    ChunkedBody.EncodingDecodes(b, data);
  }

  /** If the bytes that arrived with the header reach into the data of the first
      chunk, up to a byte that starts no size line, the session publishes nothing. */
  lemma {:induction false} SwallowedStartPublishesNothing(
    c: ChunkedBody.Chunk, chunks: seq<ChunkedBody.Chunk>, last: Bytes, k: nat)
    requires ChunkedBody.WellFormed(c) && k < |c.data| && ChunkedBody.StartsNoSize(c.data[k])
    ensures var body := ChunkedBody.Encoded([c] + chunks, last);
      Extract(ChunkedBody.Body(body[|c.line| + 2 + k..])).frames == []
  {
    hide ChunkedBody.WellFormed, ChunkedBody.StartsNoSize, ChunkedBody.Body;
    assert ([c] + chunks)[1..] == chunks;
    ChunkedBody.SwallowedStartSilences(c, ChunkedBody.Encoded(chunks, last), k);
    NothingYieldsNothing();
  }

  lemma {:induction false} NothingYieldsNothing()
    ensures Extract([]).frames == []
  {
  }
}
