/** Resynchronising stream scanning, shared by the two binary parsers.

    Both `RtcmFramer` and the IMU `FrameParser` look at the front of a byte
    buffer and do one of three things: wait for more bytes, drop one byte, or
    take a frame.  A *recogniser* is that decision as a function of the buffer;
    everything that follows from its shape alone is proved here once. */
module Scanner {

  /** Why one byte was dropped. */
  datatype Fault = NoSync | BadHeader | BadCheck

  /** What the front of the buffer calls for. */
  datatype Verdict<+F> = NeedMore | Skip(fault: Fault) | Take(size: nat, frame: F)

  /** What scanning a buffer to quiescence produces. */
  datatype Outcome<+F> = Outcome(
    frames: seq<F>,
    rest: seq<bv8>,
    frameBytes: nat,
    discarded: nat,
    badHeader: nat,
    badCheck: nat)
  {
    /** Sequential composition: this outcome, then `next` on what it left over. */
    function Then(next: Outcome<F>): Outcome<F> {
      Outcome(frames + next.frames, next.rest, frameBytes + next.frameBytes,
              discarded + next.discarded, badHeader + next.badHeader, badCheck + next.badCheck)
    }
  }

  /** A frame found at an absolute position of the stream. */
  datatype Hit<+F> = Hit(at: nat, size: nat, frame: F)

  /** A recogniser never decides on bytes it does not have, makes progress when
      it decides, and does not change its mind when more bytes arrive. */
  ghost predicate IsRecogniser<F(!new)>(step: seq<bv8> -> Verdict<F>) {
    && (forall s :: step(s).Skip? ==> 0 < |s|)
    && (forall s :: step(s).Take? ==> 0 < step(s).size <= |s|)
    && (forall s, t {:trigger Extends(t, s)} :: Extends(t, s) && !step(s).NeedMore? ==> step(t) == step(s))
  }

  /** `t` is `s` with more bytes after it. */
  predicate Extends(t: seq<bv8>, s: seq<bv8>) {
    s <= t
  }

  /** A recogniser that has decided by the time `bound` bytes are buffered. */
  ghost predicate DecidesWithin<F(!new)>(step: seq<bv8> -> Verdict<F>, bound: nat) {
    forall s :: bound <= |s| ==> !step(s).NeedMore?
  }

  function Dropped<F>(fault: Fault): Outcome<F> {
    Outcome([], [], 0, 1, if fault == BadHeader then 1 else 0, if fault == BadCheck then 1 else 0)
  }

  function Taken<F>(size: nat, frame: F): Outcome<F> {
    Outcome([frame], [], size, 0, 0, 0)
  }

  function Waiting<F>(s: seq<bv8>): Outcome<F> {
    Outcome([], s, 0, 0, 0, 0)
  }

  /** The scan of a whole buffer. */
  ghost function Scan<F(!new)>(step: seq<bv8> -> Verdict<F>, s: seq<bv8>): Outcome<F>
    requires IsRecogniser(step)
    decreases |s|
  {
    match step(s)
    case NeedMore => Waiting(s)
    case Skip(fault) => Dropped<F>(fault).Then(Scan(step, s[1..]))
    case Take(n, frame) => Taken(n, frame).Then(Scan(step, s[n..]))
  }

  /** The hits of a scan that starts at stream position `base`. */
  ghost function Hits<F(!new)>(step: seq<bv8> -> Verdict<F>, s: seq<bv8>, base: nat): seq<Hit<F>>
    requires IsRecogniser(step)
    decreases |s|
  {
    match step(s)
    case NeedMore => []
    case Skip(_) => Hits(step, s[1..], base + 1)
    case Take(n, frame) => [Hit(base, n, frame)] + Hits(step, s[n..], base + n)
  }

  ghost function Frames<F>(hits: seq<Hit<F>>): seq<F> {
    if hits == [] then [] else [hits[0].frame] + Frames(hits[1..])
  }

  /** All chunks of a delivery, joined. */
  ghost function Joined(chunks: seq<seq<bv8>>): seq<bv8> {
    if chunks == [] then [] else chunks[0] + Joined(chunks[1..])
  }

  /** Scanning chunk by chunk, each time prepending what the last scan left. */
  ghost function Feed<F(!new)>(step: seq<bv8> -> Verdict<F>, buffer: seq<bv8>, chunks: seq<seq<bv8>>): Outcome<F>
    requires IsRecogniser(step)
    decreases |chunks|
  {
    if chunks == [] then Waiting(buffer)
    else
      var first := Scan(step, buffer + chunks[0]);
      first.Then(Feed(step, first.rest, chunks[1..]))
  }

  // ----- what a scan leaves behind -----

  /** The residue is undecided and is a suffix of the input, and every byte is
      accounted for: taken in a frame, dropped, or still buffered. */
  lemma {:induction false} ScanAccounts<F(!new)>(step: seq<bv8> -> Verdict<F>, s: seq<bv8>)
    requires IsRecogniser(step)
    ensures var o := Scan(step, s);
      && step(o.rest).NeedMore?
      && o.frameBytes + o.discarded + |o.rest| == |s|
      && o.rest == s[|s| - |o.rest|..]
      && o.badHeader + o.badCheck <= o.discarded
    decreases |s|
  {
    match step(s)
    case NeedMore =>
    case Skip(_) => ScanAccounts(step, s[1..]);
    case Take(n, _) => ScanAccounts(step, s[n..]);
  }

  /** Scanning what a scan left changes nothing. */
  lemma {:induction false} ScanSettled<F(!new)>(step: seq<bv8> -> Verdict<F>, s: seq<bv8>)
    requires IsRecogniser(step) && step(s).NeedMore?
    ensures Scan(step, s) == Waiting(s)
  {
  }

  /** The residue stays below the length at which every recogniser has decided. */
  lemma {:induction false} ResidueBound<F(!new)>(step: seq<bv8> -> Verdict<F>, bound: nat, s: seq<bv8>)
    requires IsRecogniser(step) && DecidesWithin(step, bound)
    ensures |Scan(step, s).rest| < bound
  {
    ScanAccounts(step, s);
  }

  // ----- independence from chunking -----

  lemma ThenAssociates<F>(a: Outcome<F>, b: Outcome<F>, c: Outcome<F>)
    ensures a.Then(b).Then(c) == a.Then(b.Then(c))
  {
    assert a.frames + b.frames + c.frames == a.frames + (b.frames + c.frames);
  }

  /** Cutting a buffer in two and carrying the residue over is the same as
      scanning it whole. */
  lemma {:induction false} ScanConcat<F(!new)>(step: seq<bv8> -> Verdict<F>, a: seq<bv8>, b: seq<bv8>)
    requires IsRecogniser(step)
    ensures Scan(step, a + b) == Scan(step, a).Then(Scan(step, Scan(step, a).rest + b))
    decreases |a|
  {
    assert Extends(a + b, a);
    match step(a)
    case NeedMore =>
    case Skip(fault) =>
      assert (a + b)[1..] == a[1..] + b;
      ScanConcat(step, a[1..], b);
      var tail := Scan(step, a[1..]);
      ThenAssociates(Dropped(fault), tail, Scan(step, tail.rest + b));
    case Take(n, frame) =>
      assert (a + b)[n..] == a[n..] + b;
      ScanConcat(step, a[n..], b);
      var tail := Scan(step, a[n..]);
      ThenAssociates(Taken(n, frame), tail, Scan(step, tail.rest + b));
  }

  lemma {:induction false} FeedStep<F(!new)>(step: seq<bv8> -> Verdict<F>, head: seq<bv8>, tail: seq<bv8>,
      chunks: seq<seq<bv8>>)
    requires IsRecogniser(step) && tail == Joined(chunks)
    ensures Scan(step, head).Then(Feed(step, Scan(step, head).rest, chunks)) == Scan(step, head + tail)
    decreases |chunks|, 1
  {
    var rest := Scan(step, head).rest;
    ScanAccounts(step, head);
    FeedIsScan(step, rest, chunks);
    ScanConcat(step, head, tail);
  }

  /** Any cutting of the stream into pushes gives the outcome of one push. */
  lemma {:induction false} FeedIsScan<F(!new)>(step: seq<bv8> -> Verdict<F>, buffer: seq<bv8>, chunks: seq<seq<bv8>>)
    requires IsRecogniser(step) && step(buffer).NeedMore?
    ensures Feed(step, buffer, chunks) == Scan(step, buffer + Joined(chunks))
    decreases |chunks|, 0
  {
    if chunks == [] {
      assert buffer + Joined(chunks) == buffer;
    } else {
      var head, tail := buffer + chunks[0], Joined(chunks[1..]);
      assert buffer + Joined(chunks) == head + tail;
      FeedStep(step, head, tail, chunks[1..]);
    }
  }

  // ----- a scan in progress -----

  /** A loop that has reached `rest` of `whole`, with `done` to show for what came
      before, is on its way to the scan of `whole`. */
  ghost predicate Progress<F(!new)>(step: seq<bv8> -> Verdict<F>, whole: seq<bv8>, rest: seq<bv8>, done: Outcome<F>) {
    IsRecogniser(step) && done.rest == [] && Scan(step, whole) == done.Then(Scan(step, rest))
  }

  lemma ProgressStarts<F(!new)>(step: seq<bv8> -> Verdict<F>, whole: seq<bv8>) returns (done: Outcome<F>)
    requires IsRecogniser(step)
    ensures Progress(step, whole, whole, done) && done == Waiting([])
  {
    done := Waiting([]);
    assert done.Then(Scan(step, whole)) == Scan(step, whole);
  }

  lemma ProgressSkips<F(!new)>(step: seq<bv8> -> Verdict<F>, whole: seq<bv8>, rest: seq<bv8>, done: Outcome<F>,
      fault: Fault)
    returns (next: Outcome<F>)
    requires Progress(step, whole, rest, done) && rest != [] && step(rest) == Skip(fault)
    ensures Progress(step, whole, rest[1..], next)
    ensures next.frames == done.frames && next.discarded == done.discarded + 1
    ensures next.badHeader == done.badHeader + if fault == BadHeader then 1 else 0
    ensures next.badCheck == done.badCheck + if fault == BadCheck then 1 else 0
  {
    next := done.Then(Dropped(fault));
    ThenAssociates(done, Dropped(fault), Scan(step, rest[1..]));
  }

  lemma ProgressTakes<F(!new)>(step: seq<bv8> -> Verdict<F>, whole: seq<bv8>, rest: seq<bv8>, done: Outcome<F>,
      size: nat, frame: F)
    returns (next: Outcome<F>)
    requires Progress(step, whole, rest, done) && size <= |rest| && step(rest) == Take(size, frame)
    ensures Progress(step, whole, rest[size..], next)
    ensures next.frames == done.frames + [frame] && next.discarded == done.discarded
    ensures next.badHeader == done.badHeader && next.badCheck == done.badCheck
  {
    next := done.Then(Taken(size, frame));
    ThenAssociates(done, Taken(size, frame), Scan(step, rest[size..]));
  }

  lemma {:induction false} ProgressEnds<F(!new)>(step: seq<bv8> -> Verdict<F>, whole: seq<bv8>, rest: seq<bv8>,
      done: Outcome<F>)
    requires Progress(step, whole, rest, done) && step(rest).NeedMore?
    ensures IsRecogniser(step) && Scan(step, whole) == done.(rest := rest)
  {
    assert done.frames + [] == done.frames;
  }

  // ----- leftmost greedy selection -----

  /** `hit` is a frame of `s` that starts in [lo, hi) and ends by `hi`. */
  ghost predicate HitIn<F(!new)>(step: seq<bv8> -> Verdict<F>, s: seq<bv8>, lo: nat, hi: nat, hit: Hit<F>)
    requires hi <= |s|
  {
    lo <= hit.at < hit.at + hit.size <= hi && step(s[hit.at..]) == Take(hit.size, hit.frame)
  }

  ghost predicate InOrder<F>(hits: seq<Hit<F>>) {
    forall i, j :: 0 <= i < j < |hits| ==> hits[i].at + hits[i].size <= hits[j].at
  }

  /** Position `k` starts a hit or lies inside one. */
  ghost predicate Covered<F>(hits: seq<Hit<F>>, k: nat) {
    exists h :: h in hits && h.at <= k < h.at + h.size
  }

  /** `hits` are exactly the leftmost non-overlapping frames that start in
      [lo, hi) of `s`: each is a frame where it says, they are in order without
      overlap, and a frame that is not among them starts inside one of them. */
  ghost predicate LeftmostGreedy<F(!new)>(step: seq<bv8> -> Verdict<F>, s: seq<bv8>, lo: nat, hi: nat,
      hits: seq<Hit<F>>)
    requires hi <= |s|
  {
    && (forall h :: h in hits ==> HitIn(step, s, lo, hi, h))
    && InOrder(hits)
    && (forall k :: lo <= k < hi && step(s[k..]).Take? ==> Covered(hits, k))
  }

  lemma InOrderCons<F>(head: Hit<F>, tail: seq<Hit<F>>)
    ensures InOrder([head] + tail) <==> InOrder(tail) && forall h :: h in tail ==> head.at + head.size <= h.at
  {
    var all := [head] + tail;
    assert all[0] == head && all[1..] == tail;
    if InOrder(all) {
      forall h | h in tail ensures head.at + head.size <= h.at {
        var j :| 0 <= j < |tail| && tail[j] == h;
        assert all[j + 1] == h;
      }
      forall i, j | 0 <= i < j < |tail| ensures tail[i].at + tail[i].size <= tail[j].at {
        assert tail[i] == all[i + 1] && tail[j] == all[j + 1];
      }
    }
    if InOrder(tail) && forall h :: h in tail ==> head.at + head.size <= h.at {
      forall i, j | 0 <= i < j < |all| ensures all[i].at + all[i].size <= all[j].at {
        assert all[j] == tail[j - 1];
        if i > 0 { assert all[i] == tail[i - 1]; }
      }
    }
  }

  /** A frame at the left end, put before a greedy choice after it, is greedy. */
  lemma GreedyExtends<F(!new)>(step: seq<bv8> -> Verdict<F>, s: seq<bv8>, lo: nat, hi: nat, head: Hit<F>,
      tail: seq<Hit<F>>)
    requires hi <= |s| && head.at == lo && HitIn(step, s, lo, hi, head)
    requires LeftmostGreedy(step, s, lo + head.size, hi, tail)
    ensures LeftmostGreedy(step, s, lo, hi, [head] + tail)
  {
    var all := [head] + tail;
    forall h | h in tail ensures HitIn(step, s, lo, hi, h) && head.at + head.size <= h.at {
      assert HitIn(step, s, lo + head.size, hi, h);
    }
    InOrderCons(head, tail);
    forall k | lo <= k < hi && step(s[k..]).Take? ensures Covered(all, k) {
      if k < lo + head.size {
        assert head in all;
      } else {
        var h :| h in tail && h.at <= k < h.at + h.size;
        assert h in all;
      }
    }
  }

  /** What follows the first frame of a greedy choice is greedy after it. */
  lemma GreedyRemainder<F(!new)>(step: seq<bv8> -> Verdict<F>, s: seq<bv8>, lo: nat, hi: nat, head: Hit<F>,
      tail: seq<Hit<F>>)
    requires hi <= |s| && head.at == lo && HitIn(step, s, lo, hi, head)
    requires LeftmostGreedy(step, s, lo, hi, [head] + tail)
    ensures LeftmostGreedy(step, s, lo + head.size, hi, tail)
  {
    var all := [head] + tail;
    InOrderCons(head, tail);
    forall h | h in tail ensures HitIn(step, s, lo + head.size, hi, h) {
      assert h in all && HitIn(step, s, lo, hi, h);
    }
    forall k | lo + head.size <= k < hi && step(s[k..]).Take? ensures Covered(tail, k) {
      assert Covered(all, k);
      var h :| h in all && h.at <= k < h.at + h.size;
      assert h in tail;
    }
  }

  /** Where no frame starts at the left end, the choice is greedy one byte on. */
  lemma GreedySkips<F(!new)>(step: seq<bv8> -> Verdict<F>, s: seq<bv8>, lo: nat, hi: nat, hits: seq<Hit<F>>)
    requires lo < hi <= |s| && !step(s[lo..]).Take?
    ensures LeftmostGreedy(step, s, lo, hi, hits) <==> LeftmostGreedy(step, s, lo + 1, hi, hits)
  {
    forall h ensures HitIn(step, s, lo, hi, h) <==> HitIn(step, s, lo + 1, hi, h) { }
  }

  /** A frame at the left end of the range is the first of any greedy choice. */
  lemma GreedyStarts<F(!new)>(step: seq<bv8> -> Verdict<F>, s: seq<bv8>, lo: nat, hi: nat, hits: seq<Hit<F>>)
    requires lo < hi <= |s| && step(s[lo..]).Take? && LeftmostGreedy(step, s, lo, hi, hits)
    ensures hits != [] && hits[0] == Hit(lo, step(s[lo..]).size, step(s[lo..]).frame)
    ensures HitIn(step, s, lo, hi, hits[0])
  {
    assert Covered(hits, lo);
    var h :| h in hits && h.at <= lo < h.at + h.size;
    assert HitIn(step, s, lo, hi, h) && HitIn(step, s, lo, hi, hits[0]);
    var i :| 0 <= i < |hits| && hits[i] == h;
    assert i == 0;
  }

  /** A greedy choice over a range that starts with a frame is that frame and a
      greedy choice after it. */
  lemma GreedySplits<F(!new)>(step: seq<bv8> -> Verdict<F>, s: seq<bv8>, lo: nat, hi: nat, hits: seq<Hit<F>>,
      head: Hit<F>)
    returns (tail: seq<Hit<F>>)
    requires hi <= |s| && HitIn(step, s, lo, hi, head) && head.at == lo && LeftmostGreedy(step, s, lo, hi, hits)
    ensures hits == [head] + tail && LeftmostGreedy(step, s, lo + head.size, hi, tail)
  {
    GreedyStarts(step, s, lo, hi, hits);
    tail := hits[1..];
    assert hits == [head] + tail;
    GreedyRemainder(step, s, lo, hi, head, tail);
  }

  lemma GreedyNeedsRoom<F(!new)>(step: seq<bv8> -> Verdict<F>, s: seq<bv8>, lo: nat, hi: nat, hits: seq<Hit<F>>)
    requires hi <= |s| && LeftmostGreedy(step, s, lo, hi, hits)
    ensures hits != [] ==> lo < hi
  {
    if hits != [] { assert HitIn(step, s, lo, hi, hits[0]); }
  }

  /** How far into `s` the scan started at `base` gets. */
  ghost function Reach<F(!new)>(step: seq<bv8> -> Verdict<F>, s: seq<bv8>, base: nat): (hi: nat)
    requires IsRecogniser(step) && base <= |s|
    ensures base <= hi <= |s|
  {
    ScanAccounts(step, s[base..]);
    |s| - |Scan(step, s[base..]).rest|
  }

  lemma {:induction false} FramesCons<F>(head: Hit<F>, tail: seq<Hit<F>>)
    ensures Frames([head] + tail) == [head.frame] + Frames(tail)
  {
    assert ([head] + tail)[1..] == tail;
  }

  lemma FramesOfNone<F>()
    ensures Frames<F>([]) == []
  {
  }

  /** A scan returns its hits' frames, in order. */
  lemma {:induction false} ScanReturnsHits<F(!new)>(step: seq<bv8> -> Verdict<F>, s: seq<bv8>, base: nat)
    requires IsRecogniser(step)
    ensures Scan(step, s).frames == Frames(Hits(step, s, base))
    decreases |s|
  {
    hide Frames;
    match step(s)
    case NeedMore => assert Hits(step, s, base) == []; FramesOfNone<F>();
    case Skip(_) => ScanReturnsHits(step, s[1..], base + 1);
    case Take(n, frame) =>
      ScanReturnsHits(step, s[n..], base + n);
      FramesCons(Hit(base, n, frame), Hits(step, s[n..], base + n));
  }

  /** One dropped byte moves the scan on by one position. */
  lemma SkipMovesOn<F(!new)>(step: seq<bv8> -> Verdict<F>, s: seq<bv8>, base: nat)
    requires IsRecogniser(step) && base <= |s| && step(s[base..]).Skip?
    ensures base < Reach(step, s, base) == Reach(step, s, base + 1)
    ensures Hits(step, s[base..], base) == Hits(step, s[base + 1..], base + 1)
  {
    assert s[base..][1..] == s[base + 1..];
    assert base + 1 <= Reach(step, s, base + 1);
  }

  /** A taken frame moves the scan past it. */
  lemma TakeMovesOn<F(!new)>(step: seq<bv8> -> Verdict<F>, s: seq<bv8>, base: nat) returns (head: Hit<F>)
    requires IsRecogniser(step) && base <= |s| && step(s[base..]).Take?
    ensures step(s[base..]) == Take(head.size, head.frame) && head.at == base
    ensures base < base + head.size <= Reach(step, s, base) == Reach(step, s, base + head.size)
    ensures Hits(step, s[base..], base) == [head] + Hits(step, s[base + head.size..], base + head.size)
    ensures HitIn(step, s, base, Reach(step, s, base), head)
  {
    head := Hit(base, step(s[base..]).size, step(s[base..]).frame);
    assert s[base..][head.size..] == s[base + head.size..];
    assert base + head.size <= Reach(step, s, base + head.size);
  }

  /** The scan's own choice is leftmost greedy over the part it consumed. */
  lemma {:induction false} ScanIsGreedy<F(!new)>(step: seq<bv8> -> Verdict<F>, s: seq<bv8>, base: nat, hi: nat,
      hits: seq<Hit<F>>)
    requires IsRecogniser(step) && base <= |s| && hi == Reach(step, s, base) && hits == Hits(step, s[base..], base)
    ensures LeftmostGreedy(step, s, base, hi, hits)
    decreases |s| - base
  {
    match step(s[base..])
    case NeedMore =>
    case Skip(_) =>
      SkipMovesOn(step, s, base);
      ScanIsGreedy(step, s, base + 1, hi, hits);
      GreedySkips(step, s, base, hi, hits);
    case Take(_, _) =>
      var head := TakeMovesOn(step, s, base);
      var next := base + head.size;
      var tail := Hits(step, s[next..], next);
      ScanIsGreedy(step, s, next, hi, tail);
      GreedyExtends(step, s, base, hi, head, tail);
  }

  /** No other choice is leftmost greedy over the part the scan consumed. */
  lemma {:induction false} GreedyIsUnique<F(!new)>(step: seq<bv8> -> Verdict<F>, s: seq<bv8>, base: nat, hi: nat,
      hits: seq<Hit<F>>)
    requires IsRecogniser(step) && base <= |s| && hi == Reach(step, s, base)
    requires LeftmostGreedy(step, s, base, hi, hits)
    ensures hits == Hits(step, s[base..], base)
    decreases |s| - base
  {
    hide LeftmostGreedy, IsRecogniser, HitIn;
    match step(s[base..])
    case NeedMore =>
      GreedyNeedsRoom(step, s, base, hi, hits);
    case Skip(_) =>
      SkipMovesOn(step, s, base);
      GreedySkips(step, s, base, hi, hits);
      GreedyIsUnique(step, s, base + 1, hi, hits);
    case Take(_, _) =>
      var head := TakeMovesOn(step, s, base);
      var tail := GreedySplits(step, s, base, hi, hits, head);
      GreedyIsUnique(step, s, base + head.size, hi, tail);
  }

  /** A choice of frames is leftmost greedy over the part of the stream that the
      scan consumed if and only if it is the scan's own, frame for frame. */
  lemma {:induction false} ScanIsTheGreedyChoice<F(!new)>(step: seq<bv8> -> Verdict<F>, s: seq<bv8>, hits: seq<Hit<F>>)
    requires IsRecogniser(step)
    ensures Reach(step, s, 0) == |s| - |Scan(step, s).rest|
    ensures LeftmostGreedy(step, s, 0, Reach(step, s, 0), hits) <==> hits == Hits(step, s, 0)
    ensures Scan(step, s).frames == Frames(Hits(step, s, 0))
  {
    assert s[0..] == s;
    ScanIsGreedy(step, s, 0, Reach(step, s, 0), Hits(step, s, 0));
    if LeftmostGreedy(step, s, 0, Reach(step, s, 0), hits) {
      GreedyIsUnique(step, s, 0, Reach(step, s, 0), hits);
    }
    ScanReturnsHits(step, s, 0);
  }

  // ----- the fault counters -----

  /** The positions of [lo, hi) outside all hits where this fault is found. */
  ghost function Faults<F(!new)>(step: seq<bv8> -> Verdict<F>, s: seq<bv8>, lo: nat, hi: nat, hits: seq<Hit<F>>,
      fault: Fault): set<nat>
    requires hi <= |s|
  {
    set k: nat | lo <= k < hi && step(s[k..]) == Skip(fault) && !Covered(hits, k)
  }

  ghost function Counted<F>(o: Outcome<F>, fault: Fault): int {
    match fault
    case NoSync => o.discarded - o.badHeader - o.badCheck
    case BadHeader => o.badHeader
    case BadCheck => o.badCheck
  }

  lemma FaultsOfSkip<F(!new)>(step: seq<bv8> -> Verdict<F>, s: seq<bv8>, lo: nat, hi: nat, hits: seq<Hit<F>>,
      fault: Fault)
    requires lo < hi <= |s| && step(s[lo..]).Skip? && forall h :: h in hits ==> lo < h.at
    ensures Faults(step, s, lo, hi, hits, fault) ==
            (if step(s[lo..]).fault == fault then {lo} else {}) + Faults(step, s, lo + 1, hi, hits, fault)
    ensures lo !in Faults(step, s, lo + 1, hi, hits, fault)
  {
  }

  lemma FaultsOfTake<F(!new)>(step: seq<bv8> -> Verdict<F>, s: seq<bv8>, lo: nat, hi: nat, head: Hit<F>,
      tail: seq<Hit<F>>, fault: Fault)
    requires lo < hi <= |s| && head.at == lo
    ensures Faults(step, s, lo, hi, [head] + tail, fault) == Faults(step, s, lo + head.size, hi, tail, fault)
  {
    var x, y := Faults(step, s, lo, hi, [head] + tail, fault), Faults(step, s, lo + head.size, hi, tail, fault);
    forall k: nat ensures k in x <==> k in y {
      assert Covered([head] + tail, k) <==> lo <= k < lo + head.size || Covered(tail, k) by {
        CoveredCons(head, tail, k);
      }
    }
  }

  lemma CoveredCons<F>(head: Hit<F>, tail: seq<Hit<F>>, k: nat)
    ensures Covered([head] + tail, k) <==> head.at <= k < head.at + head.size || Covered(tail, k)
  {
    var all := [head] + tail;
    assert forall h :: h in all <==> h == head || h in tail;
  }

  /** Each counter counts the positions, outside the frames taken, where its fault is
      found. */
  lemma {:induction false} ScanCountsFaults<F(!new)>(step: seq<bv8> -> Verdict<F>, s: seq<bv8>, base: nat, fault: Fault)
    requires IsRecogniser(step) && base <= |s|
    ensures Counted(Scan(step, s[base..]), fault) ==
            |Faults(step, s, base, Reach(step, s, base), Hits(step, s[base..], base), fault)|
    decreases |s| - base
  {
    hide Faults, IsRecogniser, Reach;
    match step(s[base..])
    case NeedMore =>
      StaysPut(step, s, base);
      NoFaults(step, s, base, Hits(step, s[base..], base), fault);
    case Skip(_) =>
      SkipMovesOn(step, s, base);
      var hi, hits := Reach(step, s, base), Hits(step, s[base..], base);
      ScanIsGreedy(step, s, base + 1, hi, hits);
      ScanCountsFaults(step, s, base + 1, fault);
      FaultsOfSkip(step, s, base, hi, hits, fault);
      assert s[base..][1..] == s[base + 1..];
    case Take(_, _) =>
      var head := TakeMovesOn(step, s, base);
      var next := base + head.size;
      ScanCountsFaults(step, s, next, fault);
      FaultsOfTake(step, s, base, Reach(step, s, base), head, Hits(step, s[next..], next), fault);
      assert s[base..][head.size..] == s[next..];
  }

  lemma StaysPut<F(!new)>(step: seq<bv8> -> Verdict<F>, s: seq<bv8>, base: nat)
    requires IsRecogniser(step) && base <= |s| && step(s[base..]).NeedMore?
    ensures Reach(step, s, base) == base
  {
  }

  lemma NoFaults<F(!new)>(step: seq<bv8> -> Verdict<F>, s: seq<bv8>, at: nat, hits: seq<Hit<F>>, fault: Fault)
    requires at <= |s|
    ensures Faults(step, s, at, at, hits, fault) == {}
  {
  }

  /** Bounded resync latency: once `bound` bytes from position `k` have arrived,
      a frame at `k` has been emitted, unless it starts inside an earlier emitted
      frame; false syncs before `k` do not delay it further. */
  lemma {:induction false} Latency<F(!new)>(step: seq<bv8> -> Verdict<F>, bound: nat, s: seq<bv8>, k: nat)
    requires IsRecogniser(step) && DecidesWithin(step, bound)
    requires k + bound <= |s| && step(s[k..]).Take?
    ensures Covered(Hits(step, s, 0), k)
    ensures Scan(step, s).frames == Frames(Hits(step, s, 0))
  {
    ScanIsTheGreedyChoice(step, s, Hits(step, s, 0));
    ResidueBound(step, bound, s);
  }

  // ----- encode and parse -----

  /** `codes` are encodings of `frames`, each recognised as a whole. */
  ghost predicate Encodes<F(!new)>(step: seq<bv8> -> Verdict<F>, frames: seq<F>, codes: seq<seq<bv8>>) {
    && |frames| == |codes|
    && forall i :: 0 <= i < |codes| ==> step(codes[i]) == Take(|codes[i]|, frames[i])
  }

  /** Encodings laid back to back scan to exactly the frames they encode, with
      nothing dropped and nothing left. */
  lemma {:induction false} EncodedScan<F(!new)>(step: seq<bv8> -> Verdict<F>, frames: seq<F>, codes: seq<seq<bv8>>)
    requires IsRecogniser(step) && Encodes(step, frames, codes) && step([]).NeedMore?
    ensures Scan(step, Joined(codes)) == Outcome(frames, [], |Joined(codes)|, 0, 0, 0)
    decreases |codes|
  {
    if codes == [] {
      assert frames == [];
    } else {
      var c := codes[0];
      var s := Joined(codes);
      assert s == c + Joined(codes[1..]) && Extends(s, c);
      assert s[|c|..] == Joined(codes[1..]);
      EncodedScan(step, frames[1..], codes[1..]);
      assert frames == [frames[0]] + frames[1..];
    }
  }
}
