/** The byte-wise sentence splitter of `frame_splitter.cpp`. */
module SentenceSplitter {

  type Bytes = seq<bv8>

  const DOLLAR: bv8 := 0x24
  const HASH: bv8 := 0x23
  const CR: bv8 := 0x0D
  const LF: bv8 := 0x0A
  const MAX_SENTENCE_LEN := 2048

  datatype Kind = Nmea | UnicoreAscii
  datatype Sentence = Sentence(kind: Kind, text: Bytes)
  datatype State = Idle | InNmea | InUnicore

  predicate IsEol(b: bv8) {
    b == CR || b == LF
  }

  predicate IsSync(b: bv8) {
    b == DOLLAR || b == HASH
  }

  function StateOf(sync: bv8): State
    requires IsSync(sync)
  {
    if sync == DOLLAR then InNmea else InUnicore
  }

  function KindOf(state: State): Kind
    requires state != Idle
  {
    if state == InNmea then Nmea else UnicoreAscii
  }

  /** The splitter's fields, what it has emitted, and how many line-ending bytes
      it has consumed. */
  datatype Split = Split(state: State, current: Bytes, out: seq<Sentence>, discarded: nat, overflows: nat, eols: nat)

  const FRESH := Split(Idle, [], [], 0, 0, 0)

  /** One byte. */
  function Next(m: Split, b: bv8): Split {
    if m.state == Idle then
      if IsSync(b) then m.(state := StateOf(b), current := [b])
      else if IsEol(b) then m.(eols := m.eols + 1)
      else m.(discarded := m.discarded + 1)
    else if IsEol(b) then
      if |m.current| >= 2 then
        m.(state := Idle, current := [], out := m.out + [Sentence(KindOf(m.state), m.current)], eols := m.eols + 1)
      else
        m.(state := Idle, current := [], discarded := m.discarded + |m.current|, eols := m.eols + 1)
    else if IsSync(b) then
      m.(state := StateOf(b), current := [b], discarded := m.discarded + |m.current|)
    else if |m.current| + 1 > MAX_SENTENCE_LEN then
      m.(state := Idle, current := [], discarded := m.discarded + |m.current| + 1, overflows := m.overflows + 1)
    else
      m.(current := m.current + [b])
  }

  /** A stretch of bytes. */
  function Run(m: Split, s: Bytes): Split
    decreases |s|
  {
    if s == [] then m else Run(Next(m, s[0]), s[1..])
  }

  lemma {:induction false} RunConcat(m: Split, a: Bytes, b: Bytes)
    ensures Run(m, a + b) == Run(Run(m, a), b)
    decreases |a|
  {
    hide Next;
    if a == [] {
      assert a + b == b;
    } else {
      assert (a + b)[1..] == a[1..] + b;
      RunConcat(Next(m, a[0]), a[1..], b);
    }
  }

  lemma {:induction false} RunOfNothing(m: Split)
    ensures Run(m, []) == m
  {
  }

  lemma {:induction false} RunSnoc(m: Split, s: Bytes, i: nat)
    requires i < |s|
    ensures Run(m, s[..i + 1]) == Next(Run(m, s[..i]), s[i])
  {
    hide Next;
    assert s[..i + 1] == s[..i] + [s[i]];
    RunConcat(m, s[..i], [s[i]]);
    assert [s[i]][1..] == [];
  }

  // ----- what every reachable state keeps -----

  predicate IsBody(s: Bytes) {
    forall b :: b in s ==> !IsEol(b) && !IsSync(b)
  }

  /** A sentence under way or emitted: its sync byte, then no sync byte and no
      line ending, within the length limit. */
  predicate IsSentenceText(kind: Kind, t: Bytes) {
    1 <= |t| <= 2048 && t[0] == (if kind == Nmea then DOLLAR else HASH) && IsBody(t[1..])
  }

  ghost function TextLength(out: seq<Sentence>): nat {
    if out == [] then 0 else TextLength(out[..|out| - 1]) + |out[|out| - 1].text|
  }

  ghost predicate WellFormed(m: Split) {
    && (m.state == Idle ==> m.current == [])
    && (m.state != Idle ==> IsSentenceText(KindOf(m.state), m.current))
    && (forall s :: s in m.out ==> |s.text| >= 2 && IsSentenceText(s.kind, s.text))
  }

  /** Every byte is in an emitted sentence, discarded, a line ending, or pending. */
  ghost function Accounted(m: Split): nat {
    TextLength(m.out) + m.discarded + m.eols + |m.current|
  }

  lemma {:induction false} TextLengthSnoc(out: seq<Sentence>, s: Sentence)
    ensures TextLength(out + [s]) == TextLength(out) + |s.text|
  {
    assert (out + [s])[..|out|] == out;
  }

  lemma NextKeeps(m: Split, b: bv8)
    requires WellFormed(m)
    ensures WellFormed(Next(m, b)) && Accounted(Next(m, b)) == Accounted(m) + 1
  {
    hide TextLength;
    if m.state != Idle {
      TextLengthSnoc(m.out, Sentence(KindOf(m.state), m.current));
      if !IsEol(b) && !IsSync(b) && |m.current| < MAX_SENTENCE_LEN { Lengthens(KindOf(m.state), m.current, b); }
    }
  }

  lemma Lengthens(kind: Kind, t: Bytes, b: bv8)
    requires IsSentenceText(kind, t) && |t| < MAX_SENTENCE_LEN && !IsEol(b) && !IsSync(b)
    ensures IsSentenceText(kind, t + [b])
  {
    assert (t + [b])[1..] == t[1..] + [b];
  }

  /** Over every stream, the sentences emitted are well-formed, the pending one is
      too (so it holds at most 2048 bytes), and no byte goes missing. */
  lemma {:induction false} RunKeeps(m: Split, s: Bytes)
    requires WellFormed(m)
    ensures WellFormed(Run(m, s)) && Accounted(Run(m, s)) == Accounted(m) + |s|
    ensures |Run(m, s).current| <= MAX_SENTENCE_LEN
    decreases |s|
  {
    hide Next;
    if s != [] {
      NextKeeps(m, s[0]);
      RunKeeps(Next(m, s[0]), s[1..]);
    }
  }

  // ----- which sentences any stream yields -----

  /** A sync byte at `i` with nothing but body bytes behind it, within the limit:
      at the end of such a stream a sentence is under way. */
  ghost predicate UnderWay(s: Bytes, i: nat) {
    i < |s| <= i + 2048 && IsSync(s[i]) && IsBody(s[i + 1..])
  }

  /** A sentence from `i` that ends before the line ending at `j`: a sync byte, then
      1 to 2047 body bytes. */
  ghost predicate SentenceAt(s: Bytes, i: nat, j: nat) {
    && i + 2 <= j < |s| && j - i <= 2048
    && IsSync(s[i]) && IsBody(s[i + 1..j]) && IsEol(s[j])
  }

  ghost predicate Tracks(m: Split, s: Bytes) {
    && (m.state == Idle ==> m.current == [] && forall i: nat :: !UnderWay(s, i))
    && (m.state != Idle ==>
          && 1 <= |m.current| <= |s| && m.current == s[|s| - |m.current|..]
          && UnderWay(s, |s| - |m.current|) && m.state == StateOf(m.current[0]))
  }

  /** Only one sentence can be under way: its sync byte is the last one. */
  lemma UnderWayIsUnique(s: Bytes, i: nat, j: nat)
    requires UnderWay(s, i) && UnderWay(s, j)
    ensures i == j
  {
    BodyHasNoSync(s, i, j);
    BodyHasNoSync(s, j, i);
  }

  lemma BodyHasNoSync(s: Bytes, i: nat, j: nat)
    requires i < |s| && IsBody(s[i + 1..])
    ensures i < j < |s| ==> !IsSync(s[j])
  {
    if i < j < |s| {
      assert s[j] in s[i + 1..] by { assert s[i + 1..][j - i - 1] == s[j]; }
    }
  }

  lemma UnderWayGrows(s: Bytes, b: bv8, i: nat)
    requires i < |s|
    ensures UnderWay(s + [b], i) <==> UnderWay(s, i) && !IsEol(b) && !IsSync(b) && |s| < i + MAX_SENTENCE_LEN
  {
    var t := s + [b];
    assert t[i + 1..] == s[i + 1..] + [b];
  }

  lemma NextTracks(m: Split, s: Bytes, b: bv8)
    requires Tracks(m, s)
    ensures Tracks(Next(m, b), s + [b])
  {
    var t := s + [b];
    if IsSync(b) {
      SyncTracks(s, b);
      assert Next(m, b).current == [b] == t[|s|..];
    } else if m.state != Idle && !IsEol(b) && |m.current| < MAX_SENTENCE_LEN {
      var i := |s| - |m.current|;
      UnderWayGrows(s, b, i);
      assert m.current + [b] == t[i..];
      hide UnderWay;
    } else {
      NothingTracks(m, s, b);
    }
  }

  lemma SyncTracks(s: Bytes, b: bv8)
    requires IsSync(b)
    ensures UnderWay(s + [b], |s|)
  {
    LastUnderWay(s, b);
  }

  /** The bytes after which no sentence is under way. */
  lemma NothingTracks(m: Split, s: Bytes, b: bv8)
    requires Tracks(m, s) && !IsSync(b)
    requires m.state == Idle || IsEol(b) || |m.current| >= MAX_SENTENCE_LEN
    ensures forall i: nat :: !UnderWay(s + [b], i)
  {
    forall i: nat ensures !UnderWay(s + [b], i) {
      LastUnderWay(s, b);
      if i < |s| {
        UnderWayGrows(s, b, i);
        if m.state != Idle && UnderWay(s, i) { UnderWayIsUnique(s, i, |s| - |m.current|); }
      }
    }
  }

  lemma LastUnderWay(s: Bytes, b: bv8)
    ensures UnderWay(s + [b], |s|) <==> IsSync(b)
  {
    assert (s + [b])[|s| + 1..] == [];
  }

  lemma {:induction false} RunTracks(s: Bytes)
    ensures Tracks(Run(FRESH, s), s)
    decreases |s|
  {
    hide Next, Tracks;
    if s == [] {
      NothingTracked();
    } else {
      var last := |s| - 1;
      RunTracks(s[..last]);
      RunSnoc(FRESH, s, last);
      assert s[..last + 1] == s && s[..last] + [s[last]] == s;
      NextTracks(Run(FRESH, s[..last]), s[..last], s[last]);
    }
  }

  lemma {:induction false} NothingTracked()
    ensures Tracks(Run(FRESH, []), [])
  {
  }

  /** For every stream, whatever it holds: the byte at `j` brings out a sentence
      exactly if it is a line ending with a sync byte and 1 to 2047 body bytes
      before it, and then the one sentence that is. */
  lemma {:induction false} EmitsExactlySentences(s: Bytes, j: nat)
    requires j < |s|
    ensures var before, after := Run(FRESH, s[..j]).out, Run(FRESH, s[..j + 1]).out;
      && (forall i: nat :: SentenceAt(s, i, j) ==> after == before + [Sentence(KindOf(StateOf(s[i])), s[i..j])])
      && ((forall i: nat :: !SentenceAt(s, i, j)) ==> after == before)
  {
    hide Run, UnderWay;
    var t := s[..j];
    var m := Run(FRESH, t);
    RunTracks(t);
    RunSnoc(FRESH, s, j);
    forall i: nat ensures SentenceAt(s, i, j) <==> UnderWay(t, i) && i + 2 <= j && IsEol(s[j]) {
      SentenceIsUnderWay(s, i, j);
    }
    if m.state != Idle {
      var at := j - |m.current|;
      forall i: nat | UnderWay(t, i) ensures i == at { UnderWayIsUnique(t, i, at); }
      assert t[at..] == s[at..j];
    }
  }

  lemma SentenceIsUnderWay(s: Bytes, i: nat, j: nat)
    requires j < |s|
    ensures SentenceAt(s, i, j) <==> UnderWay(s[..j], i) && i + 2 <= j && IsEol(s[j])
  {
    if i < j { assert s[..j][i + 1..] == s[i + 1..j]; }
  }

  /** How many line-ending bytes a stream holds. */
  ghost function Eols(s: Bytes): nat {
    if s == [] then 0 else Eols(s[..|s| - 1]) + if IsEol(s[|s| - 1]) then 1 else 0
  }

  /** All line endings are consumed as such, and only they, so the discarded bytes
      are the rest that is neither in a sentence nor pending. */
  lemma {:induction false} DiscardsTheRest(s: Bytes)
    ensures var m := Run(FRESH, s);
      m.eols == Eols(s) && TextLength(m.out) + m.discarded + Eols(s) + |m.current| == |s|
    decreases |s|
  {
    hide IsEol, TextLength, Run, Next;
    RunKeeps(FRESH, s);
    FreshIsEmpty();
    CountsEols(s);
  }

  lemma {:induction false} FreshIsEmpty()
    ensures WellFormed(FRESH) && Accounted(FRESH) == 0
  {
  }

  lemma {:induction false} CountsEols(s: Bytes)
    ensures Run(FRESH, s).eols == Eols(s)
    decreases |s|
  {
    hide Next;
    if s == [] {
      RunOfNothing(FRESH);
    } else {
      var last := |s| - 1;
      CountsEols(s[..last]);
      RunSnoc(FRESH, s, last);
      assert s[..last + 1] == s;
      EolsAdd(Run(FRESH, s[..last]), s[last]);
    }
  }

  lemma EolsAdd(m: Split, b: bv8)
    ensures Next(m, b).eols == m.eols + if IsEol(b) then 1 else 0
    ensures Next(m, b).overflows ==
            m.overflows + if m.state != Idle && |m.current| >= MAX_SENTENCE_LEN && !IsEol(b) && !IsSync(b) then 1 else 0
  {
  }

  /** The byte at `j` overflows exactly if it is a body byte that makes a sentence
      under way too long. */
  lemma {:induction false} OverflowsExactly(s: Bytes, j: nat)
    requires j < |s|
    ensures var before, after := Run(FRESH, s[..j]).overflows, Run(FRESH, s[..j + 1]).overflows;
      var long := j >= 2048 && UnderWay(s[..j], j - 2048);
      after == before + if long && !IsEol(s[j]) && !IsSync(s[j]) then 1 else 0
  {
    hide Run, UnderWay, Next;
    var t := s[..j];
    var m := Run(FRESH, t);
    RunTracks(t);
    RunSnoc(FRESH, s, j);
    EolsAdd(m, s[j]);
    if m.state != Idle {
      var at := j - |m.current|;
      PendingFits(t, at);
      if j >= MAX_SENTENCE_LEN && UnderWay(t, j - MAX_SENTENCE_LEN) { UnderWayIsUnique(t, at, j - MAX_SENTENCE_LEN); }
    }
  }

  lemma PendingFits(t: Bytes, i: nat)
    requires UnderWay(t, i)
    ensures |t| - i <= MAX_SENTENCE_LEN
  {
  }

  // ----- sentences sent as lines come out as sent -----

  /** A whole sentence with its line ending. */
  function Line(s: Sentence): Bytes {
    s.text + [CR, LF]
  }

  function Lines(ss: seq<Sentence>): Bytes {
    if ss == [] then [] else Line(ss[0]) + Lines(ss[1..])
  }

  ghost predicate Sendable(s: Sentence) {
    |s.text| >= 2 && IsSentenceText(s.kind, s.text)
  }

  /** A body is collected byte by byte. */
  lemma {:induction false} BodyCollects(m: Split, s: Bytes)
    requires m.state != Idle && IsBody(s) && |m.current| + |s| <= MAX_SENTENCE_LEN
    ensures Run(m, s) == m.(current := m.current + s)
    decreases |s|
  {
    if s == [] {
      assert m.current + s == m.current;
    } else {
      assert !IsEol(s[0]) && !IsSync(s[0]);
      assert Next(m, s[0]) == m.(current := m.current + [s[0]]);
      assert IsBody(s[1..]);
      BodyCollects(Next(m, s[0]), s[1..]);
      assert m.current + [s[0]] + s[1..] == m.current + s;
    }
  }

  lemma {:induction false} LineArrives(m: Split, s: Sentence)
    requires m.state == Idle && m.current == [] && Sendable(s)
    ensures Run(m, Line(s)) == m.(out := m.out + [s], eols := m.eols + 2)
  {
    var m1 := Next(m, s.text[0]);
    BodyCollects(m1, s.text[1..]);
    var m2 := m1.(current := s.text);
    assert m1.current + s.text[1..] == s.text;
    assert s.text == [s.text[0]] + s.text[1..];
    assert Run(m, s.text) == Run(m1, s.text[1..]) == m2;
    var m3 := Next(m2, CR);
    assert m3 == m.(out := m.out + [s], eols := m.eols + 1);
    assert [CR, LF][1..] == [LF] && [LF][1..] == [];
    assert Run(m2, [CR, LF]) == Run(m3, [LF]) == Next(m3, LF);
    RunConcat(m, s.text, [CR, LF]);
  }

  /** Any sequence of sentences, each ended by CRLF, comes out as sent, with
      nothing discarded and no overflow. */
  lemma {:induction false} LinesArrive(m: Split, ss: seq<Sentence>)
    requires m.state == Idle && m.current == [] && forall s :: s in ss ==> Sendable(s)
    ensures Run(m, Lines(ss)) == m.(out := m.out + ss, eols := m.eols + 2 * |ss|)
    decreases |ss|
  {
    hide Next, Run, Sendable;
    if ss == [] {
      RunOfNothing(m);
      assert m.out + ss == m.out;
    } else {
      var m1 := m.(out := m.out + [ss[0]], eols := m.eols + 2);
      LineArrives(m, ss[0]);
      RunConcat(m, Line(ss[0]), Lines(ss[1..]));
      LinesArrive(m1, ss[1..]);
      assert m.out + [ss[0]] + ss[1..] == m.out + ss;
    }
  }

  // ----- the splitter -----

  class FrameSplitter {
    var state: State
    var current: Bytes
    var bytesDiscarded: nat
    var sentencesEmitted: nat
    var overflowCount: nat

    /** Bytes pushed, sentences emitted, and line endings consumed since the last
        reset, and the discard count it started from. */
    ghost var pushed: nat
    ghost var emitted: seq<Sentence>
    ghost var eols: nat
    ghost var discardedBefore: nat

    ghost function Model(): Split
      reads this
    {
      Split(state, current, emitted, bytesDiscarded, overflowCount, eols)
    }

    ghost predicate Valid()
      reads this
    {
      WellFormed(Model()) && Accounted(Model()) == discardedBefore + pushed
    }

    constructor ()
      ensures Valid() && Model() == FRESH && pushed == 0 && discardedBefore == 0 && sentencesEmitted == 0
    {
      state, current := Idle, [];
      bytesDiscarded, sentencesEmitted, overflowCount := 0, 0, 0;
      pushed, emitted, eols, discardedBefore := 0, [], 0, 0;
    }

    /** The sentence under way goes uncounted. */
    method Reset()
      requires Valid()
      modifies this
      ensures Valid() && Model() == Split(Idle, [], [], old(bytesDiscarded), old(overflowCount), 0)
      ensures pushed == 0 && discardedBefore == bytesDiscarded && sentencesEmitted == old(sentencesEmitted)
    {
      state, current := Idle, [];
      pushed, emitted, eols, discardedBefore := 0, [], 0, bytesDiscarded;
    }

    /** Appends the completed sentences to `given`. */
    method Push(data: Bytes, given: seq<Sentence>) returns (out: seq<Sentence>)
      requires Valid()
      modifies this
      ensures Valid()
      ensures Model() == Run(old(Model()), data)
      ensures given <= out && emitted == old(emitted) + out[|given|..]
      ensures pushed == old(pushed) + |data| && discardedBefore == old(discardedBefore)
      ensures sentencesEmitted == old(sentencesEmitted) + (|out| - |given|)
    {
      hide Next, Run, WellFormed, Accounted;
      RunKeeps(Model(), data);
      out := given;
      ghost var found: seq<Sentence> := [];
      ghost var start := Model();
      RunOfNothing(start);
      assert data[..0] == [];
      for i := 0 to |data|
        invariant Model() == Run(start, data[..i])
        invariant out == given + found && emitted == old(emitted) + found
        invariant sentencesEmitted == old(sentencesEmitted) + |found|
        invariant pushed == old(pushed) && discardedBefore == old(discardedBefore)
      {
        RunSnoc(start, data, i);
        var one := PushByte(data[i]);
        out := out + one;
        found := found + one;
      }
      assert data[..|data|] == data;
      pushed := pushed + |data|;
    }

    /** The switch on the state, for one byte. */
    method PushByte(b: bv8) returns (out: seq<Sentence>)
      modifies this
      ensures Model() == Next(old(Model()), b)
      ensures emitted == old(emitted) + out && sentencesEmitted == old(sentencesEmitted) + |out|
      ensures pushed == old(pushed) && discardedBefore == old(discardedBefore)
    {
      out := [];
      match state {
        case Idle =>
          if IsSync(b) {
            state, current := StateOf(b), [b];
          } else if IsEol(b) {
            eols := eols + 1;
          } else {
            bytesDiscarded := bytesDiscarded + 1;
          }
        case _ =>
          if IsEol(b) {
            if |current| >= 2 {
              out := [Sentence(KindOf(state), current)];
              sentencesEmitted := sentencesEmitted + 1;
            } else {
              bytesDiscarded := bytesDiscarded + |current|;
            }
            state, current := Idle, [];
            eols := eols + 1;
          } else if IsSync(b) {
            bytesDiscarded := bytesDiscarded + |current|;
            state, current := StateOf(b), [b];
          } else {
            current := current + [b];
            if |current| > MAX_SENTENCE_LEN {
              overflowCount := overflowCount + 1;
              bytesDiscarded := bytesDiscarded + |current|;
              state, current := Idle, [];
            }
          }
      }
      emitted := emitted + out;
    }
  }
}
