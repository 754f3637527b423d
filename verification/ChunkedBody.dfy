/** The chunked transfer coding (section 4.1 of RFC 7230) as
    `ntrip_client_node.cpp` reads it: what bytes it hands to the framer for any
    bytes on the connection, and that for a well-formed body those are the
    chunk data. */
module ChunkedBody {
  import opened ByteValues

  datatype Option<+T> = None | Some(value: T)

  type Bytes = seq<bv8>

  const CR: bv8 := 0x0D
  const LF: bv8 := 0x0A
  const CRLF: Bytes := [CR, LF]
  const MAX_LINE := 32
  const BLOCK := 4096
  const SIZE_MAX := 0xFFFF_FFFF_FFFF_FFFF

  // ----- strtoul in base sixteen -----

  predicate IsSpace(b: bv8) {
    b == 0x20 || 0x09 <= b <= 0x0D
  }

  predicate IsHex(b: bv8) {
    var c := b as int;
    48 <= c <= 57 || 97 <= c <= 102 || 65 <= c <= 70
  }

  function HexValue(b: bv8): (v: nat)
    requires IsHex(b)
    ensures v < 16
  {
    var c := b as int;
    if 48 <= c <= 57 then c - 48 else if 97 <= c <= 102 then c - 97 + 10 else c - 65 + 10
  }

  function SkipSpaces(s: Bytes): Bytes {
    if s != [] && IsSpace(s[0]) then SkipSpaces(s[1..]) else s
  }

  /** The longest prefix of digits. */
  function HexRun(s: Bytes): (r: Bytes)
    ensures forall b :: b in r ==> IsHex(b)
  {
    if s != [] && IsHex(s[0]) then [s[0]] + HexRun(s[1..]) else []
  }

  function HexNumber(s: Bytes): nat
    requires forall b :: b in s ==> IsHex(b)
  {
    if s == [] then 0 else 16 * HexNumber(s[..|s| - 1]) + HexValue(s[|s| - 1])
  }

  predicate IsHexPrefix(u: Bytes) {
    |u| >= 3 && u[0] == 0x30 && (u[1] == 0x78 || u[1] == 0x58) && IsHex(u[2])
  }

  /** A `0x` before digits is accepted, what follows the digits is ignored; no digits
      or an overflow is an error. */
  function Magnitude(u: Bytes): Option<nat> {
    var digits := HexRun(if IsHexPrefix(u) then u[2..] else u);
    if digits == [] || HexNumber(digits) > SIZE_MAX then None else Some(HexNumber(digits))
  }

  /** A sign is accepted; a minus sign negates modulo 2^64. */
  function Signed(t: Bytes): Option<nat> {
    if t != [] && t[0] == 0x2D then
      match Magnitude(t[1..])
      case None => None
      case Some(v) => Some(if v > 0 then SIZE_MAX + 1 - v else v)
    else if t != [] && t[0] == 0x2B then Magnitude(t[1..])
    else Magnitude(t)
  }

  /** So are leading spaces. */
  function Stoul16(s: Bytes): Option<nat> {
    Signed(SkipSpaces(s))
  }

  // ----- the size line -----

  datatype LineRead = Eof | Line(text: Bytes, rest: Bytes)

  /** Bytes are collected until CRLF, which is dropped, or until 32 are there. */
  function TakeLine(line: Bytes, s: Bytes): LineRead
    decreases |s|
  {
    if |line| >= MAX_LINE then Line(line, s)
    else if s == [] then Eof
    else if s[0] == LF && line != [] && line[|line| - 1] == CR then Line(line[..|line| - 1], s[1..])
    else TakeLine(line + [s[0]], s[1..])
  }

  datatype Size = Size(size: nat, rest: Bytes)

  /** The chunk size at the front of `s`; the largest size doubles as the error
      value. */
  function ChunkSize(s: Bytes): Option<Size> {
    match TakeLine([], s)
    case Eof => None
    case Line(text, rest) =>
      if text == [] || Stoul16(text).None? || Stoul16(text).value == SIZE_MAX then None
      else Some(Size(Stoul16(text).value, rest))
  }

  lemma {:induction false} TakeLineShortens(line: Bytes, s: Bytes)
    ensures TakeLine(line, s).Line? ==> |TakeLine(line, s).rest| <= |s|
    ensures |line| < MAX_LINE && TakeLine(line, s).Line? ==> |TakeLine(line, s).rest| < |s|
    decreases |s|
  {
    if |line| < MAX_LINE && s != [] && !(s[0] == LF && line != [] && line[|line| - 1] == CR) {
      TakeLineShortens(line + [s[0]], s[1..]);
    }
  }

  lemma ChunkSizeShortens(s: Bytes)
    ensures ChunkSize(s).Some? ==> |ChunkSize(s).value.rest| < |s|
  {
    TakeLineShortens([], s);
  }

  // ----- the body -----

  /** What reaches the framer.  Chunk data is read in blocks of at most 4096
      bytes, and a block the connection cannot fill is lost. */
  function Body(s: Bytes): Bytes
    decreases |s|
  {
    ChunkSizeShortens(s);
    var head := ChunkSize(s);
    if head.None? || head.value.size == 0 then []
    else
      var size, rest := head.value.size, head.value.rest;
      if |rest| < size then rest[..|rest| / BLOCK * BLOCK]
      else if |rest| < size + 2 then rest[..size]
      else rest[..size] + Body(rest[size + 2..])
  }

  lemma {:induction false} BodyUnfolds(s: Bytes)
    ensures ChunkSize(s).None? || ChunkSize(s).value.size == 0 ==> Body(s) == []
    ensures ChunkSize(s).Some? && ChunkSize(s).value.size > 0 ==>
      var size, rest := ChunkSize(s).value.size, ChunkSize(s).value.rest;
      && |rest| < |s|
      && (|rest| < size ==> Body(s) == rest[..|rest| / BLOCK * BLOCK])
      && (size <= |rest| < size + 2 ==> Body(s) == rest[..size])
      && (size + 2 <= |rest| ==> Body(s) == rest[..size] + Body(rest[size + 2..]))
  {
    hide ChunkSize;
    ChunkSizeShortens(s);
  }

  // ----- a sender's encoding -----

  /** A chunk: its size line (the size in hexadecimal, possibly with leading
      zeros and an extension) and its data. */
  datatype Chunk = Chunk(line: Bytes, data: Bytes)

  ghost predicate WellFormed(c: Chunk) {
    && c.line != [] && |c.line| <= 30 && NoCrlf(c.line)
    && c.data != [] && |c.data| < SIZE_MAX
    && Stoul16(c.line) == Some(|c.data|)
  }

  function Encoded(chunks: seq<Chunk>, last: Bytes): Bytes {
    if chunks == [] then last
    else chunks[0].line + CRLF + chunks[0].data + CRLF + Encoded(chunks[1..], last)
  }

  ghost function Data(chunks: seq<Chunk>): Bytes {
    if chunks == [] then [] else chunks[0].data + Data(chunks[1..])
  }

  /** The line ending occurs nowhere in `s`. */
  ghost predicate NoCrlf(s: Bytes) {
    forall i :: 0 <= i < |s| - 1 ==> s[i] != CR || s[i + 1] != LF
  }

  /** Bytes without a line ending are collected up to the 32-byte limit. */
  lemma {:induction false} LineCollects(line: Bytes, s: Bytes, rest: Bytes)
    requires NoCrlf(line + s) && |line| + |s| <= MAX_LINE
    ensures TakeLine(line, s + rest) == TakeLine(line + s, rest)
    decreases |s|
  {
    if s == [] {
      assert s + rest == rest && line + s == line;
    } else {
      assert (s + rest)[1..] == s[1..] + rest;
      assert line + [s[0]] + s[1..] == line + s;
      if line != [] {
        assert (line + s)[|line| - 1] == line[|line| - 1] && (line + s)[|line| - 1 + 1] == s[0];
      }
      LineCollects(line + [s[0]], s[1..], rest);
    }
  }

  /** A size line is read whole, and its CRLF with it, exactly when it has at most
      30 characters: the limit of 32 counts the CR, and a line cut short by it
      leaves its line ending to be taken for data. */
  lemma {:induction false} LineIsRead(line: Bytes, rest: Bytes)
    requires NoCrlf(line)
    ensures TakeLine([], line + CRLF + rest) == Line(line, rest) <==> |line| <= 30
  {
    if |line| <= 30 {
      ShortLineIsRead(line, rest);
    } else {
      var s, first := line + CRLF + rest, (line + [CR])[..MAX_LINE];
      assert s == first + s[MAX_LINE..];
      LongLineIsCut(first, s[MAX_LINE..]);
    }
  }

  lemma {:induction false} ShortLineIsRead(line: Bytes, rest: Bytes)
    requires NoCrlf(line) && |line| <= 30
    ensures TakeLine([], line + CRLF + rest) == Line(line, rest)
  {
    var withCr, after := line + [CR], [LF] + rest;
    EndOfLine(line, rest);
    hide NoCrlf, TakeLine;
    LineCollects([], withCr, after);
    LineEnds(withCr, after);
  }

  lemma EndOfLine(line: Bytes, rest: Bytes)
    requires NoCrlf(line)
    ensures NoCrlf(line + [CR]) && [] + (line + [CR]) == line + [CR]
    ensures line + CRLF + rest == (line + [CR]) + ([LF] + rest)
    ensures (line + [CR])[..|line|] == line && ([LF] + rest)[1..] == rest
  {
  }

  lemma {:induction false} LineEnds(line: Bytes, s: Bytes)
    requires |line| < MAX_LINE && line != [] && line[|line| - 1] == CR && s != [] && s[0] == LF
    ensures TakeLine(line, s) == Line(line[..|line| - 1], s[1..])
  {
  }

  /** Without a line ending in its first 32 bytes, a line is cut there. */
  lemma {:induction false} LongLineIsCut(first: Bytes, rest: Bytes)
    requires NoCrlf(first) && |first| == MAX_LINE
    ensures TakeLine([], first + rest) == Line(first, rest)
  {
    assert [] + first == first;
    LineCollects([], first, rest);
  }

  /** A shorter one that is not ended is waited for in vain. */
  lemma {:induction false} LineNeedsItsEnd(s: Bytes)
    requires NoCrlf(s) && |s| < MAX_LINE
    ensures TakeLine([], s) == Eof && Body(s) == []
  {
    assert [] + s == s && s + [] == s;
    LineCollects([], s, []);
  }

  /** A size line that cannot be read, for want of digits or for its size, ends the
      body. */
  lemma {:induction false} UnreadableLineEnds(line: Bytes, rest: Bytes)
    requires NoCrlf(line) && |line| <= 30
    requires line == [] || Stoul16(line).None? || Stoul16(line) == Some(SIZE_MAX)
    ensures Body(line + CRLF + rest) == []
  {
    hide Stoul16, TakeLine;
    LineIsRead(line, rest);
  }

  /** Of a chunk whose data is cut short, whole blocks of 4096 bytes arrive; of one
      that only lacks the end of its closing CRLF, all. */
  lemma {:induction false} CutChunkKeepsBlocks(c: Chunk, got: nat, ending: Bytes)
    requires WellFormed(c) && got <= |c.data|
    requires ending == [] || (got == |c.data| && ending == [CR])
    ensures Body(c.line + CRLF + c.data[..got] + ending) ==
            if got < |c.data| then c.data[..got / 4096 * 4096] else c.data
  {
    hide Stoul16, TakeLine;
    var rest := c.data[..got] + ending;
    var s := c.line + CRLF + c.data[..got] + ending;
    assert s == c.line + CRLF + rest;
    LineIsRead(c.line, rest);
    assert ChunkSize(s) == Some(Size(|c.data|, rest));
    if got < |c.data| {
      assert rest == c.data[..got];
      assert c.data[..got][..got / BLOCK * BLOCK] == c.data[..got / BLOCK * BLOCK];
    } else {
      assert c.data[..got] == c.data && rest[..got] == c.data;
    }
  }

  lemma {:induction false} ChunkIsRead(c: Chunk, after: Bytes)
    requires WellFormed(c)
    ensures Body(c.line + CRLF + c.data + CRLF + after) == c.data + Body(after)
  {
    hide Stoul16, TakeLine;
    var s := c.line + CRLF + c.data + CRLF + after;
    var rest := c.data + CRLF + after;
    assert s == c.line + CRLF + rest;
    LineIsRead(c.line, rest);
    assert ChunkSize(s) == Some(Size(|c.data|, rest));
    assert rest[..|c.data|] == c.data && rest[|c.data| + 2..] == after;
  }

  /** Whatever the chunk sizes, a well-formed chunked body delivers exactly the
      concatenated chunk data. */
  lemma {:induction false} EncodedBody(chunks: seq<Chunk>, last: Bytes)
    requires forall c :: c in chunks ==> WellFormed(c)
    ensures Body(Encoded(chunks, last)) == Data(chunks) + Body(last)
    decreases |chunks|
  {
    hide Body, WellFormed;
    if chunks == [] {
      assert [] + Body(last) == Body(last);
    } else {
      ChunkIsRead(chunks[0], Encoded(chunks[1..], last));
      EncodedBody(chunks[1..], last);
      assert chunks[0].data + (Data(chunks[1..]) + Body(last)) == Data(chunks) + Body(last);
    }
  }

  /** A size line that says zero: `0`, `000`, `0;extension` and the like. */
  ghost predicate IsLast(line: Bytes) {
    line != [] && |line| <= 30 && NoCrlf(line) && Stoul16(line) == Some(0)
  }

  /** The terminating chunk delivers nothing, whatever follows. */
  lemma {:induction false} LastChunk(line: Bytes, trailer: Bytes)
    requires IsLast(line)
    ensures Body(line + CRLF + trailer) == []
  {
    hide Stoul16, TakeLine;
    LineIsRead(line, trailer);
  }

  /** `body` is a chunked encoding of `data`, cut in some way and ended by some
      terminating chunk. */
  ghost predicate Encodes(body: Bytes, data: Bytes) {
    exists chunks: seq<Chunk>, line: Bytes, trailer: Bytes ::
      && (forall c :: c in chunks ==> WellFormed(c)) && IsLast(line)
      && body == Encoded(chunks, line + CRLF + trailer) && data == Data(chunks)
  }

  /** Every such encoding decodes to its data. */
  lemma {:induction false} EncodingDecodes(body: Bytes, data: Bytes)
    requires Encodes(body, data)
    ensures Body(body) == data
  {
    hide Body, WellFormed, IsLast;
    var chunks: seq<Chunk>, line: Bytes, trailer: Bytes :|
      && (forall c :: c in chunks ==> WellFormed(c)) && IsLast(line)
      && body == Encoded(chunks, line + CRLF + trailer) && data == Data(chunks);
    EncodedBody(chunks, line + CRLF + trailer);
    LastChunk(line, trailer);
    assert Data(chunks) + [] == Data(chunks);
  }

  // ----- hexadecimal size lines -----

  /** The digit for a value below 16, in either letter case. */
  function HexDigit(v: nat, lower: bool): bv8
    requires v < 16
  {
    if v < 10 then (48 + v) as bv8 else if lower then (87 + v) as bv8 else (55 + v) as bv8
  }

  function HexText(n: nat, lower: bool): Bytes {
    if n < 16 then [HexDigit(n, lower)] else HexText(n / 16, lower) + [HexDigit(n % 16, lower)]
  }

  lemma DigitReadsBack(v: nat, lower: bool)
    requires v < 16
    ensures IsHex(HexDigit(v, lower)) && HexValue(HexDigit(v, lower)) == v
  {
    ByteHolds(48 + v);
    ByteHolds(87 + v);
    ByteHolds(55 + v);
  }

  /** There are no other digits. */
  lemma HexIsDigit(b: bv8)
    requires IsHex(b)
    ensures HexDigit(HexValue(b), true) == b || HexDigit(HexValue(b), false) == b
  {
    BackToByte(b);
  }

  lemma BackToByte(b: bv8)
    ensures (b as int) as bv8 == b
  {
  }

  lemma {:induction false} HexTextReadsBack(n: nat, lower: bool)
    ensures HexText(n, lower) != [] && (forall b :: b in HexText(n, lower) ==> IsHex(b))
    ensures HexNumber(HexText(n, lower)) == n
    decreases n
  {
    hide HexDigit, HexValue, IsHex;
    if n < 16 {
      DigitReadsBack(n, lower);
      assert HexText(n, lower)[..0] == [];
    } else {
      HexTextReadsBack(n / 16, lower);
      DigitReadsBack(n % 16, lower);
      assert HexText(n, lower)[..|HexText(n, lower)| - 1] == HexText(n / 16, lower);
    }
  }

  /** The number that some digits spell, by their places. */
  function Spelled(values: seq<nat>): nat {
    if values == [] then 0 else values[0] * Power16(|values| - 1) + Spelled(values[1..])
  }

  predicate AreDigits(values: seq<nat>) {
    forall i :: 0 <= i < |values| ==> values[i] < 16
  }

  /** The values as text, each digit in a case of its own. */
  function DigitsText(values: seq<nat>, lowers: seq<bool>): (r: Bytes)
    requires |values| == |lowers| && AreDigits(values)
    ensures |r| == |values|
  {
    seq(|values|, i requires 0 <= i < |values| => HexDigit(values[i], lowers[i]))
  }

  /** Digits in any mixture of cases read as the number that they spell. */
  lemma {:induction false} MixedCaseReads(values: seq<nat>, lowers: seq<bool>)
    requires |values| == |lowers| && AreDigits(values)
    ensures (forall b :: b in DigitsText(values, lowers) ==> IsHex(b))
    ensures HexNumber(DigitsText(values, lowers)) == Spelled(values)
    decreases |values|
  {
    hide IsHex, HexValue, HexDigit;
    TextIsHex(values, lowers);
    if values != [] {
      var last := |values| - 1;
      MixedCaseReads(values[..last], lowers[..last]);
      assert DigitsText(values, lowers)[..last] == DigitsText(values[..last], lowers[..last]);
      SpelledSnoc(values[..last], values[last]);
      assert values == values[..last] + [values[last]];
      hide DigitsText, Spelled;
    }
  }

  lemma {:induction false} TextIsHex(values: seq<nat>, lowers: seq<bool>)
    requires |values| == |lowers| && AreDigits(values)
    ensures var t := DigitsText(values, lowers);
      && (forall b :: b in t ==> IsHex(b))
      && forall i :: 0 <= i < |t| ==> IsHex(t[i]) && HexValue(t[i]) == values[i]
  {
    hide IsHex, HexValue, HexDigit;
    var t := DigitsText(values, lowers);
    forall i | 0 <= i < |t| ensures IsHex(t[i]) && HexValue(t[i]) == values[i] {
      DigitReadsBack(values[i], lowers[i]);
    }
  }

  lemma {:induction false} SpelledSnoc(values: seq<nat>, v: nat)
    ensures Spelled(values + [v]) == 16 * Spelled(values) + v
    decreases |values|
  {
    var all := values + [v];
    if values == [] {
      assert all[1..] == [];
    } else {
      assert all[1..] == values[1..] + [v];
      SpelledSnoc(values[1..], v);
      PlaceMovesUp(values[0], |values| - 1);
    }
  }

  lemma PlaceMovesUp(v: nat, k: nat)
    ensures v * Power16(k + 1) == 16 * (v * Power16(k))
  {
  }

  lemma {:induction false} HexTextLength(n: nat, k: nat, bound: nat, lower: bool)
    requires n < bound && bound == Power16(k) && k >= 1
    ensures |HexText(n, lower)| <= k
    decreases n
  {
    hide HexDigit;
    if n >= 16 {
      assert Power16(k) == 16 * Power16(k - 1);
      HexTextLength(n / 16, k - 1, Power16(k - 1), lower);
    }
  }

  function Power16(k: nat): nat {
    if k == 0 then 1 else 16 * Power16(k - 1)
  }

  lemma SixteenDigits()
    ensures Power16(16) == SIZE_MAX + 1
  {
    assert Power16(4) == 0x1_0000;
    assert Power16(8) == 0x1_0000 * Power16(4);
    assert Power16(12) == 0x1_0000 * Power16(8);
    assert Power16(16) == 0x1_0000 * Power16(12);
  }

  lemma HexIsPlain(b: bv8)
    requires IsHex(b)
    ensures !IsSpace(b) && b != 0x2D && b != 0x2B && b != 0x78 && b != 0x58 && b != LF
  {
  }

  lemma {:induction false} HexRunAll(s: Bytes, after: Bytes)
    requires (forall b :: b in s ==> IsHex(b)) && (after == [] || !IsHex(after[0]))
    ensures HexRun(s + after) == s
    decreases |s|
  {
    hide IsHex;
    if s == [] {
      assert s + after == after;
    } else {
      assert s[0] in s && (s + after)[1..] == s[1..] + after;
      HexRunAll(s[1..], after);
    }
  }

  lemma {:induction false} SpacesAreSkipped(spaces: Bytes, s: Bytes)
    requires (forall b :: b in spaces ==> IsSpace(b)) && (s == [] || !IsSpace(s[0]))
    ensures SkipSpaces(spaces + s) == s
    decreases |spaces|
  {
    if spaces == [] {
      assert spaces + s == s;
    } else {
      assert spaces[0] in spaces && (spaces + s)[1..] == spaces[1..] + s;
      SpacesAreSkipped(spaces[1..], s);
    }
  }

  /** What may stand in front of the digits. */
  predicate IsSign(s: Bytes) {
    s == [] || s == [0x2B] || s == [0x2D]
  }

  predicate IsRadix(s: Bytes) {
    s == [] || s == [0x30, 0x78] || s == [0x30, 0x58]
  }

  /** The number read from spaces, a sign, a radix prefix, digits and anything else
      behind them: that of the digits, negated modulo 2^64 behind a minus sign, and
      none if it does not fit. */
  lemma {:induction false} NumberReads(spaces: Bytes, sign: Bytes, radix: Bytes, digits: Bytes, extension: Bytes)
    requires (forall b :: b in spaces ==> b == 0x20 || 0x09 <= b <= 0x0D) && IsSign(sign) && IsRadix(radix)
    requires digits != [] && forall b :: b in digits ==> IsHex(b)
    requires extension == [] || !IsHex(extension[0])
    requires radix == [] ==> !IsHexPrefix(digits + extension)
    ensures var v := HexNumber(digits);
      Stoul16(spaces + sign + radix + digits + extension) ==
        if v >= 0x1_0000_0000_0000_0000 then None
        else if sign == [0x2D] && v > 0 then Some(0x1_0000_0000_0000_0000 - v)
        else Some(v)
  {
    hide IsHex, HexNumber, Magnitude, Signed, IsHexPrefix, SkipSpaces;
    var u := radix + digits + extension;
    assert spaces + sign + radix + digits + extension == spaces + (sign + u);
    NumeralStart(radix, digits, extension);
    SpacesAreSkipped(spaces, sign + u);
    SignReads(sign, u);
    MagnitudeReads(radix, digits, extension);
  }

  lemma SignReads(sign: Bytes, u: Bytes)
    requires IsSign(sign) && u != [] && u[0] != 0x2D && u[0] != 0x2B
    ensures var m := Magnitude(u);
      Signed(sign + u) == if sign == [0x2D] && m.Some? && m.value > 0 then Some(SIZE_MAX + 1 - m.value) else m
  {
    hide Magnitude;
    assert (sign + u)[|sign|..] == u;
  }

  lemma NumeralStart(radix: Bytes, digits: Bytes, extension: Bytes)
    requires IsRadix(radix) && digits != [] && forall b :: b in digits ==> IsHex(b)
    ensures var u := radix + digits + extension; u != [] && !IsSpace(u[0]) && u[0] != 0x2D && u[0] != 0x2B
  {
    hide IsHex;
    assert digits[0] in digits;
    HexIsPlain(digits[0]);
    assert radix == [] ==> (radix + digits + extension)[0] == digits[0];
  }

  lemma {:induction false} MagnitudeReads(radix: Bytes, digits: Bytes, extension: Bytes)
    requires IsRadix(radix) && digits != [] && forall b :: b in digits ==> IsHex(b)
    requires extension == [] || !IsHex(extension[0])
    requires radix == [] ==> !IsHexPrefix(digits + extension)
    ensures var v := HexNumber(digits);
      Magnitude(radix + digits + extension) == if v > SIZE_MAX then None else Some(v)
  {
    hide IsHex, HexNumber;
    var u := radix + digits + extension;
    assert digits[0] in digits;
    assert u[|radix|..] == digits + extension;
    if radix == [] {
      assert u == digits + extension;
    } else {
      assert u[0] == radix[0] && u[1] == radix[1] && u[2] == digits[0];
    }
    HexRunAll(digits, extension);
  }

  /** The size line a sender writes, minimal or not and with any extension after
      the digits, reads back as the size. */
  lemma {:induction false} SizeLineReads(digits: Bytes, extension: Bytes)
    requires digits != [] && forall b :: b in digits ==> IsHex(b)
    requires extension == [] || (!IsHex(extension[0]) && extension[0] != 0x78 && extension[0] != 0x58)
    requires HexNumber(digits) <= SIZE_MAX
    ensures Stoul16(digits + extension) == Some(HexNumber(digits))
  {
    hide IsHex, HexNumber, Stoul16;
    if |digits| >= 2 {
      assert (digits + extension)[1] == digits[1] && digits[1] in digits;
      HexIsPlain(digits[1]);
    }
    NumberReads([], [], [], digits, extension);
    assert [] + [] + [] + digits + extension == digits + extension;
  }

  /** Digits in any mixture of cases that spell a size of the source's width. */
  lemma {:induction false} SpelledSizeReads(values: seq<nat>, lowers: seq<bool>, extension: Bytes)
    requires values != [] && |values| == |lowers| && AreDigits(values)
    requires extension == [] || (!IsHex(extension[0]) && extension[0] != 0x78 && extension[0] != 0x58)
    requires Spelled(values) <= SIZE_MAX
    ensures Stoul16(DigitsText(values, lowers) + extension) == Some(Spelled(values))
  {
    hide Stoul16, IsHex, HexNumber;
    MixedCaseReads(values, lowers);
    SizeLineReads(DigitsText(values, lowers), extension);
  }

  /** Every body size has such a line, so data can be cut into chunks at will. */
  lemma {:induction false} PlainChunk(data: Bytes, lower: bool)
    requires data != [] && |data| < SIZE_MAX
    ensures WellFormed(Chunk(HexText(|data|, lower), data))
  {
    hide IsHex, HexText, HexNumber, Stoul16;
    var t := HexText(|data|, lower);
    HexTextReadsBack(|data|, lower);
    SixteenDigits();
    HexTextLength(|data|, 16, Power16(16), lower);
    assert t + [] == t;
    SizeLineReads(t, []);
    HexHasNoCrlf(t);
  }

  lemma HexHasNoCrlf(t: Bytes)
    requires forall b :: b in t ==> IsHex(b)
    ensures NoCrlf(t)
  {
    hide IsHex;
    forall i | 0 <= i < |t| - 1 ensures t[i] != CR || t[i + 1] != LF {
      assert t[i + 1] in t;
      HexIsPlain(t[i + 1]);
    }
  }

  // ----- bytes read along with the header -----

  /** No size line starts with this byte. */
  predicate StartsNoSize(b: bv8) {
    !(0x09 <= b <= 0x0D) && b != 0x20 && b != 0x2B && b != 0x2D && !IsHex(b)
  }

  /** A stream that starts in mid-data on such a byte delivers nothing at all. */
  lemma {:induction false} NoSizeNoBody(s: Bytes)
    requires s != [] && StartsNoSize(s[0])
    ensures Body(s) == []
  {
    TakeLineKeepsFront([], s);
    match TakeLine([], s)
    case Eof =>
    case Line(text, _) =>
      if text != [] {
        assert SkipSpaces(text) == text;
        assert HexRun(text) == [];
      }
  }

  /** A collected line starts with the byte it started with. */
  lemma {:induction false} TakeLineKeepsFront(line: Bytes, s: Bytes)
    requires line + s != []
    ensures TakeLine(line, s).Line? && TakeLine(line, s).text != [] ==> TakeLine(line, s).text[0] == (line + s)[0]
    decreases |s|
  {
    if |line| < MAX_LINE && s != [] && !(s[0] == LF && line != [] && line[|line| - 1] == CR) {
      assert (line + [s[0]]) + s[1..] == line + s;
      TakeLineKeepsFront(line + [s[0]], s[1..]);
    }
  }

  /** The chunked reader never sees bytes that arrived with the header.  If they
      reach into the data of the first chunk, up to a byte that starts no size line,
      all of the body is lost, for every chunk and whatever follows.  The preamble
      of a frame is such a byte, so losing just the first size line suffices when
      the data starts with a frame. */
  lemma {:induction false} SwallowedStartSilences(c: Chunk, after: Bytes, k: nat)
    requires WellFormed(c) && k < |c.data| && StartsNoSize(c.data[k])
    ensures Body(c.line + CRLF + c.data + CRLF + after) == c.data + Body(after)
    ensures Body((c.line + CRLF + c.data + CRLF + after)[|c.line| + 2 + k..]) == []
  {
    hide WellFormed, StartsNoSize, Body;
    var s := c.line + CRLF + c.data + CRLF + after;
    ChunkIsRead(c, after);
    var rest := s[|c.line| + 2 + k..];
    assert rest[0] == c.data[k];
    NoSizeNoBody(rest);
  }

  /** Losing bytes need not matter: a size line without its leading zeros reads the
      same. */
  lemma {:induction false} LeadingZerosAreSpare(zeros: nat, digits: Bytes, data: Bytes, after: Bytes)
    requires digits != [] && (forall b :: b in digits ==> IsHex(b)) && zeros + |digits| <= 30
    requires data != [] && |data| < SIZE_MAX && HexNumber(digits) == |data|
    ensures var s := Zeros(zeros) + digits + CRLF + data + CRLF + after;
      Body(s) == Body(s[zeros..]) == data + Body(after)
  {
    hide Body, IsHex, HexNumber, Stoul16;
    var line := Zeros(zeros) + digits;
    ZerosAddNothing(zeros, digits);
    assert line + [] == line && digits + [] == digits;
    SizeLineReads(line, []);
    SizeLineReads(digits, []);
    HexHasNoCrlf(line);
    HexHasNoCrlf(digits);
    ChunkIsRead(Chunk(line, data), after);
    ChunkIsRead(Chunk(digits, data), after);
    var s := line + CRLF + data + CRLF + after;
    assert s[zeros..] == digits + CRLF + data + CRLF + after;
  }

  function Zeros(n: nat): (r: Bytes)
    ensures |r| == n
  {
    seq(n, _ => 0x30)
  }

  lemma {:induction false} ZerosAddNothing(n: nat, digits: Bytes)
    requires forall b :: b in digits ==> IsHex(b)
    ensures forall b :: b in Zeros(n) + digits ==> IsHex(b)
    ensures HexNumber(Zeros(n) + digits) == HexNumber(digits)
    decreases n + |digits|
  {
    var s := Zeros(n) + digits;
    ZeroIsHex();
    hide IsHex;
    assert forall b :: b in s ==> IsHex(b);
    if digits != [] {
      ZerosAddNothing(n, digits[..|digits| - 1]);
      assert s[..|s| - 1] == Zeros(n) + digits[..|digits| - 1];
    } else if n > 0 {
      ZerosAddNothing(n - 1, []);
      assert s[..|s| - 1] == Zeros(n - 1) + [] && s[|s| - 1] == 0x30;
    } else {
      assert s == digits;
    }
  }

  lemma ZeroIsHex()
    ensures IsHex(0x30) && HexValue(0x30) == 0
  {
  }

  /** Every run of zeros, with any extension, is a terminating size line. */
  lemma {:induction false} ZeroLineIsLast(zeros: nat, extension: Bytes)
    requires 0 < zeros && zeros + |extension| <= 30 && NoCrlf(extension)
    requires extension == [] || (!IsHex(extension[0]) && extension[0] != 0x78 && extension[0] != 0x58)
    ensures IsLast(Zeros(zeros) + extension)
  {
    hide Stoul16, HexNumber;
    ZerosAddNothing(zeros, []);
    assert Zeros(zeros) + [] == Zeros(zeros);
    NoDigits();
    SizeLineReads(Zeros(zeros), extension);
  }

  lemma NoDigits()
    ensures HexNumber([]) == 0
  {
  }

  /** The preamble of an RTCM frame starts no size line. */
  lemma PreambleStartsNoSize()
    ensures StartsNoSize(0xD3)
  {
  }
}
