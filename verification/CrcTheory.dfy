/** What the CRCs of this repository have in common.

    A register of some type R absorbs a message byte by adding an injected form
    of it and then taking eight steps.  The laws below (the addition is that of
    a vector space over GF(2), the step is linear and invertible) are all that
    linearity, the residue theorem and burst detection need, so the proofs do
    not look inside a register. */
module CrcTheory {

  datatype Code<!R> = Code(add: (R, R) -> R, zero: R, step: R -> R, inject: bv8 -> R)

  /** The register after `n` steps. */
  function Iterate<R>(k: Code<R>, x: R, n: nat): R {
    if n == 0 then x else k.step(Iterate(k, x, n - 1))
  }

  /** The register after one more message byte, bit by bit. */
  function Absorb<R>(k: Code<R>, c: R, b: bv8): R {
    Iterate(k, k.add(c, k.inject(b)), 8)
  }

  /** The register after a whole message. */
  function Run<R>(k: Code<R>, c: R, s: seq<bv8>): R
    decreases |s|
  {
    if s == [] then c else Run(k, Absorb(k, c, s[0]), s[1..])
  }

  function Xor(s: seq<bv8>, t: seq<bv8>): (u: seq<bv8>)
    requires |s| == |t|
    ensures |u| == |s|
  {
    seq(|s|, i requires 0 <= i < |s| => s[i] ^ t[i])
  }

  ghost predicate AddInterchanges<R(!new)>(k: Code<R>) {
    forall a, b, c, d :: k.add(k.add(a, b), k.add(c, d)) == k.add(k.add(a, c), k.add(b, d))
  }

  ghost predicate StepAdds<R(!new)>(k: Code<R>) {
    forall a, b :: k.step(k.add(a, b)) == k.add(k.step(a), k.step(b))
  }

  ghost predicate InjectAdds<R(!new)>(k: Code<R>) {
    forall a, b :: InjectAddsAt(k, a, b)
  }

  ghost predicate InjectAddsAt<R>(k: Code<R>, a: bv8, b: bv8) {
    k.inject(a ^ b) == k.add(k.inject(a), k.inject(b))
  }

  ghost predicate IsLinear<R(!new)>(k: Code<R>) {
    AddInterchanges(k) && StepAdds(k) && InjectAdds(k)
  }

  ghost predicate IsInvertible<R(!new)>(k: Code<R>) {
    && (forall a :: k.step(a) == k.zero <==> a == k.zero)
    && (forall a :: k.add(a, k.inject(0)) == a)
  }

  /** `odd` is a parity that addition adds and steps and injection keep. */
  ghost predicate KeepsParity<R(!new)>(k: Code<R>, odd: R -> bool, oddByte: bv8 -> bool) {
    && (forall a, b :: odd(k.add(a, b)) == (odd(a) != odd(b)))
    && (forall a :: odd(k.step(a)) == odd(a))
    && (forall b :: odd(k.inject(b)) == oddByte(b))
  }

  lemma {:induction false} IterateSplits<R>(k: Code<R>, x: R, m: nat, n: nat)
    ensures Iterate(k, x, m + n) == Iterate(k, Iterate(k, x, m), n)
  {
    if n > 0 {
      IterateSplits(k, x, m, n - 1);
    }
  }

  // ----- linearity -----

  lemma {:induction false} IterateLinear<R(!new)>(k: Code<R>, x: R, y: R, n: nat)
    requires StepAdds(k)
    ensures Iterate(k, k.add(x, y), n) == k.add(Iterate(k, x, n), Iterate(k, y, n))
  {
    if n > 0 {
      IterateLinear(k, x, y, n - 1);
    }
  }

  /** Absorbing a byte is linear in the register and the byte together. */
  ghost predicate AbsorbsLinearly<R(!new)>(k: Code<R>) {
    forall c, d, a, b :: Absorb(k, k.add(c, d), a ^ b) == k.add(Absorb(k, c, a), Absorb(k, d, b))
  }

  lemma AbsorbLinear<R(!new)>(k: Code<R>)
    requires IsLinear(k)
    ensures AbsorbsLinearly(k)
  {
    forall c, d, a, b ensures Absorb(k, k.add(c, d), a ^ b) == k.add(Absorb(k, c, a), Absorb(k, d, b)) {
      assert InjectAddsAt(k, a, b);
      IterateLinear(k, k.add(c, k.inject(a)), k.add(d, k.inject(b)), 8);
    }
  }

  lemma XorTail(s: seq<bv8>, t: seq<bv8>)
    requires |s| == |t| > 0
    ensures Xor(s, t)[0] == s[0] ^ t[0] && Xor(s, t)[1..] == Xor(s[1..], t[1..])
  {
  }

  lemma {:induction false} RunCons<R>(k: Code<R>, c: R, b: bv8, s: seq<bv8>)
    ensures Run(k, c, [b] + s) == Run(k, Absorb(k, c, b), s)
  {
    assert ([b] + s)[1..] == s;
  }

  /** The register is linear in its start value and the message together. */
  lemma {:induction false} RunLinear<R(!new)>(k: Code<R>, c: R, d: R, s: seq<bv8>, t: seq<bv8>)
    requires AbsorbsLinearly(k) && |s| == |t|
    ensures Run(k, k.add(c, d), Xor(s, t)) == k.add(Run(k, c, s), Run(k, d, t))
    decreases |s|
  {
    if s != [] {
      XorTail(s, t);
      RunLinear(k, Absorb(k, c, s[0]), Absorb(k, d, t[0]), s[1..], t[1..]);
      var u := Xor(s, t);
      assert Run(k, k.add(c, d), u) == Run(k, Absorb(k, k.add(c, d), u[0]), u[1..]);
    }
  }

  lemma {:induction false} RunConcat<R>(k: Code<R>, c: R, s: seq<bv8>, t: seq<bv8>)
    ensures Run(k, c, s + t) == Run(k, Run(k, c, s), t)
    decreases |s|
  {
    if s == [] {
      assert s + t == t;
    } else {
      assert (s + t)[1..] == s[1..] + t;
      RunConcat(k, Absorb(k, c, s[0]), s[1..], t);
    }
  }

  lemma {:induction false} RunSnoc<R>(k: Code<R>, c: R, s: seq<bv8>, i: nat)
    requires i < |s|
    ensures Run(k, c, s[..i + 1]) == Absorb(k, Run(k, c, s[..i]), s[i])
  {
    assert s[..i + 1] == s[..i] + [s[i]];
    RunConcat(k, c, s[..i], [s[i]]);
    RunCons(k, Run(k, c, s[..i]), s[i], []);
    assert [s[i]] + [] == [s[i]];
  }

  // ----- invertibility -----

  /** No number of steps sends a nonzero register to zero. */
  lemma {:induction false} IterateKernel<R(!new)>(k: Code<R>, x: R, n: nat)
    requires IsInvertible(k)
    ensures Iterate(k, x, n) == k.zero <==> x == k.zero
  {
    if n > 0 {
      IterateKernel(k, x, n - 1);
    }
  }

  // ----- bit by bit -----

  /** A bit enters as the highest bit of a byte. */
  function BitByte(bit: bool): bv8 {
    if bit then 0x80 else 0
  }

  /** The register after some message bits, one at a time. */
  function RunBits<R>(k: Code<R>, c: R, bits: seq<bool>): R
    decreases |bits|
  {
    if bits == [] then c else RunBits(k, k.step(k.add(c, k.inject(BitByte(bits[0])))), bits[1..])
  }

  function Top(b: bv8): bool {
    b & 0x80 != 0
  }

  function Up(b: bv8): bv8 {
    b << 1
  }

  /** The highest `n` bits of a byte, highest first. */
  function Bits(b: bv8, n: nat): (r: seq<bool>)
    ensures |r| == n
    decreases n
  {
    if n == 0 then [] else [Top(b)] + Bits(Up(b), n - 1)
  }

  /** The bits of a message in the order of transmission. */
  function MessageBits(s: seq<bv8>): (r: seq<bool>)
    ensures |r| == 8 * |s|
    decreases |s|
  {
    if s == [] then [] else Bits(s[0], 8) + MessageBits(s[1..])
  }

  /** A step moves the bits behind the highest one up by a place. */
  ghost predicate ShiftsIn<R(!new)>(k: Code<R>) {
    forall c, b :: k.step(k.add(c, k.inject(b))) == k.add(k.step(k.add(c, k.inject(BitByte(Top(b))))), k.inject(Up(b)))
  }

  function UpBy(b: bv8, n: nat): bv8
    decreases n
  {
    if n == 0 then b else UpBy(Up(b), n - 1)
  }

  lemma {:induction false} IterateFromFront<R>(k: Code<R>, x: R, n: nat)
    requires n > 0
    ensures Iterate(k, x, n) == Iterate(k, k.step(x), n - 1)
  {
    IterateSplits(k, x, 1, n - 1);
    assert Iterate(k, x, 0) == x && Iterate(k, x, 1) == k.step(x);
  }

  /** Stepping over an injected byte takes its bits in one at a time. */
  lemma {:induction false} StepsTakeBits<R(!new)>(k: Code<R>, c: R, b: bv8, n: nat)
    requires ShiftsIn(k)
    ensures Iterate(k, k.add(c, k.inject(b)), n) == k.add(RunBits(k, c, Bits(b, n)), k.inject(UpBy(b, n)))
    decreases n
  {
    hide Top, Up, BitByte;
    if n > 0 {
      IterateFromFront(k, k.add(c, k.inject(b)), n);
      var next := k.step(k.add(c, k.inject(BitByte(Top(b)))));
      StepsTakeBits(k, next, Up(b), n - 1);
      assert Bits(b, n)[1..] == Bits(Up(b), n - 1) && Bits(b, n)[0] == Top(b);
    }
  }

  lemma {:induction false} AllShiftedOut(b: bv8)
    ensures UpBy(b, 8) == 0
  {
    assert UpBy(b, 8) == Up(Up(Up(Up(Up(Up(Up(Up(b)))))))) by {
      hide Up;
      var b4 := Up(Up(Up(Up(b))));
      assert UpBy(b, 8) == UpBy(Up(Up(b)), 6) == UpBy(b4, 4);
      assert UpBy(b4, 4) == UpBy(Up(Up(b4)), 2) == UpBy(Up(Up(Up(Up(b4)))), 0);
    }
  }

  lemma {:induction false} RunBitsConcat<R>(k: Code<R>, c: R, s: seq<bool>, t: seq<bool>)
    ensures RunBits(k, c, s + t) == RunBits(k, RunBits(k, c, s), t)
    decreases |s|
  {
    if s == [] {
      assert s + t == t;
    } else {
      assert (s + t)[1..] == s[1..] + t;
      RunBitsConcat(k, k.step(k.add(c, k.inject(BitByte(s[0])))), s[1..], t);
    }
  }

  /** Absorbing bytes is absorbing their bits. */
  lemma {:induction false} RunIsRunBits<R(!new)>(k: Code<R>, c: R, s: seq<bv8>)
    requires ShiftsIn(k) && IsInvertible(k)
    ensures Run(k, c, s) == RunBits(k, c, MessageBits(s))
    decreases |s|
  {
    hide Bits, UpBy, ShiftsIn;
    if s != [] {
      StepsTakeBits(k, c, s[0], 8);
      AllShiftedOut(s[0]);
      RunIsRunBits(k, Absorb(k, c, s[0]), s[1..]);
      RunBitsConcat(k, c, Bits(s[0], 8), MessageBits(s[1..]));
    }
  }

  /** A run of zero bits keeps a register zero or keeps it nonzero. */
  lemma {:induction false} ZerosKernel<R(!new)>(k: Code<R>, c: R, bits: seq<bool>)
    requires IsInvertible(k) && (forall i :: 0 <= i < |bits| ==> !bits[i])
    ensures RunBits(k, c, bits) == k.zero <==> c == k.zero
    decreases |bits|
  {
    if bits != [] {
      assert !bits[0];
      ZerosKernel(k, k.step(k.add(c, k.inject(BitByte(bits[0])))), bits[1..]);
    }
  }

  /** Bits that are zero but for a stretch `w` bring the zero register back to zero
      exactly when `w` alone does. */
  lemma {:induction false} BurstKernel<R(!new)>(k: Code<R>, before: seq<bool>, w: seq<bool>, after: seq<bool>)
    requires IsInvertible(k)
    requires (forall i :: 0 <= i < |before| ==> !before[i]) && (forall i :: 0 <= i < |after| ==> !after[i])
    ensures RunBits(k, k.zero, before + w + after) == k.zero <==> RunBits(k, k.zero, w) == k.zero
  {
    RunBitsConcat(k, k.zero, before + w, after);
    RunBitsConcat(k, k.zero, before, w);
    ZerosKernel(k, k.zero, before);
    ZerosKernel(k, RunBits(k, k.zero, before + w), after);
  }

  // ----- parity -----

  ghost function OddMessage(oddByte: bv8 -> bool, s: seq<bv8>): bool {
    if s == [] then false else oddByte(s[0]) != OddMessage(oddByte, s[1..])
  }

  /** How many bits a message has set, given how many each byte has. */
  ghost function BitCount(bits: bv8 -> nat, s: seq<bv8>): nat {
    if s == [] then 0 else bits(s[0]) + BitCount(bits, s[1..])
  }

  lemma {:induction false} BitCountParity(bits: bv8 -> nat, oddByte: bv8 -> bool, s: seq<bv8>)
    requires forall b :: oddByte(b) <==> bits(b) % 2 == 1
    ensures OddMessage(oddByte, s) <==> BitCount(bits, s) % 2 == 1
    decreases |s|
  {
    if s != [] {
      BitCountParity(bits, oddByte, s[1..]);
    }
  }

  lemma {:induction false} IterateParity<R(!new)>(k: Code<R>, odd: R -> bool, oddByte: bv8 -> bool, x: R, n: nat)
    requires KeepsParity(k, odd, oddByte)
    ensures odd(Iterate(k, x, n)) == odd(x)
  {
    if n > 0 {
      IterateParity(k, odd, oddByte, x, n - 1);
    }
  }

  /** The parity of the register is that of the bits that went into it. */
  lemma {:induction false} RunParity<R(!new)>(k: Code<R>, odd: R -> bool, oddByte: bv8 -> bool, c: R, s: seq<bv8>)
    requires KeepsParity(k, odd, oddByte)
    ensures odd(Run(k, c, s)) == (odd(c) != OddMessage(oddByte, s))
    decreases |s|
  {
    if s != [] {
      IterateParity(k, odd, oddByte, k.add(c, k.inject(s[0])), 8);
      RunParity(k, odd, oddByte, Absorb(k, c, s[0]), s[1..]);
    }
  }

  /** Whether an odd number of the lowest `n` bits of a register are set, when
      the code's step drops the lowest bit and `low` reads it. */
  ghost function BitsOdd<R>(halver: Code<R>, low: R -> bool, c: R, n: nat): bool {
    n > 0 && BitsOdd(halver, low, c, n - 1) != low(Iterate(halver, c, n - 1))
  }

  lemma {:induction false} BitsOddAdds<R(!new)>(halver: Code<R>, low: R -> bool, c: R, d: R, n: nat)
    requires StepAdds(halver) && forall a, b :: low(halver.add(a, b)) == (low(a) != low(b))
    ensures BitsOdd(halver, low, halver.add(c, d), n) == (BitsOdd(halver, low, c, n) != BitsOdd(halver, low, d, n))
  {
    if n > 0 {
      BitsOddAdds(halver, low, c, d, n - 1);
      IterateLinear(halver, c, d, n - 1);
    }
  }

  lemma {:induction false} BitsOddSplits<R>(halver: Code<R>, low: R -> bool, c: R, m: nat, n: nat)
    ensures BitsOdd(halver, low, c, m + n) ==
        (BitsOdd(halver, low, c, m) != BitsOdd(halver, low, Iterate(halver, c, m), n))
  {
    if n > 0 {
      BitsOddSplits(halver, low, c, m, n - 1);
      IterateSplits(halver, c, m, n - 1);
    }
  }

  lemma {:induction false} BitsOddDoubled<R>(halver: Code<R>, low: R -> bool, d: R, n: nat)
    ensures BitsOdd(halver, low, d, 1 + n) == (low(d) != BitsOdd(halver, low, halver.step(d), n))
  {
    BitsOddSplits(halver, low, d, 1, n);
    assert Iterate(halver, d, 0) == d && Iterate(halver, d, 1) == halver.step(d);
    assert BitsOdd(halver, low, d, 1) == low(d);
  }

  /** Once halving has reached zero, further bits do not count. */
  lemma {:induction false} BitsOddStops<R>(halver: Code<R>, low: R -> bool, c: R, m: nat, n: nat)
    requires Iterate(halver, c, m) == halver.zero && halver.step(halver.zero) == halver.zero && !low(halver.zero)
    ensures BitsOdd(halver, low, c, m + n) == BitsOdd(halver, low, c, m) && Iterate(halver, c, m + n) == halver.zero
  {
    if n > 0 {
      BitsOddStops(halver, low, c, m, n - 1);
    }
  }

  // ----- three bytes at the end of a message -----

  ghost predicate AssociatesAt<R>(k: Code<R>, a: R, b: R, c: R) {
    k.add(a, k.add(b, c)) == k.add(k.add(a, b), c)
  }

  lemma {:induction false} RunThree<R>(k: Code<R>, c: R, h: bv8, m: bv8, l: bv8)
    ensures Run(k, c, [h, m, l]) == Absorb(k, Absorb(k, Absorb(k, c, h), m), l)
  {
    assert [h, m, l] == [h] + ([m] + ([l] + []));
    RunCons(k, c, h, [m] + ([l] + []));
    RunCons(k, Absorb(k, c, h), m, [l] + []);
    RunCons(k, Absorb(k, Absorb(k, c, h), m), l, []);
  }

  /** Bytes that eight and sixteen steps would carry into the injection place can
      be added up front: three bytes multiply their joint value, added to the
      register, by x^24. */
  lemma {:induction false} ThreeAtOnce<R(!new)>(k: Code<R>, c: R, h: bv8, m: bv8, l: bv8, mid: R, low: R, low': R)
    requires IsLinear(k)
    requires AssociatesAt(k, Absorb(k, c, h), k.inject(m), low')
    requires Iterate(k, mid, 8) == k.inject(m)
    requires Iterate(k, low, 8) == low' && Iterate(k, low', 8) == k.inject(l)
    ensures Run(k, c, [h, m, l]) ==
        Iterate(k, Iterate(k, Iterate(k, k.add(k.add(c, k.inject(h)), k.add(mid, low)), 8), 8), 8)
  {
    RunThree(k, c, h, m, l);
    var r := Absorb(k, c, h);
    IterateLinear(k, k.add(c, k.inject(h)), k.add(mid, low), 8);
    IterateLinear(k, mid, low, 8);
    IterateLinear(k, k.add(r, k.inject(m)), low', 8);
  }

  /** Three bytes bring a register to zero exactly when their joint value does. */
  lemma {:induction false} ThreeKernel<R(!new)>(k: Code<R>, c: R, h: bv8, m: bv8, l: bv8, mid: R, low: R, low': R)
    requires IsLinear(k) && IsInvertible(k)
    requires AssociatesAt(k, Absorb(k, c, h), k.inject(m), low')
    requires Iterate(k, mid, 8) == k.inject(m)
    requires Iterate(k, low, 8) == low' && Iterate(k, low', 8) == k.inject(l)
    ensures Run(k, c, [h, m, l]) == k.zero <==> k.add(k.add(c, k.inject(h)), k.add(mid, low)) == k.zero
  {
    ThreeAtOnce(k, c, h, m, l, mid, low, low');
    var x := k.add(k.add(c, k.inject(h)), k.add(mid, low));
    IterateKernel(k, x, 8);
    IterateKernel(k, Iterate(k, x, 8), 8);
    IterateKernel(k, Iterate(k, Iterate(k, x, 8), 8), 8);
  }

  /** Feeding three bytes tells apart every three-byte value. */
  ghost predicate SeesThreeBytes<R(!new)>(k: Code<R>) {
    forall h, m, l :: Run(k, k.zero, [h, m, l]) == k.zero ==> h == 0 && m == 0 && l == 0
  }

  /** A run of zero bytes keeps a register zero or keeps it nonzero. */
  lemma {:induction false} ZeroBytesKernel<R(!new)>(k: Code<R>, c: R, s: seq<bv8>)
    requires IsInvertible(k) && (forall i :: 0 <= i < |s| ==> s[i] == 0)
    ensures Run(k, c, s) == k.zero <==> c == k.zero
    decreases |s|
  {
    if s != [] {
      assert s[0] == 0;
      IterateKernel(k, c, 8);
      ZeroBytesKernel(k, Absorb(k, c, s[0]), s[1..]);
    }
  }

  /** A message that is zero but for a stretch `w` brings the zero register back to
      zero exactly when `w` alone does. */
  lemma {:induction false} StretchKernel<R(!new)>(k: Code<R>, before: seq<bv8>, w: seq<bv8>, after: seq<bv8>)
    requires IsInvertible(k)
    requires (forall i :: 0 <= i < |before| ==> before[i] == 0) && (forall i :: 0 <= i < |after| ==> after[i] == 0)
    ensures Run(k, k.zero, before + w + after) == k.zero <==> Run(k, k.zero, w) == k.zero
  {
    RunConcat(k, k.zero, before + w, after);
    RunConcat(k, k.zero, before, w);
    ZeroBytesKernel(k, k.zero, before);
    ZeroBytesKernel(k, Run(k, k.zero, before + w), after);
  }

  /** Two byte strings of one length that differ, and only within the 24
      consecutive bits from bit `p` on. */
  ghost predicate DifferInBurst(f: seq<bv8>, g: seq<bv8>, p: nat) {
    && |f| == |g| && p + 24 <= 8 * |f| && f != g
    && forall j :: 0 <= j < 8 * |f| && !(p <= j < p + 24) ==> MessageBits(f)[j] == MessageBits(g)[j]
  }

  lemma {:induction false} BitOfMessage(s: seq<bv8>, i: nat, r: nat)
    requires i < |s| && r < 8
    ensures 8 * i + r < |MessageBits(s)| && MessageBits(s)[8 * i + r] == Bits(s[i], 8)[r]
    decreases i
  {
    hide Bits;
    if i > 0 {
      BitOfMessage(s[1..], i - 1, r);
      assert MessageBits(s)[8 * i + r] == MessageBits(s[1..])[8 * (i - 1) + r];
    }
  }

  /** A change within three consecutive bytes is a burst, if it is a change. */
  lemma {:induction false} ThreeBytesAreABurst(f: seq<bv8>, g: seq<bv8>, i: nat)
    requires |f| == |g| && i + 3 <= |f| && f != g
    requires forall j :: 0 <= j < |f| && !(i <= j < i + 3) ==> f[j] == g[j]
    ensures DifferInBurst(f, g, 8 * i)
  {
    hide MessageBits, Bits;
    var p := 8 * i;
    forall j | 0 <= j < 8 * |f| && !(p <= j < p + 24) ensures MessageBits(f)[j] == MessageBits(g)[j] {
      var at, r := j / 8, j % 8;
      assert j == 8 * at + r && f[at] == g[at];
      BitOfMessage(f, at, r);
      BitOfMessage(g, at, r);
    }
  }

  /** The number of bits in which two strings differ is odd. */
  ghost predicate DifferOddly(f: seq<bv8>, g: seq<bv8>, oddByte: bv8 -> bool) {
    |f| == |g| && OddMessage(oddByte, Xor(f, g))
  }

  /** The register of the difference of two messages is the difference of their
      registers. */
  lemma {:induction false} RunOfDifference<R(!new)>(k: Code<R>, f: seq<bv8>, g: seq<bv8>)
    requires IsLinear(k) && |f| == |g|
    requires forall a :: k.add(k.zero, a) == a
    requires Run(k, k.zero, f) == k.zero
    ensures Run(k, k.zero, Xor(f, g)) == Run(k, k.zero, g)
  {
    AbsorbLinear(k);
    RunLinear(k, k.zero, k.zero, f, g);
  }

  lemma XorZero(a: bv8, b: bv8)
    ensures a ^ b == 0 <==> a == b
  {
  }

  lemma BitsOfXor(a: bv8, b: bv8)
    ensures Top(a ^ b) == (Top(a) != Top(b)) && Up(a ^ b) == Up(a) ^ Up(b)
  {
  }

  /** `z` tells where `x` and `y` differ. */
  ghost predicate Differences(x: seq<bool>, y: seq<bool>, z: seq<bool>) {
    |x| == |y| == |z| && forall j :: 0 <= j < |z| ==> z[j] == (x[j] != y[j])
  }

  lemma DifferencesConcat(x: seq<bool>, y: seq<bool>, z: seq<bool>, x': seq<bool>, y': seq<bool>, z': seq<bool>)
    requires Differences(x, y, z) && Differences(x', y', z')
    ensures Differences(x + x', y + y', z + z')
  {
  }

  lemma {:induction false} XorBits(a: bv8, b: bv8, n: nat)
    ensures Differences(Bits(a, n), Bits(b, n), Bits(a ^ b, n))
    decreases n
  {
    hide Top, Up;
    if n > 0 {
      BitsOfXor(a, b);
      XorBits(Up(a), Up(b), n - 1);
      var x, y, z := [Top(a)], [Top(b)], [Top(a ^ b)];
      assert Differences(x, y, z);
      hide Differences;
      DifferencesConcat(x, y, z, Bits(Up(a), n - 1), Bits(Up(b), n - 1), Bits(Up(a ^ b), n - 1));
    }
  }

  /** A bit of the difference is set exactly where the messages differ. */
  lemma {:induction false} XorMessageBits(f: seq<bv8>, g: seq<bv8>)
    requires |f| == |g|
    ensures Differences(MessageBits(f), MessageBits(g), MessageBits(Xor(f, g)))
    decreases |f|
  {
    hide Bits;
    if f != [] {
      XorTail(f, g);
      var e := Xor(f, g);
      XorBits(f[0], g[0], 8);
      XorMessageBits(f[1..], g[1..]);
      hide Differences, Xor;
      DifferencesConcat(Bits(f[0], 8), Bits(g[0], 8), Bits(e[0], 8),
                        MessageBits(f[1..]), MessageBits(g[1..]), MessageBits(e[1..]));
    }
  }

  /** Eight bits as a byte. */
  function ByteOf(b: seq<bool>): bv8
    requires |b| == 8
  {
    Place(b[0], 0x80) | Place(b[1], 0x40) | Place(b[2], 0x20) | Place(b[3], 0x10)
    | Place(b[4], 0x08) | Place(b[5], 0x04) | Place(b[6], 0x02) | Place(b[7], 0x01)
  }

  function Place(bit: bool, value: bv8): bv8 {
    if bit then value else 0
  }

  lemma {:induction false} EightBits(b: bv8)
    ensures Bits(b, 8) == [b & 0x80 != 0, b & 0x40 != 0, b & 0x20 != 0, b & 0x10 != 0,
                           b & 0x08 != 0, b & 0x04 != 0, b & 0x02 != 0, b & 0x01 != 0]
  {
    UpBits(b);
    hide Up, Top, Bits;
    FourBits(b, 8);
    FourBits(Up(Up(Up(Up(b)))), 4);
    NoBits(Up(Up(Up(Up(Up(Up(Up(Up(b)))))))));
  }

  lemma {:induction false} NoBits(b: bv8)
    ensures Bits(b, 0) == []
  {
  }

  lemma {:induction false} FourBits(b: bv8, n: nat)
    requires n >= 4
    ensures Bits(b, n) == [Top(b), Top(Up(b)), Top(Up(Up(b))), Top(Up(Up(Up(b))))] + Bits(Up(Up(Up(Up(b)))), n - 4)
  {
    hide Up, Top, Bits;
    TwoBits(b, n);
    TwoBits(Up(Up(b)), n - 2);
  }

  lemma {:induction false} TwoBits(b: bv8, n: nat)
    requires n >= 2
    ensures Bits(b, n) == [Top(b), Top(Up(b))] + Bits(Up(Up(b)), n - 2)
  {
    hide Top, Up;
    assert Bits(Up(b), n - 1) == [Top(Up(b))] + Bits(Up(Up(b)), n - 2);
  }

  lemma UpBits(b: bv8)
    ensures Top(b) == (b & 0x80 != 0) && Top(Up(b)) == (b & 0x40 != 0)
    ensures var b2 := Up(Up(b)); Top(b2) == (b & 0x20 != 0) && Top(Up(b2)) == (b & 0x10 != 0)
    ensures var b4 := Up(Up(Up(Up(b)))); Top(b4) == (b & 0x08 != 0) && Top(Up(b4)) == (b & 0x04 != 0)
    ensures var b6 := Up(Up(Up(Up(Up(Up(b)))))); Top(b6) == (b & 0x02 != 0) && Top(Up(b6)) == (b & 0x01 != 0)
  {
  }

  lemma {:induction false} ByteHasBits(b: seq<bool>)
    requires |b| == 8
    ensures Bits(ByteOf(b), 8) == b
  {
    EightBits(ByteOf(b));
    PlacesRead(b[0], b[1], b[2], b[3], b[4], b[5], b[6], b[7]);
    hide Bits;
  }

  lemma PlacesRead(b0: bool, b1: bool, b2: bool, b3: bool, b4: bool, b5: bool, b6: bool, b7: bool)
    ensures var b := Place(b0, 0x80) | Place(b1, 0x40) | Place(b2, 0x20) | Place(b3, 0x10)
                     | Place(b4, 0x08) | Place(b5, 0x04) | Place(b6, 0x02) | Place(b7, 0x01);
      && (b & 0x80 != 0) == b0 && (b & 0x40 != 0) == b1 && (b & 0x20 != 0) == b2 && (b & 0x10 != 0) == b3
      && (b & 0x08 != 0) == b4 && (b & 0x04 != 0) == b5 && (b & 0x02 != 0) == b6 && (b & 0x01 != 0) == b7
  {
  }

  /** Any 24 bits are those of three bytes. */
  lemma {:induction false} BitsAreBytes(w: seq<bool>) returns (h: bv8, m: bv8, l: bv8)
    requires |w| == 24
    ensures MessageBits([h, m, l]) == w
  {
    h, m, l := ByteOf(w[..8]), ByteOf(w[8..16]), ByteOf(w[16..]);
    ByteHasBits(w[..8]);
    ByteHasBits(w[8..16]);
    ByteHasBits(w[16..]);
    hide Bits, ByteOf;
    assert [h, m, l][1..] == [m, l] && [m, l][1..] == [l] && [l][1..] == [];
    assert MessageBits([l]) == Bits(l, 8) + MessageBits([]);
    assert MessageBits([m, l]) == Bits(m, 8) + MessageBits([l]);
    assert w == w[..8] + (w[8..16] + (w[16..] + []));
  }

  /** No 24 consecutive bits, however they lie across the bytes, are invisible. */
  lemma {:induction false} WindowIsSeen<R(!new)>(k: Code<R>, w: seq<bool>)
    requires ShiftsIn(k) && IsInvertible(k) && SeesThreeBytes(k) && |w| == 24
    requires RunBits(k, k.zero, w) == k.zero
    ensures forall i :: 0 <= i < 24 ==> !w[i]
  {
    hide ShiftsIn, IsInvertible, RunBits, Bits;
    var h, m, l := BitsAreBytes(w);
    RunIsRunBits(k, k.zero, [h, m, l]);
    ZeroBits();
    assert [h, m, l] == [0, 0, 0];
  }

  lemma {:induction false} ZeroBits()
    ensures forall i :: 0 <= i < 24 ==> !MessageBits([0, 0, 0])[i]
  {
    EightBits(0);
    hide Bits;
    var z: seq<bv8> := [0, 0, 0];
    assert z[1..] == [0, 0] && z[1..][1..] == [0] && z[1..][1..][1..] == [];
    assert MessageBits(z[1..][1..]) == Bits(0, 8) + MessageBits([]);
    assert MessageBits(z[1..]) == Bits(0, 8) + MessageBits(z[1..][1..]);
    assert MessageBits(z) == Bits(0, 8) + MessageBits(z[1..]);
  }

  lemma {:induction false} EqualBits(a: bv8, b: bv8)
    ensures Bits(a, 8) == Bits(b, 8) ==> a == b
  {
    EightBits(a);
    EightBits(b);
    var x, y := Bits(a, 8), Bits(b, 8);
    hide Bits;
    if x == y {
      assert x[0] == y[0] && x[1] == y[1] && x[2] == y[2] && x[3] == y[3];
      assert x[4] == y[4] && x[5] == y[5] && x[6] == y[6] && x[7] == y[7];
      MasksDetermine(a, b);
    }
  }

  lemma MasksDetermine(a: bv8, b: bv8)
    requires (a & 0x80 != 0) == (b & 0x80 != 0) && (a & 0x40 != 0) == (b & 0x40 != 0)
    requires (a & 0x20 != 0) == (b & 0x20 != 0) && (a & 0x10 != 0) == (b & 0x10 != 0)
    requires (a & 0x08 != 0) == (b & 0x08 != 0) && (a & 0x04 != 0) == (b & 0x04 != 0)
    requires (a & 0x02 != 0) == (b & 0x02 != 0) && (a & 0x01 != 0) == (b & 0x01 != 0)
    ensures a == b
  {
  }

  /** Messages with the same bits are the same. */
  lemma {:induction false} EqualMessageBits(f: seq<bv8>, g: seq<bv8>)
    requires |f| == |g| && MessageBits(f) == MessageBits(g)
    ensures f == g
    decreases |f|
  {
    hide Bits;
    if f != [] {
      assert Bits(f[0], 8) == MessageBits(f)[..8] == MessageBits(g)[..8] == Bits(g[0], 8);
      EqualBits(f[0], g[0]);
      assert MessageBits(f[1..]) == MessageBits(f)[8..] == MessageBits(g)[8..] == MessageBits(g[1..]);
      EqualMessageBits(f[1..], g[1..]);
      assert f == [f[0]] + f[1..] && g == [g[0]] + g[1..];
    }
  }

  lemma {:induction false} BurstOfDifference<R(!new)>(k: Code<R>, f: seq<bv8>, g: seq<bv8>, p: nat)
    requires ShiftsIn(k) && IsInvertible(k) && SeesThreeBytes(k) && DifferInBurst(f, g, p)
    ensures Run(k, k.zero, Xor(f, g)) != k.zero
  {
    hide MessageBits, Run, RunBits, ShiftsIn, IsInvertible, SeesThreeBytes, Xor;
    var e := MessageBits(Xor(f, g));
    XorMessageBits(f, g);
    RunIsRunBits(k, k.zero, Xor(f, g));
    var before, w, after := e[..p], e[p..p + 24], e[p + 24..];
    assert e == before + w + after;
    BurstKernel(k, before, w, after);
    if RunBits(k, k.zero, w) == k.zero {
      WindowIsSeen(k, w);
      forall j | 0 <= j < |e| ensures MessageBits(f)[j] == MessageBits(g)[j] {
        if p <= j < p + 24 { assert !w[j - p]; }
      }
      EqualMessageBits(f, g);
    }
  }

  /** Every change confined to 24 consecutive bits of a message that brings the
      register to zero leaves it nonzero. */
  lemma {:induction false} BurstDetected<R(!new)>(k: Code<R>, f: seq<bv8>, g: seq<bv8>, p: nat)
    requires IsLinear(k) && ShiftsIn(k) && IsInvertible(k) && SeesThreeBytes(k)
    requires forall a :: k.add(k.zero, a) == a
    requires Run(k, k.zero, f) == k.zero && DifferInBurst(f, g, p)
    ensures Run(k, k.zero, g) != k.zero
  {
    RunOfDifference(k, f, g);
    BurstOfDifference(k, f, g, p);
  }

  /** So does every change of an odd number of bits, for a code that keeps parity. */
  lemma {:induction false} OddChangeDetected<R(!new)>(k: Code<R>, odd: R -> bool, oddByte: bv8 -> bool, f: seq<bv8>,
      g: seq<bv8>)
    requires IsLinear(k) && KeepsParity(k, odd, oddByte) && !odd(k.zero)
    requires forall a :: k.add(k.zero, a) == a
    requires Run(k, k.zero, f) == k.zero && DifferOddly(f, g, oddByte)
    ensures Run(k, k.zero, g) != k.zero
  {
    RunOfDifference(k, f, g);
    RunParity(k, odd, oddByte, k.zero, Xor(f, g));
  }
}
