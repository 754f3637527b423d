/** Numbers below 256 as bytes. */
module ByteValues {

  /** The byte that counting up to `n` reaches. */
  function Nth(n: nat): bv8
    requires n < 256
  {
    if n == 0 then 0 else Nth(n - 1) + 1
  }

  lemma Increment(b: bv8)
    requires b as int < 255
    ensures (b + 1) as int == b as int + 1
  {
  }

  lemma {:induction false} NthHolds(n: nat)
    requires n < 256
    ensures Nth(n) as int == n
  {
    if n > 0 {
      NthHolds(n - 1);
      Increment(Nth(n - 1));
    }
  }

  /** Writing a number into a byte and reading it back. */
  lemma ByteHolds(r: int)
    requires 0 <= r < 256
    ensures (r as bv8) as int == r
  {
    NthHolds(r);
    assert (Nth(r) as int) as bv8 == Nth(r);
  }
}
