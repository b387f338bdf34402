/** Bits of a non-negative integer. */
module BitFields {

  predicate Bit(b: nat, i: nat) {
    if i == 0 then b % 2 == 1 else Bit(b / 2, i - 1)
  }

  /** b | (1 << i) */
  function OrBit(b: nat, i: nat): nat {
    if i == 0 then (if b % 2 == 1 then b else b + 1) else 2 * OrBit(b / 2, i - 1) + b % 2
  }

  lemma {:induction false} OrBitExact(b: nat, i: nat, j: nat)
    ensures Bit(OrBit(b, i), j) <==> j == i || Bit(b, j)
    decreases i
  {
    if i > 0 {
      assert OrBit(b, i) / 2 == OrBit(b / 2, i - 1) && OrBit(b, i) % 2 == b % 2;
      if j > 0 {
        OrBitExact(b / 2, i - 1, j - 1);
      }
    } else if j > 0 {
      assert OrBit(b, 0) / 2 == b / 2;
    }
  }

  lemma {:induction false} ZeroHasNoBit(i: nat)
    ensures !Bit(0, i)
    decreases i
  {
    if i > 0 {
      ZeroHasNoBit(i - 1);
    }
  }
}
