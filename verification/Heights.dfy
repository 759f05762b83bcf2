/** Powers of two, and the height of a level-by-level tree. */
module Heights {
  import opened Bytes

  /** The contract's cap on the number of nodes in a proof. */
  const MAX_PROOF_LENGTH := 32

  function Pow2(k: nat): (p: nat)
    ensures p > 0
  {
    if k == 0 then 1 else 2 * Pow2(k - 1)
  }

  /** The number of levels above n leaves. */
  function Height(n: nat): nat
    requires n > 0
  {
    if n == 1 then 0 else 1 + Height((n + 1) / 2)
  }

  /** The height is the base-two logarithm of the number of leaves, rounded up. */
  lemma {:induction false} HeightIsCeilLog2(n: nat)
    requires n > 0
    ensures n <= Pow2(Height(n))
    ensures n > 1 ==> Pow2(Height(n) - 1) < n
  {
    if n > 1 {
      HeightIsCeilLog2((n + 1) / 2);
    }
  }

  lemma {:induction false} Pow2Monotone(j: nat, k: nat)
    requires j <= k
    ensures Pow2(j) <= Pow2(k)
    decreases k
  {
    if j < k {
      Pow2Monotone(j, k - 1);
    }
  }

  /** The cap of 32 nodes is the bound of 2^32 leaves. */
  lemma CapIsLeafBound(n: nat)
    requires n > 0
    ensures Height(n) <= MAX_PROOF_LENGTH <==> n <= TWO_32
  {
    HeightIsCeilLog2(n);
    Pow2Of32();
    if Height(n) <= MAX_PROOF_LENGTH {
      Pow2Monotone(Height(n), 32);
    } else {
      Pow2Monotone(32, Height(n) - 1);
    }
  }

  lemma Pow2Of32()
    ensures Pow2(32) == TWO_32
  {
    assert Pow2(8) == 0x100;
    assert Pow2(16) == 0x1_0000;
    assert Pow2(24) == 0x100_0000;
  }
}
