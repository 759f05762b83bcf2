/** What the level-by-level construction computes, said without levels: the root
    of a recursive tree, and a closed form for every proof and its length. */
module MerkleShape {
  import opened Bytes
  import opened Heights
  import opened MerkleTree

  // ----- the recursive tree -----

  /** The largest power of two below n. */
  function Split(n: nat): (m: nat)
    requires n >= 2
    ensures 0 < m < n <= 2 * m
    ensures n > 2 ==> m % 2 == 0
  {
    if n == 2 then 1 else 2 * Split((n + 1) / 2)
  }

  lemma {:induction false} SplitIsPowerOfTwo(n: nat)
    requires n >= 2
    ensures exists k: nat :: Split(n) == Pow2(k)
  {
    if n == 2 {
      assert Split(n) == Pow2(0);
    } else {
      SplitIsPowerOfTwo((n + 1) / 2);
      var k: nat :| Split((n + 1) / 2) == Pow2(k);
      assert Split(n) == Pow2(k + 1);
    }
  }

  /** The tree that splits its leaves at the largest power of two below their number. */
  function SplitRoot(sha: Sha, leaves: seq<Hash>): Hash
    requires leaves != []
    decreases |leaves|
  {
    if |leaves| == 1 then leaves[0]
    else
      var m := Split(|leaves|);
      SortedPairHash(sha, SplitRoot(sha, leaves[..m]), SplitRoot(sha, leaves[m..]))
  }

  lemma AboveConcat(sha: Sha, s: seq<Hash>, t: seq<Hash>)
    requires |s| % 2 == 0
    ensures Above(sha, s + t) == Above(sha, s) + Above(sha, t)
  {
    var n := |s| / 2;
    forall j | 0 <= j < |Above(sha, s + t)|
      ensures Above(sha, s + t)[j] == (Above(sha, s) + Above(sha, t))[j]
    {
      if j >= n {
        assert (s + t)[2 * j] == t[2 * (j - n)];
      }
    }
  }

  lemma SplitRootOf(sha: Sha, s: seq<Hash>, t: seq<Hash>)
    requires s != [] && t != [] && |s| == Split(|s + t|)
    ensures SplitRoot(sha, s + t) == SortedPairHash(sha, SplitRoot(sha, s), SplitRoot(sha, t))
  {
    assert (s + t)[..|s|] == s && (s + t)[|s|..] == t;
  }

  /** One level up the recursive tree has the same root. */
  lemma {:induction false} SplitRootAbove(sha: Sha, leaves: seq<Hash>)
    requires leaves != []
    ensures SplitRoot(sha, Above(sha, leaves)) == SplitRoot(sha, leaves)
    decreases |leaves|
  {
    if |leaves| == 1 {
      assert Above(sha, leaves) == leaves;
    } else if |leaves| == 2 {
      SplitRootOf(sha, leaves[..1], leaves[1..]);
      assert leaves[..1] + leaves[1..] == leaves;
    } else {
      var m := Split(|leaves|);
      var s, t := leaves[..m], leaves[m..];
      assert s + t == leaves;
      SplitRootAbove(sha, s);
      SplitRootAbove(sha, t);
      SplitRootAboveBoth(sha, s, t);
    }
  }

  lemma SplitRootAboveBoth(sha: Sha, s: seq<Hash>, t: seq<Hash>)
    requires s != [] && t != [] && |s + t| > 2 && |s| == Split(|s + t|)
    requires SplitRoot(sha, Above(sha, s)) == SplitRoot(sha, s)
    requires SplitRoot(sha, Above(sha, t)) == SplitRoot(sha, t)
    ensures SplitRoot(sha, Above(sha, s + t)) == SplitRoot(sha, s + t)
  {
    SplitRootOf(sha, s, t);
    AboveConcat(sha, s, t);
    SplitRootOf(sha, Above(sha, s), Above(sha, t));
  }

  /** The root the level loop computes is the root of the recursive tree. */
  lemma {:induction false} RootIsSplitRoot(sha: Sha, leaves: seq<Hash>)
    requires leaves != []
    ensures Root(sha, leaves) == SplitRoot(sha, leaves)
    decreases |leaves|
  {
    if |leaves| > 1 {
      RootIsSplitRoot(sha, Above(sha, leaves));
      SplitRootAbove(sha, leaves);
    }
  }

  // ----- the levels and the proofs in closed form -----

  function Level(sha: Sha, leaves: seq<Hash>, k: nat): seq<Hash> {
    if k == 0 then leaves else Above(sha, Level(sha, leaves, k - 1))
  }

  function CeilDiv(n: nat, d: nat): nat
    requires d > 0
  {
    (n + d - 1) / d
  }

  lemma DivDiv(n: nat, d: nat)
    requires d > 0
    ensures n / d / 2 == n / (2 * d)
  {
    var q, r := n / d, n % d;
    var q2, r2 := q / 2, q % 2;
    assert n == q * d + r;
    assert q * d == (2 * q2 + r2) * d == q2 * (2 * d) + r2 * d;
    assert n == q2 * (2 * d) + (r2 * d + r);
    assert 0 <= r2 * d + r < 2 * d;
    DivUnique(n, 2 * d, q2, r2 * d + r);
  }

  lemma DivUnique(n: nat, d: nat, q: nat, r: nat)
    requires n == q * d + r && r < d
    ensures n / d == q
  {
    var q' := n / d;
    assert q' < q ==> (q' + 1) * d <= q * d;
    assert q < q' ==> (q + 1) * d <= q' * d;
  }

  /** Level k has the number of leaves divided by 2^k, rounded up. */
  lemma {:induction false} LevelLength(sha: Sha, leaves: seq<Hash>, k: nat)
    requires leaves != []
    ensures |Level(sha, leaves, k)| == CeilDiv(|leaves|, Pow2(k))
  {
    var n := |leaves|;
    if k == 0 {
      assert (n + 1 - 1) / 1 == n;
    } else {
      LevelLength(sha, leaves, k - 1);
      var d := Pow2(k - 1);
      CeilDivStep(n, d);
    }
  }

  lemma CeilDivStep(n: nat, d: nat)
    requires n > 0 && d > 0
    ensures (CeilDiv(n, d) + 1) / 2 == CeilDiv(n, 2 * d)
  {
    // For n > 0, rounding up is one more than rounding down n - 1.
    CeilDivFloor(n, d);
    CeilDivFloor(n, 2 * d);
    DivDiv(n - 1, d);
  }

  lemma CeilDivFloor(n: nat, d: nat)
    requires n > 0 && d > 0
    ensures CeilDiv(n, d) == (n - 1) / d + 1
  {
    var q, r := (n - 1) / d, (n - 1) % d;
    assert n - 1 == q * d + r;
    assert n + d - 1 == (q + 1) * d + r;
    DivUnique(n + d - 1, d, q + 1, r);
  }

  /** The index of leaf i's ancestor at level k. */
  function Shifted(i: nat, k: nat): nat {
    if k == 0 then i else Shifted(i, k - 1) / 2
  }

  lemma {:induction false} ShiftedIsQuotient(i: nat, k: nat)
    ensures Shifted(i, k) == i / Pow2(k)
  {
    if k > 0 {
      ShiftedIsQuotient(i, k - 1);
      DivDiv(i, Pow2(k - 1));
    }
  }

  /** The proof of leaf i from level k on, in closed form: at each level the node
      whose index differs from the ancestor's in the lowest bit, where it exists. */
  function SiblingsFrom(sha: Sha, leaves: seq<Hash>, i: nat, k: nat): Proof
    requires leaves != []
    decreases Height(|leaves|) - k
  {
    if k >= Height(|leaves|) then []
    else SiblingAt(Level(sha, leaves, k), Shifted(i, k)) + SiblingsFrom(sha, leaves, i, k + 1)
  }

  lemma {:induction false} HeightOfLevel(sha: Sha, leaves: seq<Hash>, k: nat)
    requires leaves != [] && k <= Height(|leaves|)
    ensures Level(sha, leaves, k) != [] && Height(|Level(sha, leaves, k)|) == Height(|leaves|) - k
  {
    if k > 0 {
      HeightOfLevel(sha, leaves, k - 1);
      var below := Level(sha, leaves, k - 1);
      assert |below| > 1 && Height(|below|) == 1 + Height((|below| + 1) / 2);
    }
  }

  lemma {:induction false} IndexInLevel(sha: Sha, leaves: seq<Hash>, i: nat, k: nat)
    requires i < |leaves|
    ensures Shifted(i, k) < |Level(sha, leaves, k)|
  {
    if k > 0 {
      IndexInLevel(sha, leaves, i, k - 1);
    }
  }

  lemma {:induction false} PathFromLevel(sha: Sha, leaves: seq<Hash>, i: nat, k: nat)
    requires i < |leaves| && k <= Height(|leaves|) && Shifted(i, k) < |Level(sha, leaves, k)|
    ensures Path(sha, Level(sha, leaves, k), Shifted(i, k)) == SiblingsFrom(sha, leaves, i, k)
    decreases Height(|leaves|) - k
  {
    HeightOfLevel(sha, leaves, k);
    var level, at := Level(sha, leaves, k), Shifted(i, k);
    if k < Height(|leaves|) {
      IndexInLevel(sha, leaves, i, k + 1);
      PathFromLevel(sha, leaves, i, k + 1);
      PathStep(sha, level, at, SiblingsFrom(sha, leaves, i, k + 1));
    }
  }

  lemma PathStep(sha: Sha, level: seq<Hash>, at: nat, rest: Proof)
    requires at < |level| && |level| > 1 && rest == Path(sha, Above(sha, level), at / 2)
    ensures Path(sha, level, at) == SiblingAt(level, at) + rest
  {
  }

  /** Every proof is, level by level, the node beside the leaf's ancestor: for
      each k the node of level k at index i / 2^k with its lowest bit flipped,
      wherever that index is below the number of leaves over 2^k, rounded up. */
  lemma ProofClosedForm(sha: Sha, leaves: seq<Hash>, i: nat)
    requires i < |leaves|
    ensures Path(sha, leaves, i) == SiblingsFrom(sha, leaves, i, 0)
    ensures forall k: nat :: Shifted(i, k) == i / Pow2(k)
    ensures forall k: nat :: |Level(sha, leaves, k)| == CeilDiv(|leaves|, Pow2(k))
  {
    PathFromLevel(sha, leaves, i, 0);
    forall k: nat ensures Shifted(i, k) == i / Pow2(k) {
      ShiftedIsQuotient(i, k);
    }
    forall k: nat ensures |Level(sha, leaves, k)| == CeilDiv(|leaves|, Pow2(k)) {
      LevelLength(sha, leaves, k);
    }
  }

  // ----- lengths -----

  /** BuildTree's proofs: none is longer than the logarithm of the number of
      leaves, and the first leaf's is exactly that long. */
  lemma ProofLengths(sha: Sha, leaves: seq<Hash>, t: Tree)
    requires IsTreeOf(sha, leaves, t)
    ensures forall i | 0 <= i < |leaves| :: |t.proofs[i]| <= Height(|leaves|)
    ensures |t.proofs[0]| == Height(|leaves|)
    ensures |leaves| <= Pow2(Height(|leaves|)) && (|leaves| > 1 ==> Pow2(Height(|leaves|) - 1) < |leaves|)
  {
    HeightIsCeilLog2(|leaves|);
    forall i | 0 <= i < |leaves|
      ensures |t.proofs[i]| <= Height(|leaves|) && (i == 0 ==> |t.proofs[i]| == Height(|leaves|))
    {
      PathLength(sha, leaves, i);
      assert t.proofs[i] == Path(sha, leaves, i);
    }
  }
}
