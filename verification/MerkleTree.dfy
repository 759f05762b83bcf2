/** The sorted-pair Merkle tree: the level-by-level construction of the root and
    of every leaf's proof, and the index-free fold that checks a proof. */
module MerkleTree {
  import opened Wrappers
  import opened Bytes
  import opened Heights

  type Proof = seq<Hash>

  datatype Tree = Tree(root: Hash, proofs: seq<Proof>)

  datatype TreeError =
    | EmptyTree
    | DuplicateLeaf(prior: nat, index: nat)
    | ProofTooLong(index: nat, length: nat)

  function SortedPairHash(sha: Sha, a: Hash, b: Hash): Hash {
    if Compare(a, b) <= 0 then sha(a + b) else sha(b + a)
  }

  lemma PairHashSymmetric(sha: Sha, a: Hash, b: Hash)
    ensures SortedPairHash(sha, a, b) == SortedPairHash(sha, b, a)
  {
    CompareTotal(a, b);
  }

  /** The smaller hash comes first: where the hashes differ first, as unsigned bytes. */
  lemma SmallerComesFirst(sha: Sha, a: Hash, b: Hash, k: nat)
    requires k < 32 && a[..k] == b[..k] && a[k] < b[k]
    ensures SortedPairHash(sha, a, b) == sha(a + b) && SortedPairHash(sha, b, a) == sha(a + b)
  {
    CompareAtFirstDifference(a, b, k);
  }

  /** So which of the two strings is hashed is settled for every pair: any two hashes
      are equal or differ somewhere first. */
  lemma PairIsSorted(sha: Sha, a: Hash, b: Hash) returns (k: nat)
    ensures a == b ==> SortedPairHash(sha, a, b) == sha(a + a)
    ensures a != b ==>
      k < 32 && a[..k] == b[..k] && a[k] != b[k]
      && SortedPairHash(sha, a, b) == if a[k] < b[k] then sha(a + b) else sha(b + a)
  {
    k := 0;
    if a != b {
      k := FirstDifference(a, b);
      if a[k] < b[k] {
        SmallerComesFirst(sha, a, b, k);
      } else {
        SmallerComesFirst(sha, b, a, k);
      }
    }
  }

  // ----- specification: one level, and the path of one leaf through the levels -----

  /** The level above: pairs hashed together, an odd last node promoted unchanged. */
  function Above(sha: Sha, level: seq<Hash>): (next: seq<Hash>)
    ensures |next| == (|level| + 1) / 2
  {
    seq((|level| + 1) / 2, j requires 0 <= j < (|level| + 1) / 2 =>
      if 2 * j + 1 < |level| then SortedPairHash(sha, level[2 * j], level[2 * j + 1]) else level[2 * j])
  }

  function Root(sha: Sha, level: seq<Hash>): Hash
    requires level != []
    decreases |level|
  {
    if |level| == 1 then level[0] else Root(sha, Above(sha, level))
  }

  /** The index with its lowest bit flipped. */
  function Sibling(i: nat): nat {
    if i % 2 == 0 then i + 1 else i - 1
  }

  /** The sibling of position i, where there is one. */
  function SiblingAt(level: seq<Hash>, i: nat): Proof {
    if Sibling(i) < |level| then [level[Sibling(i)]] else []
  }

  /** The siblings met on the way from position i of a level up to the root. */
  function Path(sha: Sha, level: seq<Hash>, i: nat): Proof
    requires i < |level|
    decreases |level|
  {
    if |level| == 1 then [] else SiblingAt(level, i) + Path(sha, Above(sha, level), i / 2)
  }

  predicate Distinct<T(==)>(s: seq<T>) {
    forall i, j | 0 <= i < j < |s| :: s[i] != s[j]
  }

  lemma {:induction false} PathLength(sha: Sha, level: seq<Hash>, i: nat)
    requires i < |level|
    ensures |Path(sha, level, i)| <= Height(|level|)
    ensures i == 0 ==> |Path(sha, level, i)| == Height(|level|)
    decreases |level|
  {
    if |level| > 1 {
      PathLength(sha, Above(sha, level), i / 2);
    }
  }

  // ----- construction -----

  /** The proofs of a group's leaves are one sibling longer, the others unchanged. */
  ghost predicate Extended(before: seq<Proof>, now: seq<Proof>, group: seq<nat>, sibling: Hash) {
    |before| == |now| && forall x | 0 <= x < |now| ::
      now[x] == (if x in group then before[x] + [sibling] else before[x])
  }

  /** Appends one sibling to the proof of every leaf of a group. */
  method AppendToAll(proofs: array<Proof>, group: seq<nat>, sibling: Hash)
    requires Distinct(group) && forall x | x in group :: x < proofs.Length
    modifies proofs
    ensures Extended(old(proofs[..]), proofs[..], group, sibling)
  {
    for k := 0 to |group|
      invariant Extended(old(proofs[..]), proofs[..], group[..k], sibling)
    {
      var idx := group[k];
      assert idx in group && idx !in group[..k];
      proofs[idx] := proofs[idx] + [sibling];
      assert group[..k + 1] == group[..k] + [idx];
    }
    assert group[..|group|] == group;
  }

  /** The groups of the level above: neighbours joined, an odd last one kept. */
  function Paired(groups: seq<seq<nat>>): (next: seq<seq<nat>>)
    ensures |next| == (|groups| + 1) / 2
  {
    seq((|groups| + 1) / 2, j requires 0 <= j < (|groups| + 1) / 2 =>
      if 2 * j + 1 < |groups| then groups[2 * j] + groups[2 * j + 1] else groups[2 * j])
  }

  function Halved(at: seq<nat>): (next: seq<nat>)
    ensures |next| == |at| && forall x | 0 <= x < |at| :: next[x] == at[x] / 2
  {
    seq(|at|, x requires 0 <= x < |at| => at[x] / 2)
  }

  lemma PairedGrouped(groups: seq<seq<nat>>, at: seq<nat>)
    requires Grouped(groups, at)
    ensures Grouped(Paired(groups), Halved(at))
  {
    forall j | 0 <= j < |Paired(groups)| ensures Distinct(Paired(groups)[j]) {
      if 2 * j + 1 < |groups| {
        DisjointConcat(groups[2 * j], groups[2 * j + 1]);
      }
    }
    forall x | 0 <= x < |at| ensures at[x] / 2 < |Paired(groups)| && x in Paired(groups)[at[x] / 2] {
      assert x in groups[at[x]];
    }
  }

  lemma DisjointConcat(g: seq<nat>, h: seq<nat>)
    requires Distinct(g) && Distinct(h) && forall x | x in g :: x !in h
    ensures Distinct(g + h)
  {
    forall i, j | 0 <= i < j < |g + h| ensures (g + h)[i] != (g + h)[j] {
      if i < |g| <= j {
        assert g[i] in g && h[j - |g|] in h;
      }
    }
  }

  /** Every proof so far, followed by what its leaf will still meet from its place
      at this level, is the leaf's whole path. */
  ghost predicate PathsSoFar(sha: Sha, leaves: seq<Hash>, proofs: seq<Proof>, level: seq<Hash>, at: seq<nat>) {
    |at| == |leaves| == |proofs| && forall x | 0 <= x < |leaves| ::
      at[x] < |level| && proofs[x] + Path(sha, level, at[x]) == Path(sha, leaves, x)
  }

  lemma PathsOneLevelUp(sha: Sha, leaves: seq<Hash>, before: seq<Proof>, now: seq<Proof>,
                          level: seq<Hash>, at: seq<nat>)
    requires |level| > 1 && PathsSoFar(sha, leaves, before, level, at)
    requires HandedOut(before, now, level, at, |level|)
    ensures PathsSoFar(sha, leaves, now, Above(sha, level), Halved(at))
  {
    forall x | 0 <= x < |leaves|
      ensures Halved(at)[x] < |Above(sha, level)|
      ensures now[x] + Path(sha, Above(sha, level), Halved(at)[x]) == Path(sha, leaves, x)
    {
      PathOneLevelUp(sha, level, at[x], before[x], Path(sha, leaves, x));
    }
  }

  lemma PathOneLevelUp(sha: Sha, level: seq<Hash>, i: nat, soFar: Proof, whole: Proof)
    requires i < |level| && |level| > 1 && soFar + Path(sha, level, i) == whole
    ensures (soFar + SiblingAt(level, i)) + Path(sha, Above(sha, level), i / 2) == whole
  {
    var s, rest := SiblingAt(level, i), Path(sha, Above(sha, level), i / 2);
    assert (soFar + s) + rest == soFar + (s + rest);
  }

  /** groups[j] lists, once each, the leaves whose ancestor at this level is j. */
  ghost predicate Grouped(groups: seq<seq<nat>>, at: seq<nat>) {
    && (forall j | 0 <= j < |groups| :: Distinct(groups[j]))
    && (forall j | 0 <= j < |groups| :: forall x | x in groups[j] :: x < |at| && at[x] == j)
    && (forall x | 0 <= x < |at| :: at[x] < |groups| && x in groups[at[x]])
  }

  /** BuildTree's first loop: the map of leaves seen finds the first repeated leaf. */
  method FindDuplicate(leaves: seq<Hash>) returns (r: Option<TreeError>)
    ensures r.None? <==> Distinct(leaves)
    ensures r.Some? ==> r.value.DuplicateLeaf? && IsFirstDuplicate(leaves, r.value.prior, r.value.index)
  {
    var seen: map<Hash, nat> := map[];
    for i := 0 to |leaves|
      invariant Distinct(leaves[..i])
      invariant forall h | h in seen :: seen[h] < i && leaves[seen[h]] == h
      invariant forall k | 0 <= k < i :: leaves[k] in seen
    {
      if leaves[i] in seen {
        return Some(DuplicateLeaf(seen[leaves[i]], i));
      }
      seen := seen[leaves[i] := i];
    }
    assert leaves[..|leaves|] == leaves;
    r := None;
  }

  /** Positions prior and index hold the same leaf, and nothing repeats before index. */
  predicate IsFirstDuplicate(leaves: seq<Hash>, prior: nat, index: nat) {
    prior < index < |leaves| && leaves[prior] == leaves[index] && Distinct(leaves[..index])
  }

  /** BuildTree's outer loop: levels are replaced by the level above until one node is left. */
  method FoldLevels(sha: Sha, leaves: seq<Hash>, proofs: array<Proof>) returns (root: Hash)
    requires leaves != [] && proofs.Length == |leaves|
    requires forall x | 0 <= x < |leaves| :: proofs[x] == []
    modifies proofs
    ensures root == Root(sha, leaves)
    ensures forall x | 0 <= x < |leaves| :: proofs[x] == Path(sha, leaves, x)
  {
    var level := leaves;
    var groups: seq<seq<nat>> := seq(|leaves|, i => [i]);
    ghost var at: seq<nat> := seq(|leaves|, i => i);
    assert PathsSoFar(sha, leaves, proofs[..], level, at);
    while |level| > 1
      invariant 0 < |level| == |groups| && Grouped(groups, at)
      invariant Root(sha, level) == Root(sha, leaves)
      invariant PathsSoFar(sha, leaves, proofs[..], level, at)
      decreases |level|
    {
      PairedGrouped(groups, at);
      ghost var before, below := proofs[..], level;
      level, groups := BuildLevel(sha, level, groups, proofs, at);
      PathsOneLevelUp(sha, leaves, before, proofs[..], below, at);
      at := Halved(at);
    }
    root := level[0];
  }

  /** The tree of a list of leaves: its root, and each leaf's whole path as its proof. */
  ghost predicate IsTreeOf(sha: Sha, leaves: seq<Hash>, t: Tree) {
    && leaves != [] && t.root == Root(sha, leaves) && |t.proofs| == |leaves|
    && forall i | 0 <= i < |leaves| :: t.proofs[i] == Path(sha, leaves, i)
  }

  /** What a refused list of leaves has wrong with it. */
  predicate IsCause(leaves: seq<Hash>, e: TreeError) {
    match e
    case EmptyTree => leaves == []
    case DuplicateLeaf(prior, index) => IsFirstDuplicate(leaves, prior, index)
    case ProofTooLong(index, length) =>
      Distinct(leaves) && |leaves| > TWO_32 && index == 0 && length == Height(|leaves|)
  }

  /** BuildTree succeeds exactly on a non-empty list of distinct leaves, at most
      2^32 of them; it builds the tree of the specification. Each failure names
      its cause: the first repeated leaf, or the first leaf's proof. */
  method BuildTree(sha: Sha, leaves: seq<Hash>) returns (r: Result<Tree, TreeError>)
    ensures r.Success? <==> leaves != [] && Distinct(leaves) && |leaves| <= TWO_32
    ensures r.Success? ==> IsTreeOf(sha, leaves, r.value)
    ensures r.Failure? ==> IsCause(leaves, r.error)
  {
    if |leaves| == 0 {
      return Failure(EmptyTree);
    }
    var duplicate := FindDuplicate(leaves);
    if duplicate.Some? {
      return Failure(duplicate.value);
    }

    var proofs := new Proof[|leaves|](_ => []);
    var root := FoldLevels(sha, leaves, proofs);
    CapIsLeafBound(|leaves|);
    for i := 0 to |leaves|
      invariant forall x | 0 <= x < |leaves| :: proofs[x] == Path(sha, leaves, x)
      invariant i > 0 ==> Height(|leaves|) <= MAX_PROOF_LENGTH
    {
      PathLength(sha, leaves, i);
      if |proofs[i]| > MAX_PROOF_LENGTH {
        return Failure(ProofTooLong(i, |proofs[i]|));
      }
    }
    r := Success(Tree(root, proofs[..]));
  }

  /** Where the proofs stand while a level is being built: the siblings of the
      nodes before position i have been handed to the leaves below them. */
  ghost predicate HandedOut(before: seq<Proof>, now: seq<Proof>, level: seq<Hash>, at: seq<nat>, i: nat) {
    |before| == |now| == |at| && forall x | 0 <= x < |at| ::
      now[x] == (if at[x] < i then before[x] + SiblingAt(level, at[x]) else before[x])
  }

  /** The two inner loops of BuildTree: each node of a pair goes to the proofs of
      the leaves below the other. */
  method HandOutPair(level: seq<Hash>, groups: seq<seq<nat>>, proofs: array<Proof>, i: nat,
                     ghost before: seq<Proof>, ghost at: seq<nat>)
    requires i % 2 == 0 && i + 1 < |level| == |groups| && Grouped(groups, at)
    requires HandedOut(before, proofs[..], level, at, i)
    modifies proofs
    ensures HandedOut(before, proofs[..], level, at, i + 2)
  {
    ghost var p0 := proofs[..];
    AppendToAll(proofs, groups[i], level[i + 1]);
    ghost var p1 := proofs[..];
    AppendToAll(proofs, groups[i + 1], level[i]);
    PairHandedOut(before, p0, p1, proofs[..], level, groups, at, i);
  }

  lemma PairHandedOut(before: seq<Proof>, p0: seq<Proof>, p1: seq<Proof>, p2: seq<Proof>, level: seq<Hash>,
                      groups: seq<seq<nat>>, at: seq<nat>, i: nat)
    requires i % 2 == 0 && i + 1 < |level| == |groups| && Grouped(groups, at)
    requires HandedOut(before, p0, level, at, i)
    requires Extended(p0, p1, groups[i], level[i + 1]) && Extended(p1, p2, groups[i + 1], level[i])
    ensures HandedOut(before, p2, level, at, i + 2)
  {
    forall x | 0 <= x < |at|
      ensures p2[x] == (if at[x] < i + 2 then before[x] + SiblingAt(level, at[x]) else before[x])
    {
      assert x in groups[at[x]];
      assert x in groups[i] <==> at[x] == i;
      assert x in groups[i + 1] <==> at[x] == i + 1;
      assert p0[x] == (if at[x] < i then before[x] + SiblingAt(level, at[x]) else before[x]);
    }
  }

  lemma AboveNext(sha: Sha, level: seq<Hash>, i: nat)
    requires i % 2 == 0 && i < |level|
    ensures Above(sha, level)[..(i + 2) / 2] == Above(sha, level)[..(i + 1) / 2] +
      [if i + 1 < |level| then SortedPairHash(sha, level[i], level[i + 1]) else level[i]]
  {
    assert 2 * (i / 2) == i && (i + 1) / 2 == i / 2 && (i + 2) / 2 == i / 2 + 1;
  }

  lemma PairedNext(groups: seq<seq<nat>>, i: nat)
    requires i % 2 == 0 && i < |groups|
    ensures Paired(groups)[..(i + 2) / 2] == Paired(groups)[..(i + 1) / 2] +
      [if i + 1 < |groups| then groups[i] + groups[i + 1] else groups[i]]
  {
    assert 2 * (i / 2) == i && (i + 1) / 2 == i / 2 && (i + 2) / 2 == i / 2 + 1;
  }

  /** The body of BuildTree's outer loop: one pass over a level, which appends
      the siblings to the proofs of the leaves below each pair. */
  method BuildLevel(sha: Sha, level: seq<Hash>, groups: seq<seq<nat>>, proofs: array<Proof>,
                    ghost at: seq<nat>)
    returns (nextLevel: seq<Hash>, nextGroups: seq<seq<nat>>)
    requires |level| > 1 && |level| == |groups| && |at| == proofs.Length
    requires Grouped(groups, at)
    modifies proofs
    ensures nextLevel == Above(sha, level) && nextGroups == Paired(groups)
    ensures HandedOut(old(proofs[..]), proofs[..], level, at, |level|)
  {
    nextLevel := [];
    nextGroups := [];
    var i := 0;
    while i < |level|
      invariant i <= |level| && (i % 2 == 0 || i == |level|)
      invariant nextLevel == Above(sha, level)[..(i + 1) / 2]
      invariant nextGroups == Paired(groups)[..(i + 1) / 2]
      invariant HandedOut(old(proofs[..]), proofs[..], level, at, i)
      decreases |level| - i
    {
      AboveNext(sha, level, i);
      PairedNext(groups, i);
      if i + 1 < |level| {
        HandOutPair(level, groups, proofs, i, old(proofs[..]), at);
        nextLevel := nextLevel + [SortedPairHash(sha, level[i], level[i + 1])];
        nextGroups := nextGroups + [groups[i] + groups[i + 1]];
        i := i + 2;
      } else {
        nextLevel := nextLevel + [level[i]];
        nextGroups := nextGroups + [groups[i]];
        i := i + 1;
      }
    }
  }

  // ----- verification of a proof -----

  function Folded(sha: Sha, leaf: Hash, proof: Proof): Hash {
    if proof == [] then leaf
    else SortedPairHash(sha, Folded(sha, leaf, proof[..|proof| - 1]), proof[|proof| - 1])
  }

  method Fold(sha: Sha, leaf: Hash, proof: Proof) returns (node: Hash)
    ensures node == Folded(sha, leaf, proof)
  {
    node := leaf;
    for i := 0 to |proof|
      invariant node == Folded(sha, leaf, proof[..i])
    {
      node := SortedPairHash(sha, node, proof[i]);
      assert proof[..i + 1][..i] == proof[..i];
    }
    assert proof[..|proof|] == proof;
  }

  method VerifyProof(sha: Sha, root: Hash, leaf: Hash, proof: Proof) returns (ok: bool)
    ensures ok <==> Folded(sha, leaf, proof) == root
  {
    var node := Fold(sha, leaf, proof);
    ok := node == root;
  }

  /** Folding can also be read from the leaf end: one sibling, then the rest. */
  lemma {:induction false} FoldFromLeaf(sha: Sha, leaf: Hash, sibling: Hash, rest: Proof)
    ensures Folded(sha, leaf, [sibling] + rest) == Folded(sha, SortedPairHash(sha, leaf, sibling), rest)
  {
    if rest == [] {
      assert [sibling] + rest == [sibling];
      assert Folded(sha, leaf, [sibling][..0]) == leaf;
    } else {
      var n := |rest| - 1;
      FoldFromLeaf(sha, leaf, sibling, rest[..n]);
      assert ([sibling] + rest)[..n + 1] == [sibling] + rest[..n];
    }
  }

  /** A node's parent is the hash of the node and its sibling, in either order,
      or the node itself where there is no sibling. */
  lemma Parent(sha: Sha, level: seq<Hash>, i: nat)
    requires i < |level|
    ensures Above(sha, level)[i / 2] ==
      if Sibling(i) < |level| then SortedPairHash(sha, level[i], level[Sibling(i)]) else level[i]
  {
    if i % 2 == 0 {
      assert i == 2 * (i / 2);
    } else {
      assert i == 2 * (i / 2) + 1;
      PairHashSymmetric(sha, level[i - 1], level[i]);
    }
  }

  /** Completeness: the path of every position folds to the root. */
  lemma {:induction false} PathFoldsToRoot(sha: Sha, level: seq<Hash>, i: nat)
    requires i < |level|
    ensures Folded(sha, level[i], Path(sha, level, i)) == Root(sha, level)
    decreases |level|
  {
    if |level| > 1 {
      var above := Above(sha, level);
      PathFoldsToRoot(sha, above, i / 2);
      Parent(sha, level, i);
      FoldOneLevel(sha, level, i, Path(sha, above, i / 2));
    }
  }

  lemma FoldOneLevel(sha: Sha, level: seq<Hash>, i: nat, rest: Proof)
    requires i < |level|
    ensures Folded(sha, level[i], SiblingAt(level, i) + rest) == Folded(sha, Above(sha, level)[i / 2], rest)
  {
    Parent(sha, level, i);
    if Sibling(i) < |level| {
      FoldFromLeaf(sha, level[i], level[Sibling(i)], rest);
    } else {
      assert [] + rest == rest;
    }
  }
}
