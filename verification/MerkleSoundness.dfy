/** From records to proofs and back: a proof built for a record verifies, and a
    proof that verifies is for a record of the list, unless it lets us point at
    two different byte strings with the same SHA-256. */
module MerkleSoundness {
  import opened Wrappers
  import opened Bytes
  import opened ScVals
  import opened Leaf
  import opened MerkleTree
  import opened MerkleShape

  /** What a proof that verifies gives: the record it is for, or a collision. */
  datatype Finding = Member(index: nat) | Collision(a: Bytes, b: Bytes)

  /** The string a pair's hash is the hash of. */
  function PairBytes(a: Hash, b: Hash): (s: Bytes)
    ensures |s| == 64
  {
    if Compare(a, b) <= 0 then a + b else b + a
  }

  lemma PairBytesDetermine(a: Hash, b: Hash, c: Hash, d: Hash)
    requires PairBytes(a, b) == PairBytes(c, d)
    ensures (a == c && b == d) || (a == d && b == c)
  {
    var s, t := PairBytes(a, b), PairBytes(c, d);
    assert s[..32] == if Compare(a, b) <= 0 then a else b;
    assert s[32..] == if Compare(a, b) <= 0 then b else a;
    assert t[..32] == if Compare(c, d) <= 0 then c else d;
    assert t[32..] == if Compare(c, d) <= 0 then d else c;
  }

  /** The leaves of a list of encoded records. */
  function LeavesOf(sha: Sha, encodings: seq<Bytes>): (leaves: seq<Hash>)
    ensures |leaves| == |encodings|
  {
    seq(|encodings|, i requires 0 <= i < |encodings| => sha(sha(encodings[i])))
  }

  /** Walks down the recursive tree along the proof, from the root. Where the walk
      leaves the tree, stops inside it or ends at a different record, two strings
      that were hashed to the same value differ; they are the collision. */
  function Walk(sha: Sha, encodings: seq<Bytes>, e: Bytes, proof: Proof): Finding
    requires encodings != []
    decreases |encodings|
  {
    var leaves := LeavesOf(sha, encodings);
    var n := |proof| - 1;
    if |encodings| == 1 then
      if proof != [] then Collision(PairBytes(Folded(sha, sha(sha(e)), proof[..n]), proof[n]), sha(encodings[0]))
      else if encodings[0] == e then Member(0)
      else if sha(encodings[0]) == sha(e) then Collision(encodings[0], e)
      else Collision(sha(encodings[0]), sha(e))
    else
      var m := Split(|encodings|);
      var left, right := SplitRoot(sha, leaves[..m]), SplitRoot(sha, leaves[m..]);
      if proof == [] then Collision(PairBytes(left, right), sha(e))
      else
        var node := Folded(sha, sha(sha(e)), proof[..n]);
        if PairBytes(node, proof[n]) != PairBytes(left, right) then
          Collision(PairBytes(node, proof[n]), PairBytes(left, right))
        else if node == left then Walk(sha, encodings[..m], e, proof[..n])
        else
          match Walk(sha, encodings[m..], e, proof[..n])
          case Member(i) => Member(m + i)
          case Collision(a, b) => Collision(a, b)
  }

  ghost predicate Sound(sha: Sha, encodings: seq<Bytes>, e: Bytes, f: Finding) {
    match f
    case Member(i) => i < |encodings| && encodings[i] == e
    case Collision(a, b) => a != b && sha(a) == sha(b)
  }

  lemma {:induction false} WalkIsSound(sha: Sha, encodings: seq<Bytes>, e: Bytes, proof: Proof)
    requires encodings != []
    requires Folded(sha, sha(sha(e)), proof) == SplitRoot(sha, LeavesOf(sha, encodings))
    ensures Sound(sha, encodings, e, Walk(sha, encodings, e, proof))
    decreases |encodings|
  {
    var leaves := LeavesOf(sha, encodings);
    var n := |proof| - 1;
    if |encodings| > 1 && proof != [] {
      var m := Split(|encodings|);
      assert leaves[..m] == LeavesOf(sha, encodings[..m]);
      assert leaves[m..] == LeavesOf(sha, encodings[m..]);
      var left, right := SplitRoot(sha, leaves[..m]), SplitRoot(sha, leaves[m..]);
      var node := Folded(sha, sha(sha(e)), proof[..n]);
      if PairBytes(node, proof[n]) == PairBytes(left, right) {
        PairBytesDetermine(node, proof[n], left, right);
        if node == left {
          WalkIsSound(sha, encodings[..m], e, proof[..n]);
        } else {
          WalkIsSound(sha, encodings[m..], e, proof[..n]);
        }
      }
    }
  }

  /** The leaves BuildTree is given: one per record, each the record's leaf hash. */
  ghost predicate LeavesOfRecords(sha: Sha, strkey: Strkey, records: seq<Record>, leaves: seq<Hash>) {
    |leaves| == |records| && forall i | 0 <= i < |records| ::
      LeafHash(sha, strkey, records[i]) == Success(leaves[i])
  }

  function EncodingsOf(strkey: Strkey, records: seq<Record>): (es: seq<Bytes>)
    requires forall r | r in records :: EncodeRecord(strkey, r).Success?
    ensures |es| == |records|
  {
    seq(|records|, i requires 0 <= i < |records| =>
      assert records[i] in records; EncodeRecord(strkey, records[i]).value)
  }

  /** Membership soundness, end to end. If a proof of any length folds the leaf of
      a record to the root of the tree built over a list of records, then a record
      of the list agrees with it in every field (the consumer as its decoded key),
      or the walk exhibits two different byte strings with the same hash. */
  lemma MembershipSound(sha: Sha, strkey: Strkey, records: seq<Record>, leaves: seq<Hash>, tree: Tree,
                        r: Record, proof: Proof)
    requires LeavesOfRecords(sha, strkey, records, leaves) && IsTreeOf(sha, leaves, tree)
    requires forall s | s in records :: EncodeRecord(strkey, s).Success?
    requires LeafHash(sha, strkey, r).Success?
    requires Folded(sha, LeafHash(sha, strkey, r).value, proof) == tree.root
    ensures match Walk(sha, EncodingsOf(strkey, records), EncodeRecord(strkey, r).value, proof)
      case Member(i) => i < |records| && FieldsOf(strkey, records[i]) == FieldsOf(strkey, r)
      case Collision(a, b) => a != b && sha(a) == sha(b)
  {
    var encodings := EncodingsOf(strkey, records);
    var e := EncodeRecord(strkey, r).value;
    assert leaves == LeavesOf(sha, encodings);
    RootIsSplitRoot(sha, leaves);
    WalkIsSound(sha, encodings, e, proof);
    match Walk(sha, encodings, e, proof)
    case Member(i) =>
      assert EncodeRecord(strkey, records[i]).value == e;
      EncodeRecordInjective(strkey, records[i], r);
    case Collision(_, _) =>
  }

  /** Membership completeness, end to end: the proof BuildTree made for position i
      verifies for every record with the fields of records[i]. */
  lemma MembershipComplete(sha: Sha, strkey: Strkey, records: seq<Record>, leaves: seq<Hash>, tree: Tree,
                           r: Record, i: nat)
    requires LeavesOfRecords(sha, strkey, records, leaves) && IsTreeOf(sha, leaves, tree)
    requires i < |records| && EncodeRecord(strkey, r).Success? && EncodeRecord(strkey, records[i]).Success?
    requires FieldsOf(strkey, r) == FieldsOf(strkey, records[i])
    ensures LeafHash(sha, strkey, r).Success?
    ensures Folded(sha, LeafHash(sha, strkey, r).value, tree.proofs[i]) == tree.root
  {
    EncodeRecordInjective(strkey, r, records[i]);
    PathFoldsToRoot(sha, leaves, i);
  }
}
