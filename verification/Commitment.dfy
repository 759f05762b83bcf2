/** The bytes a channel's funder signs, and the arguments of settle and close. */
module Commitment {
  import opened Wrappers
  import opened Bytes
  import opened ScVals
  import opened Xdr
  import Leaf

  function CommitmentMap(amount: ScVal, channel: ScAddress, networkID: Hash): ScVal {
    Map([
      MapEntry("amount", amount),
      MapEntry("channel", Address(channel)),
      MapEntry("domain", Symbol(Ascii("chancmmt"))),
      MapEntry("network", BytesVal(networkID))
    ])
  }

  lemma CommitmentEncodable(amount: ScVal, channel: ScAddress, networkID: Hash)
    requires amount.I128?
    ensures Encodable(CommitmentMap(amount, channel, networkID))
  {
    forall e | e in CommitmentMap(amount, channel, networkID).entries
      ensures Encodable(e.key) && Encodable(e.val)
    {
    }
  }

  /** A commitment's map is in host order. */
  lemma CommitmentKeysAscend(amount: ScVal, channel: ScAddress, networkID: Hash)
    ensures Leaf.KeysAscend(CommitmentMap(amount, channel, networkID).entries)
  {
    assert Ascii("amount")[0] == 97 && Ascii("channel")[0] == 99 && Ascii("domain")[0] == 100;
    assert Ascii("network")[0] == 110;
  }

  /** The network id is the hash of the passphrase. */
  function BuildCommitment(sha: Sha, strkey: Strkey, contractID: string, passphrase: Bytes,
                           amount: Option<int>): Result<Bytes, ScError>
  {
    var amountVal :- ScvI128(amount);
    var channel :- ScAddressOf(strkey, contractID);
    CommitmentEncodable(amountVal, channel, sha(passphrase));
    Success(Marshal(CommitmentMap(amountVal, channel, sha(passphrase))))
  }

  /** A commitment's bytes fix its amount, its channel's address and its network
      id, and nothing else: equal bytes exactly when those three are equal. */
  lemma BuildCommitmentInjective(sha: Sha, strkey: Strkey, c1: string, p1: Bytes, a1: Option<int>,
                                 c2: string, p2: Bytes, a2: Option<int>)
    requires BuildCommitment(sha, strkey, c1, p1, a1).Success?
    requires BuildCommitment(sha, strkey, c2, p2, a2).Success?
    ensures BuildCommitment(sha, strkey, c1, p1, a1) == BuildCommitment(sha, strkey, c2, p2, a2) <==>
      && a1 == a2
      && ScAddressOf(strkey, c1) == ScAddressOf(strkey, c2)
      && sha(p1) == sha(p2)
  {
    var v1, v2 := ScvI128(a1).value, ScvI128(a2).value;
    var d1, d2 := ScAddressOf(strkey, c1).value, ScAddressOf(strkey, c2).value;
    var m1, m2 := CommitmentMap(v1, d1, sha(p1)), CommitmentMap(v2, d2, sha(p2));
    CommitmentEncodable(v1, d1, sha(p1));
    CommitmentEncodable(v2, d2, sha(p2));
    I128RoundTrip(a1.value);
    I128RoundTrip(a2.value);
    if Marshal(m1) == Marshal(m2) {
      MarshalInjective(m1, m2);
      assert m1.entries[0].val == m2.entries[0].val;
      assert m1.entries[1].val == m2.entries[1].val;
      assert m1.entries[3].val == m2.entries[3].val;
    }
  }

  /** No commitment has the bytes of a record: a signature over the one can never
      be taken for a statement about the other. */
  lemma CommitmentIsNoRecord(sha: Sha, strkey: Strkey, contractID: string, passphrase: Bytes,
                             amount: Option<int>, r: Leaf.Record)
    requires BuildCommitment(sha, strkey, contractID, passphrase, amount).Success?
    requires Leaf.EncodeRecord(strkey, r).Success?
    ensures BuildCommitment(sha, strkey, contractID, passphrase, amount) != Leaf.EncodeRecord(strkey, r)
  {
    var m := CommitmentMap(ScvI128(amount).value, ScAddressOf(strkey, contractID).value, sha(passphrase));
    var v := Leaf.RecordVal(strkey, r).value;
    CommitmentEncodable(m.entries[0].val, m.entries[1].val.address, sha(passphrase));
    Leaf.RecordValEncodable(strkey, r);
    assert |m.entries| == 4 && |v.entries| == 7;
    if Marshal(m) == Marshal(v) {
      MarshalInjective(m, v);
    }
  }

  /** Why a commitment is not built: its amount is looked at first, then its channel. */
  lemma CommitmentErrors(sha: Sha, strkey: Strkey, contractID: string, passphrase: Bytes, amount: Option<int>)
    ensures BuildCommitment(sha, strkey, contractID, passphrase, amount).Success? <==>
      amount.Some? && InI128Range(amount.value) && ScAddressOf(strkey, contractID).Success?
    ensures BuildCommitment(sha, strkey, contractID, passphrase, amount).Failure? ==>
      BuildCommitment(sha, strkey, contractID, passphrase, amount).error ==
        if amount.None? then NilValue
        else if !InI128Range(amount.value) then OutOfI128Range(amount.value)
        else ScAddressOf(strkey, contractID).error
  {
  }

  function SettleOrCloseArgs(amount: Option<int>, sig: Bytes): Result<seq<ScVal>, ScError> {
    var amountArg :- ScvI128(amount);
    Success([amountArg, BytesVal(sig)])
  }

  /** The two arguments carry the amount and the signature back unchanged, and
      exist exactly when the amount is an i128. */
  lemma SettleArgsCarryBoth(amount: int, sig: Bytes)
    ensures SettleOrCloseArgs(Some(amount), sig).Success? <==> InI128Range(amount)
    ensures InI128Range(amount) ==>
      var args := SettleOrCloseArgs(Some(amount), sig).value;
      |args| == 2 && DecodeI128(args[0]) == Success(amount) && args[1] == BytesVal(sig)
  {
    I128RoundTrip(amount);
  }
}
