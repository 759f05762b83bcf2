/** The wire form of a commitment written down byte for byte, as the one-way-channel
    contract documents it. */
module CommitmentLayout {
  import opened Wrappers
  import opened Bytes
  import opened ScVals
  import opened Xdr
  import opened Commitment
  import opened RecordLayout

  const MAP_OF_FOUR: Bytes := [0, 0, 0, 17, 0, 0, 0, 1, 0, 0, 0, 4]
  const CHANNEL: Bytes :=
    [0, 0, 0, 15, 0, 0, 0, 7, 0x63, 0x68, 0x61, 0x6e, 0x6e, 0x65, 0x6c, 0, 0, 0, 0, 18]
  const DOMAIN: Bytes :=
    [0, 0, 0, 15, 0, 0, 0, 6, 0x64, 0x6f, 0x6d, 0x61, 0x69, 0x6e, 0, 0, 0, 0, 0, 15]
  const CHANCMMT: Bytes := [0, 0, 0, 8, 0x63, 0x68, 0x61, 0x6e, 0x63, 0x6d, 0x6d, 0x74]
  const NETWORK: Bytes :=
    [0, 0, 0, 15, 0, 0, 0, 7, 0x6e, 0x65, 0x74, 0x77, 0x6f, 0x72, 0x6b, 0, 0, 0, 0, 13]

  /** An address: an account with its key, or a contract with its id. */
  function AddressBytes(a: ScAddress): Bytes {
    match a
    case Account(key) => ACCOUNT + key
    case Contract(id) => [0, 0, 0, 1] + id
  }

  function ReferenceParts(amount: int, channel: ScAddress, networkID: Hash): (parts: seq<Bytes>)
    requires InI128Range(amount)
    ensures |parts| == 4
  {
    [AMOUNT + BE128(amount), CHANNEL + AddressBytes(channel), DOMAIN + CHANCMMT, NETWORK + (LENGTH_32 + networkID)]
  }

  lemma ChannelEntry(e: ScMapEntry, a: ScAddress)
    requires e == MapEntry("channel", Address(a))
    ensures HasPart(e, CHANNEL + AddressBytes(a))
  {
    ChannelHead();
    EntryOf("channel", e.val, CHANNEL);
    AddressBody(a);
  }

  lemma ChannelHead()
    ensures CHANNEL == BE32(15) + (BE32(7) + (Ascii("channel") + Zeros(1))) + BE32(18)
  {
  }

  lemma AddressBody(a: ScAddress)
    ensures Body(Address(a)) == AddressBytes(a)
  {
    match a
    case Account(key) => AccountBody(key);
    case Contract(id) => assert BE32(SC_ADDRESS_CONTRACT) == [0, 0, 0, 1];
  }

  lemma DomainEntry(e: ScMapEntry)
    requires e == MapEntry("domain", Symbol(Ascii("chancmmt")))
    ensures HasPart(e, DOMAIN + CHANCMMT)
  {
    DomainHead();
    EntryOf("domain", e.val, DOMAIN);
    DomainBody();
  }

  lemma DomainHead()
    ensures DOMAIN == BE32(15) + (BE32(6) + (Ascii("domain") + Zeros(2))) + BE32(15)
  {
  }

  lemma DomainBody()
    ensures Opaque(Ascii("chancmmt")) == CHANCMMT
  {
    assert Padding(8) == 0;
  }

  lemma NetworkEntry(e: ScMapEntry, h: Hash)
    requires e == MapEntry("network", BytesVal(h))
    ensures HasPart(e, NETWORK + (LENGTH_32 + h))
  {
    NetworkHead();
    EntryOf("network", e.val, NETWORK);
    HashBody(h);
  }

  lemma NetworkHead()
    ensures NETWORK == BE32(15) + (BE32(7) + (Ascii("network") + Zeros(1))) + BE32(13)
  {
  }

  lemma CommitmentHasParts(es: seq<ScMapEntry>, amount: int, channel: ScAddress, networkID: Hash)
    requires InI128Range(amount)
    requires es == CommitmentMap(ScvI128(Some(amount)).value, channel, networkID).entries
    ensures HasParts(es, ReferenceParts(amount, channel, networkID))
  {
    AmountEntry(es[0], amount);
    ChannelEntry(es[1], channel);
    DomainEntry(es[2]);
    NetworkEntry(es[3], networkID);
    FourParts(es, AMOUNT + BE128(amount), CHANNEL + AddressBytes(channel), DOMAIN + CHANCMMT,
      NETWORK + (LENGTH_32 + networkID));
  }

  lemma FourParts(es: seq<ScMapEntry>, p0: Bytes, p1: Bytes, p2: Bytes, p3: Bytes)
    requires |es| == 4 && HasPart(es[0], p0) && HasPart(es[1], p1) && HasPart(es[2], p2) && HasPart(es[3], p3)
    ensures HasParts(es, [p0, p1, p2, p3])
  {
  }

  lemma FourWithHeader(es: seq<ScMapEntry>, parts: seq<Bytes>)
    requires |es| == 4 && Encodable(Map(es)) && HasParts(es, parts)
    ensures Marshal(Map(es)) == MAP_OF_FOUR + Flatten(parts)
  {
    EntriesAreParts(es, parts);
    CountedMap(es);
    FourHeader(Flatten(parts));
  }

  lemma FourHeader(rest: Bytes)
    ensures BE32(17) + (BE32(1) + (BE32(4) + rest)) == MAP_OF_FOUR + rest
  {
  }

  /** Every commitment that is built has exactly the reference bytes of its amount, its
      channel and its network id. */
  lemma CommitmentIsReference(sha: Sha, strkey: Strkey, contractID: string, passphrase: Bytes, amount: int)
    requires BuildCommitment(sha, strkey, contractID, passphrase, Some(amount)).Success?
    ensures InI128Range(amount) && ScAddressOf(strkey, contractID).Success?
    ensures BuildCommitment(sha, strkey, contractID, passphrase, Some(amount)).value ==
      MAP_OF_FOUR + Flatten(ReferenceParts(amount, ScAddressOf(strkey, contractID).value, sha(passphrase)))
  {
    var amountVal, channel := ScvI128(Some(amount)).value, ScAddressOf(strkey, contractID).value;
    CommitmentEncodable(amountVal, channel, sha(passphrase));
    var es := CommitmentMap(amountVal, channel, sha(passphrase)).entries;
    CommitmentHasParts(es, amount, channel, sha(passphrase));
    FourWithHeader(es, ReferenceParts(amount, channel, sha(passphrase)));
  }
}
