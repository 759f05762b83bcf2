/** The wire form of a record written down byte for byte, as the statement_registry
    contract reads it: a reference for the encoder to be compared with. */
module RecordLayout {
  import opened Bytes
  import opened ScVals
  import opened Xdr
  import opened Leaf

  // Each constant is a symbol entry's discriminant 15, the key's length, the key padded
  // to a multiple of four, and the discriminant of the value that follows. ACCOUNT is the
  // discriminants of an account address and its ed25519 key; LENGTH_32 counts a hash's bytes.
  const MAP_OF_SEVEN: Bytes := [0, 0, 0, 17, 0, 0, 0, 1, 0, 0, 0, 7]
  const AMOUNT: Bytes :=
    [0, 0, 0, 15, 0, 0, 0, 6, 0x61, 0x6d, 0x6f, 0x75, 0x6e, 0x74, 0, 0, 0, 0, 0, 10]
  const CONSUMER: Bytes :=
    [0, 0, 0, 15, 0, 0, 0, 8, 0x63, 0x6f, 0x6e, 0x73, 0x75, 0x6d, 0x65, 0x72, 0, 0, 0, 18]
  const ACCOUNT: Bytes := [0, 0, 0, 0, 0, 0, 0, 0]
  const ENDPOINT: Bytes :=
    [0, 0, 0, 15, 0, 0, 0, 8, 0x65, 0x6e, 0x64, 0x70, 0x6f, 0x69, 0x6e, 0x74, 0, 0, 0, 13]
  const LENGTH_32: Bytes := [0, 0, 0, 32]
  const LEDGER: Bytes :=
    [0, 0, 0, 15, 0, 0, 0, 6, 0x6c, 0x65, 0x64, 0x67, 0x65, 0x72, 0, 0, 0, 0, 0, 3]
  const PRICE_V: Bytes :=
    [0, 0, 0, 15, 0, 0, 0, 7, 0x70, 0x72, 0x69, 0x63, 0x65, 0x5f, 0x76, 0, 0, 0, 0, 3]
  const REQID: Bytes :=
    [0, 0, 0, 15, 0, 0, 0, 5, 0x72, 0x65, 0x71, 0x69, 0x64, 0, 0, 0, 0, 0, 0, 13]
  const UNITS: Bytes :=
    [0, 0, 0, 15, 0, 0, 0, 5, 0x75, 0x6e, 0x69, 0x74, 0x73, 0, 0, 0, 0, 0, 0, 5]

  /** An i128 as sixteen big-endian two's-complement bytes. */
  function BE128(v: int): Bytes
    requires InI128Range(v)
  {
    FillBytes16(if v < 0 then v + TWO_128 else v)
  }

  /** The seven entries of a record's map. */
  function ReferenceParts(f: Fields): (parts: seq<Bytes>)
    requires InI128Range(f.amount)
    ensures |parts| == 7
  {
    [AMOUNT + BE128(f.amount),
     CONSUMER + (ACCOUNT + f.consumerKey),
     ENDPOINT + (LENGTH_32 + f.endpointHash),
     LEDGER + BE32(f.ledger),
     PRICE_V + BE32(f.priceVersion),
     REQID + (LENGTH_32 + f.requestID),
     UNITS + BE64(f.units)]
  }

  function Flatten(parts: seq<Bytes>): Bytes {
    if parts == [] then [] else parts[0] + Flatten(parts[1..])
  }

  function ReferenceBytes(f: Fields): Bytes
    requires InI128Range(f.amount)
  {
    MAP_OF_SEVEN + Flatten(ReferenceParts(f))
  }

  /** The sixteen bytes of v, or of v + 2^128 when v is negative, the high half first. */
  lemma BE128Halves(v: int)
    requires InI128Range(v)
    ensures 0 <= v ==> BE128(v) == BE64(v / TWO_64) + BE64(v % TWO_64)
    ensures v < 0 ==> BE128(v) == BE64((v + TWO_128) / TWO_64) + BE64((v + TWO_128) % TWO_64)
  {
  }

  lemma I128Bytes(v: int)
    requires InI128Range(v)
    ensures BE64(AsUint64(SplitI128(v).0)) + BE64(SplitI128(v).1) == BE128(v)
  {
    var unsigned := if v < 0 then v + TWO_128 else v;
    HalvesOfUnsigned(v, unsigned);
    assert AsUint64(SplitI128(v).0) == unsigned / TWO_64;
  }

  /** The bytes of one entry: a symbol, then the value's discriminant and body. */
  function EntryBytes(e: ScMapEntry): Bytes
    requires e.key.Symbol? && Encodable(e.key) && Encodable(e.val)
  {
    BE32(SCV_SYMBOL) + Opaque(e.key.sym) + (BE32(Tag(e.val)) + Body(e.val))
  }

  /** An entry is its symbol part, ending in the value's discriminant, then its body. */
  lemma EntryOf(key: string, val: ScVal, head: Bytes)
    requires |key| <= MAX_SYMBOL && Encodable(val)
    requires head == BE32(15) + (BE32(|key|) + (Ascii(key) + Zeros(Padding(|key|)))) + BE32(Tag(val))
    ensures EntryBytes(MapEntry(key, val)) == head + Body(val)
  {
    assert Opaque(Ascii(key)) == BE32(|key|) + (Ascii(key) + Zeros(Padding(|key|)));
  }

  // Each constant is what it is said to be.

  lemma AmountHead()
    ensures AMOUNT == BE32(15) + (BE32(6) + (Ascii("amount") + Zeros(2))) + BE32(10)
  {
  }

  lemma ConsumerHead()
    ensures CONSUMER == BE32(15) + (BE32(8) + (Ascii("consumer") + Zeros(0))) + BE32(18)
  {
  }

  lemma EndpointHead()
    ensures ENDPOINT == BE32(15) + (BE32(8) + (Ascii("endpoint") + Zeros(0))) + BE32(13)
  {
  }

  lemma LedgerHead()
    ensures LEDGER == BE32(15) + (BE32(6) + (Ascii("ledger") + Zeros(2))) + BE32(3)
  {
  }

  lemma PriceVersionHead()
    ensures PRICE_V == BE32(15) + (BE32(7) + (Ascii("price_v") + Zeros(1))) + BE32(3)
  {
  }

  lemma ReqidHead()
    ensures REQID == BE32(15) + (BE32(5) + (Ascii("reqid") + Zeros(3))) + BE32(13)
  {
  }

  lemma UnitsHead()
    ensures UNITS == BE32(15) + (BE32(5) + (Ascii("units") + Zeros(3))) + BE32(5)
  {
  }

  lemma AmountEntry(e: ScMapEntry, v: int)
    requires InI128Range(v) && e == MapEntry("amount", I128(SplitI128(v).0, SplitI128(v).1))
    ensures HasPart(e, AMOUNT + BE128(v))
  {
    AmountHead();
    EntryOf("amount", e.val, AMOUNT);
    I128Bytes(v);
  }

  lemma ConsumerEntry(e: ScMapEntry, key: Hash)
    requires e == MapEntry("consumer", Address(Account(key)))
    ensures HasPart(e, CONSUMER + (ACCOUNT + key))
  {
    ConsumerHead();
    EntryOf("consumer", e.val, CONSUMER);
    AccountBody(key);
  }

  lemma AccountBody(key: Hash)
    ensures Body(Address(Account(key))) == ACCOUNT + key
  {
    assert BE32(SC_ADDRESS_ACCOUNT) + (BE32(PUBLIC_KEY_ED25519) + key) == ACCOUNT + key;
  }

  lemma HashBody(h: Hash)
    ensures Body(BytesVal(h)) == LENGTH_32 + h
  {
    assert BE32(32) == LENGTH_32;
    assert Padding(32) == 0;
    assert h + Zeros(0) == h;
  }

  lemma EndpointEntry(e: ScMapEntry, h: Hash)
    requires e == MapEntry("endpoint", BytesVal(h))
    ensures HasPart(e, ENDPOINT + (LENGTH_32 + h))
  {
    EndpointHead();
    EntryOf("endpoint", e.val, ENDPOINT);
    HashBody(h);
  }

  lemma ReqidEntry(e: ScMapEntry, h: Hash)
    requires e == MapEntry("reqid", BytesVal(h))
    ensures HasPart(e, REQID + (LENGTH_32 + h))
  {
    ReqidHead();
    EntryOf("reqid", e.val, REQID);
    HashBody(h);
  }

  lemma LedgerEntry(e: ScMapEntry, n: uint32)
    requires e == MapEntry("ledger", U32(n))
    ensures HasPart(e, LEDGER + BE32(n))
  {
    LedgerHead();
    EntryOf("ledger", e.val, LEDGER);
  }

  lemma PriceVersionEntry(e: ScMapEntry, n: uint32)
    requires e == MapEntry("price_v", U32(n))
    ensures HasPart(e, PRICE_V + BE32(n))
  {
    PriceVersionHead();
    EntryOf("price_v", e.val, PRICE_V);
  }

  lemma UnitsEntry(e: ScMapEntry, n: uint64)
    requires e == MapEntry("units", U64(n))
    ensures HasPart(e, UNITS + BE64(n))
  {
    UnitsHead();
    EntryOf("units", e.val, UNITS);
  }

  /** Entry by entry, a map has these parts. */
  ghost predicate HasParts(es: seq<ScMapEntry>, parts: seq<Bytes>) {
    |es| == |parts| && forall i | 0 <= i < |es| :: HasPart(es[i], parts[i])
  }

  ghost predicate HasPart(e: ScMapEntry, part: Bytes) {
    e.key.Symbol? && Encodable(e.key) && Encodable(e.val) && EntryBytes(e) == part
  }

  lemma {:induction false} EntriesAreParts(es: seq<ScMapEntry>, parts: seq<Bytes>)
    requires HasParts(es, parts) && forall e | e in es :: Encodable(e.key) && Encodable(e.val)
    ensures MarshalEntries(es) == Flatten(parts)
  {
    if es != [] {
      EntriesAreParts(es[1..], parts[1..]);
      EntryIsFlat(es[0]);
      assert HasPart(es[0], parts[0]);
    }
  }

  lemma EntryIsFlat(e: ScMapEntry)
    requires e.key.Symbol? && Encodable(e.key) && Encodable(e.val)
    ensures MarshalEntry(e) == EntryBytes(e)
  {
    assert Marshal(e.key) == BE32(Tag(e.key)) + Body(e.key) && Marshal(e.val) == BE32(Tag(e.val)) + Body(e.val);
  }

  lemma SevenWithHeader(es: seq<ScMapEntry>, parts: seq<Bytes>)
    requires |es| == 7 && Encodable(Map(es)) && HasParts(es, parts)
    ensures Marshal(Map(es)) == MAP_OF_SEVEN + Flatten(parts)
  {
    EntriesAreParts(es, parts);
    CountedMap(es);
    Header(Flatten(parts));
  }

  lemma CountedMap(es: seq<ScMapEntry>)
    requires Encodable(Map(es))
    ensures Marshal(Map(es)) == BE32(17) + (BE32(1) + (BE32(|es|) + MarshalEntries(es)))
  {
    assert Marshal(Map(es)) == BE32(Tag(Map(es))) + Body(Map(es));
  }

  lemma Header(rest: Bytes)
    ensures BE32(17) + (BE32(1) + (BE32(7) + rest)) == MAP_OF_SEVEN + rest
  {
  }

  lemma RecordHasParts(es: seq<ScMapEntry>, key: Hash, r: Record)
    requires r.amount.Some? && InI128Range(r.amount.value)
    requires es == RecordMap(ScvI128(r.amount).value, key, r).entries
    ensures HasParts(es, ReferenceParts(
      Fields(r.amount.value, key, r.endpointHash, r.ledger, r.priceVersion, r.requestID, r.units)))
  {
    FirstEntries(es[0], es[1], es[2], key, r);
    LastEntries(es[3], es[4], es[5], es[6], r);
    SevenParts(es, AMOUNT + BE128(r.amount.value), CONSUMER + (ACCOUNT + key),
      ENDPOINT + (LENGTH_32 + r.endpointHash), LEDGER + BE32(r.ledger), PRICE_V + BE32(r.priceVersion),
      REQID + (LENGTH_32 + r.requestID), UNITS + BE64(r.units));
  }

  lemma FirstEntries(e0: ScMapEntry, e1: ScMapEntry, e2: ScMapEntry, key: Hash, r: Record)
    requires r.amount.Some? && InI128Range(r.amount.value)
    requires e0 == MapEntry("amount", ScvI128(r.amount).value) && e1 == MapEntry("consumer", Address(Account(key)))
    requires e2 == MapEntry("endpoint", BytesVal(r.endpointHash))
    ensures HasPart(e0, AMOUNT + BE128(r.amount.value)) && HasPart(e1, CONSUMER + (ACCOUNT + key))
    ensures HasPart(e2, ENDPOINT + (LENGTH_32 + r.endpointHash))
  {
    AmountEntry(e0, r.amount.value);
    ConsumerEntry(e1, key);
    EndpointEntry(e2, r.endpointHash);
  }

  lemma LastEntries(e3: ScMapEntry, e4: ScMapEntry, e5: ScMapEntry, e6: ScMapEntry, r: Record)
    requires e3 == MapEntry("ledger", U32(r.ledger)) && e4 == MapEntry("price_v", U32(r.priceVersion))
    requires e5 == MapEntry("reqid", BytesVal(r.requestID)) && e6 == MapEntry("units", U64(r.units))
    ensures HasPart(e3, LEDGER + BE32(r.ledger)) && HasPart(e4, PRICE_V + BE32(r.priceVersion))
    ensures HasPart(e5, REQID + (LENGTH_32 + r.requestID)) && HasPart(e6, UNITS + BE64(r.units))
  {
    LedgerEntry(e3, r.ledger);
    PriceVersionEntry(e4, r.priceVersion);
    ReqidEntry(e5, r.requestID);
    UnitsEntry(e6, r.units);
  }

  lemma SevenParts(es: seq<ScMapEntry>, p0: Bytes, p1: Bytes, p2: Bytes, p3: Bytes, p4: Bytes, p5: Bytes, p6: Bytes)
    requires |es| == 7 && HasPart(es[0], p0) && HasPart(es[1], p1) && HasPart(es[2], p2) && HasPart(es[3], p3)
    requires HasPart(es[4], p4) && HasPart(es[5], p5) && HasPart(es[6], p6)
    ensures HasParts(es, [p0, p1, p2, p3, p4, p5, p6])
  {
  }

  /** Every record that encodes has exactly the reference bytes of its fields. */
  lemma EncodingIsReference(strkey: Strkey, r: Record)
    requires EncodeRecord(strkey, r).Success?
    ensures EncodeRecord(strkey, r).value == ReferenceBytes(FieldsOf(strkey, r))
  {
    var amount, key := ScvI128(r.amount).value, ConsumerKey(strkey, r.consumer).value;
    RecordValEncodable(strkey, r);
    var es := RecordMap(amount, key, r).entries;
    RecordHasParts(es, key, r);
    SevenWithHeader(es, ReferenceParts(FieldsOf(strkey, r)));
  }

  const RECORD_LENGTH := 296

  lemma {:induction false} FlattenLength(parts: seq<Bytes>, lengths: seq<nat>)
    requires |parts| == |lengths| && forall i | 0 <= i < |parts| :: |parts[i]| == lengths[i]
    ensures |Flatten(parts)| == Sum(lengths)
  {
    if parts != [] {
      FlattenLength(parts[1..], lengths[1..]);
    }
  }

  function Sum(ns: seq<nat>): nat {
    if ns == [] then 0 else ns[0] + Sum(ns[1..])
  }

  lemma SumOfSeven(a: nat, b: nat, c: nat, d: nat, e: nat, f: nat, g: nat)
    ensures Sum([a, b, c, d, e, f, g]) == a + b + c + d + e + f + g
  {
    assert Sum([g]) == g;
    assert [f, g][1..] == [g] && Sum([f, g]) == f + g;
    assert [e, f, g][1..] == [f, g] && Sum([e, f, g]) == e + f + g;
    assert [d, e, f, g][1..] == [e, f, g] && Sum([d, e, f, g]) == d + e + f + g;
    assert [c, d, e, f, g][1..] == [d, e, f, g] && Sum([c, d, e, f, g]) == c + d + e + f + g;
    assert [b, c, d, e, f, g][1..] == [c, d, e, f, g] && Sum([b, c, d, e, f, g]) == b + c + d + e + f + g;
    assert [a, b, c, d, e, f, g][1..] == [b, c, d, e, f, g];
  }

  /** Every encoding has the same length. */
  lemma RecordLength(strkey: Strkey, r: Record)
    requires EncodeRecord(strkey, r).Success?
    ensures |EncodeRecord(strkey, r).value| == RECORD_LENGTH
  {
    EncodingIsReference(strkey, r);
    FlattenLength(ReferenceParts(FieldsOf(strkey, r)), [36, 60, 56, 24, 24, 56, 28]);
    SumOfSeven(36, 60, 56, 24, 24, 56, 28);
  }
}
