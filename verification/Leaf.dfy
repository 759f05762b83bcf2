/** The Merkle leaf of a billed request: an XDR map, hashed twice. */
module Leaf {
  import opened Wrappers
  import opened Bytes
  import opened ScVals
  import opened Xdr

  /** One billed request. `consumer` is the strkey text the caller supplies. */
  datatype Record = Record(
    amount: Option<int>,
    consumer: string,
    endpointHash: Hash,
    ledger: uint32,
    priceVersion: uint32,
    requestID: Hash,
    units: uint64)

  /** What an endpoint's hash is taken of. */
  function EndpointBytes(httpMethod: string, pathTemplate: string): Bytes {
    Ascii(httpMethod + " " + pathTemplate)
  }

  /** The hash of the method's bytes, one space byte, and the path's bytes. */
  function EndpointHash(sha: Sha, httpMethod: string, pathTemplate: string): (h: Hash)
    ensures h == sha(Ascii(httpMethod) + [0x20] + Ascii(pathTemplate))
  {
    assert EndpointBytes(httpMethod, pathTemplate) == Ascii(httpMethod) + [0x20] + Ascii(pathTemplate);
    sha(EndpointBytes(httpMethod, pathTemplate))
  }

  /** strkey.Decode with the account version byte, then the 32-byte check. */
  function ConsumerKey(strkey: Strkey, address: string): Result<Hash, ScError> {
    match strkey(address)
    case Some((AccountID, raw)) =>
      if |raw| != 32 then Failure(WrongLength(address, |raw|)) else Success(raw)
    case _ => Failure(BadStrkey(address))
  }

  /** The seven entries in the key order the contract requires. */
  function RecordMap(amount: ScVal, key: Hash, r: Record): ScVal {
    Map([
      MapEntry("amount", amount),
      MapEntry("consumer", Address(Account(key))),
      MapEntry("endpoint", BytesVal(r.endpointHash)),
      MapEntry("ledger", U32(r.ledger)),
      MapEntry("price_v", U32(r.priceVersion)),
      MapEntry("reqid", BytesVal(r.requestID)),
      MapEntry("units", U64(r.units))
    ])
  }

  function RecordVal(strkey: Strkey, r: Record): Result<ScVal, ScError> {
    var amount :- ScvI128(r.amount);
    var key :- ConsumerKey(strkey, r.consumer);
    Success(RecordMap(amount, key, r))
  }

  function EncodeRecord(strkey: Strkey, r: Record): Result<Bytes, ScError> {
    var v :- RecordVal(strkey, r);
    RecordValEncodable(strkey, r);
    Success(Marshal(v))
  }

  /** The leaf hash: the hash of the hash of the record's bytes. */
  function LeafHash(sha: Sha, strkey: Strkey, r: Record): Result<Hash, ScError> {
    var bytes :- EncodeRecord(strkey, r);
    Success(sha(sha(bytes)))
  }

  lemma RecordValEncodable(strkey: Strkey, r: Record)
    ensures RecordVal(strkey, r).Success? ==> Encodable(RecordVal(strkey, r).value)
  {
    if RecordVal(strkey, r).Success? {
      var v := RecordVal(strkey, r).value;
      forall e | e in v.entries ensures Encodable(e.key) && Encodable(e.val) {
      }
    }
  }

  /** A record is encodable exactly when its amount is an i128 and its consumer
      is an account strkey of 32 bytes. */
  lemma EncodableRecords(strkey: Strkey, r: Record)
    ensures EncodeRecord(strkey, r).Success? <==>
      && r.amount.Some? && InI128Range(r.amount.value)
      && exists raw: Bytes :: |raw| == 32 && strkey(r.consumer) == Some((AccountID, raw))
  {
    if EncodeRecord(strkey, r).Success? {
      var raw := ConsumerKey(strkey, r.consumer).value;
      assert strkey(r.consumer) == Some((AccountID, raw));
    }
  }

  /** Why a record is refused: its amount is looked at first, then its consumer. */
  lemma RecordErrors(strkey: Strkey, r: Record)
    ensures r.amount.None? ==> EncodeRecord(strkey, r) == Failure(NilValue)
    ensures r.amount.Some? && !InI128Range(r.amount.value) ==>
      EncodeRecord(strkey, r) == Failure(OutOfI128Range(r.amount.value))
    ensures r.amount.Some? && InI128Range(r.amount.value) ==>
      match strkey(r.consumer)
      case Some((AccountID, raw)) =>
        |raw| != 32 ==> EncodeRecord(strkey, r) == Failure(WrongLength(r.consumer, |raw|))
      case _ => EncodeRecord(strkey, r) == Failure(BadStrkey(r.consumer))
  {
  }

  /** What the bytes of a record say: every field, the consumer as its key. */
  datatype Fields = Fields(
    amount: int,
    consumerKey: Hash,
    endpointHash: Hash,
    ledger: uint32,
    priceVersion: uint32,
    requestID: Hash,
    units: uint64)

  function FieldsOf(strkey: Strkey, r: Record): Fields
    requires EncodeRecord(strkey, r).Success?
  {
    Fields(r.amount.value, ConsumerKey(strkey, r.consumer).value, r.endpointHash, r.ledger,
           r.priceVersion, r.requestID, r.units)
  }

  /** The map's keys, in this order. */
  predicate HasKeys(es: seq<ScMapEntry>, keys: seq<string>) {
    |es| == |keys| && forall i | 0 <= i < |es| :: es[i].key == Symbol(Ascii(keys[i]))
  }

  const RECORD_KEYS := ["amount", "consumer", "endpoint", "ledger", "price_v", "reqid", "units"]

  /** A reader of record bytes: parse one XDR value, then take its map apart. */
  function DecodeRecord(bytes: Bytes): Option<Fields> {
    match Parse(bytes)
    case Some((v, rest)) => if rest == [] then DecodeVal(v) else None
    case None => None
  }

  function DecodeVal(v: ScVal): Option<Fields> {
    if !v.Map? || !HasKeys(v.entries, RECORD_KEYS) then None
    else
      var es := v.entries;
      if es[0].val.I128? && es[1].val.Address? && es[1].val.address.Account?
         && es[2].val.BytesVal? && |es[2].val.bytes| == 32 && es[3].val.U32? && es[4].val.U32?
         && es[5].val.BytesVal? && |es[5].val.bytes| == 32 && es[6].val.U64? then
        var amount := DecodeI128(es[0].val);
        Some(Fields(amount.value, es[1].val.address.ed25519, es[2].val.bytes, es[3].val.u32,
                    es[4].val.u32, es[5].val.bytes, es[6].val.u64))
      else None
  }

  lemma DecodeRecordMap(amount: ScVal, key: Hash, r: Record)
    requires amount.I128?
    ensures DecodeVal(RecordMap(amount, key, r)) ==
      Some(Fields(DecodeI128(amount).value, key, r.endpointHash, r.ledger, r.priceVersion, r.requestID, r.units))
  {
    assert HasKeys(RecordMap(amount, key, r).entries, RECORD_KEYS);
  }

  /** Encoding loses no field: the reader recovers all seven. */
  lemma DecodeEncodedRecord(strkey: Strkey, r: Record)
    requires EncodeRecord(strkey, r).Success?
    ensures DecodeRecord(EncodeRecord(strkey, r).value) == Some(FieldsOf(strkey, r))
  {
    var v := RecordVal(strkey, r).value;
    RecordValEncodable(strkey, r);
    ParseMarshal(v, []);
    assert Marshal(v) + [] == Marshal(v);
    I128RoundTrip(r.amount.value);
    DecodeRecordMap(ScvI128(r.amount).value, ConsumerKey(strkey, r.consumer).value, r);
  }

  /** Two records with the same bytes agree in every field. */
  lemma EncodeRecordInjective(strkey: Strkey, r: Record, s: Record)
    requires EncodeRecord(strkey, r).Success? && EncodeRecord(strkey, s).Success?
    ensures EncodeRecord(strkey, r) == EncodeRecord(strkey, s) <==>
      FieldsOf(strkey, r) == FieldsOf(strkey, s)
  {
    DecodeEncodedRecord(strkey, r);
    DecodeEncodedRecord(strkey, s);
    if FieldsOf(strkey, r) == FieldsOf(strkey, s) {
      SameFieldsSameBytes(strkey, r, s);
    }
  }

  lemma SameFieldsSameBytes(strkey: Strkey, r: Record, s: Record)
    requires EncodeRecord(strkey, r).Success? && EncodeRecord(strkey, s).Success?
    requires FieldsOf(strkey, r) == FieldsOf(strkey, s)
    ensures EncodeRecord(strkey, r) == EncodeRecord(strkey, s)
  {
    assert RecordVal(strkey, r) == RecordVal(strkey, s);
  }

  /** Symbol keys in strictly ascending byte order: the order a host requires of a map. */
  predicate KeysAscend(es: seq<ScMapEntry>) {
    forall i, j | 0 <= i < j < |es| ::
      es[i].key.Symbol? && es[j].key.Symbol? && Compare(es[i].key.sym, es[j].key.sym) < 0
  }

  /** A record's map is in host order. */
  lemma RecordKeysAscend(strkey: Strkey, r: Record)
    requires RecordVal(strkey, r).Success?
    ensures KeysAscend(RecordVal(strkey, r).value.entries)
  {
    assert Ascii("amount")[0] == 97 && Ascii("consumer")[0] == 99 && Ascii("endpoint")[0] == 101;
    assert Ascii("ledger")[0] == 108 && Ascii("price_v")[0] == 112 && Ascii("reqid")[0] == 114;
    assert Ascii("units")[0] == 117;
  }
}
