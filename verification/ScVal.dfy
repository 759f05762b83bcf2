/** Soroban values: the part of XDR's ScVal the collector builds and reads, and
    the signed 128-bit split every amount goes through. */
module ScVals {
  import opened Wrappers
  import opened Bytes

  datatype ScAddress = Account(ed25519: Hash) | Contract(contractId: Hash)

  datatype ScVal =
    | Bool(b: bool)
    | Void
    | U32(u32: uint32)
    | U64(u64: uint64)
    | I64(i64: int64)
    | I128(hi: int64, lo: uint64)
    | BytesVal(bytes: Bytes)
    | Str(str: Bytes)
    | Symbol(sym: Bytes)
    | Vec(items: seq<ScVal>)
    | Map(entries: seq<ScMapEntry>)
    | Address(address: ScAddress)

  datatype ScMapEntry = ScMapEntry(key: ScVal, val: ScVal)

  datatype ScError =
    | NilValue
    | OutOfI128Range(v: int)
    | BadStrkey(address: string)
    | WrongLength(address: string, length: nat)
    | NotAccountOrContract(address: string)
    | WrongType

  function MapEntry(key: string, val: ScVal): ScMapEntry {
    ScMapEntry(Symbol(Ascii(key)), val)
  }

  // ----- addresses -----

  datatype StrkeyVersion = AccountID | ContractID | OtherVersion

  /** strkey decoding, kept uninterpreted: the version byte and the raw payload,
      or None for a string that is not a strkey. */
  type Strkey = string -> Option<(StrkeyVersion, Bytes)>

  function ScAddressOf(strkey: Strkey, address: string): Result<ScAddress, ScError> {
    match strkey(address)
    case None => Failure(BadStrkey(address))
    case Some((version, raw)) =>
      if |raw| != 32 then Failure(WrongLength(address, |raw|))
      else match version
        case AccountID => Success(Account(raw))
        case ContractID => Success(Contract(raw))
        case OtherVersion => Failure(NotAccountOrContract(address))
  }

  /** strkey encoding, the version and the raw payload to the text, kept uninterpreted too. */
  type StrkeyEncoder = (StrkeyVersion, Bytes) -> string

  /** An account's or a contract's strkey has one text and decodes to what it was made of. */
  ghost predicate StrkeyInverse(strkey: Strkey, encode: StrkeyEncoder) {
    && (forall version: StrkeyVersion, raw: Hash | !version.OtherVersion? ::
          strkey(encode(version, raw)) == Some((version, raw)))
    && (forall text | strkey(text).Some? && !strkey(text).value.0.OtherVersion? ::
          encode(strkey(text).value.0, strkey(text).value.1) == text)
  }

  /** The strkey text an address value stands for. */
  function DecodeAddress(encode: StrkeyEncoder, v: ScVal): Result<string, ScError> {
    match v
    case Address(Account(key)) => Success(encode(AccountID, key))
    case Address(Contract(id)) => Success(encode(ContractID, id))
    case _ => Failure(WrongType)
  }

  /** An address is encodable exactly when its strkey is an account's or a contract's
      with 32 bytes, and then decoding it gives that text back; and every address value
      decodes to a text that is encoded as that value again. */
  lemma AddressRoundTrip(strkey: Strkey, encode: StrkeyEncoder, address: string, a: ScAddress)
    ensures ScAddressOf(strkey, address).Success? <==>
      strkey(address).Some? && !strkey(address).value.0.OtherVersion? && |strkey(address).value.1| == 32
    ensures StrkeyInverse(strkey, encode) && ScAddressOf(strkey, address).Success? ==>
      DecodeAddress(encode, Address(ScAddressOf(strkey, address).value)) == Success(address)
    ensures StrkeyInverse(strkey, encode) ==>
      DecodeAddress(encode, Address(a)).Success?
      && ScAddressOf(strkey, DecodeAddress(encode, Address(a)).value) == Success(a)
  {
  }

  /** Which address a strkey gives: an account's key as an account, a contract's id as a
      contract; and which error anything else gives. */
  lemma AddressIsOfItsKind(strkey: Strkey, address: string)
    ensures forall raw: Hash ::
      (ScAddressOf(strkey, address) == Success(Account(raw)) <==> strkey(address) == Some((AccountID, raw)))
      && (ScAddressOf(strkey, address) == Success(Contract(raw)) <==> strkey(address) == Some((ContractID, raw)))
    ensures ScAddressOf(strkey, address) == Failure(BadStrkey(address)) <==> strkey(address).None?
    ensures forall n: nat :: ScAddressOf(strkey, address) == Failure(WrongLength(address, n)) <==>
      strkey(address).Some? && |strkey(address).value.1| == n && n != 32
    ensures ScAddressOf(strkey, address) == Failure(NotAccountOrContract(address)) <==>
      strkey(address).Some? && strkey(address).value.0 == OtherVersion && |strkey(address).value.1| == 32
  {
  }

  // ----- signed 128-bit integers -----

  predicate InI128Range(v: int) {
    -TWO_127 <= v < TWO_127
  }

  /** The split as arithmetic: `hi` is the floor of v / 2^64 and `lo` what is
      left over, the two's-complement halves of v. */
  function SplitI128(v: int): (parts: (int64, uint64))
    requires InI128Range(v)
    ensures parts.0 * TWO_64 + parts.1 == v
  {
    (v / TWO_64, v % TWO_64)
  }

  function ScvI128(v: Option<int>): Result<ScVal, ScError> {
    match v
    case None => Failure(NilValue)
    case Some(n) =>
      if !InI128Range(n) then Failure(OutOfI128Range(n))
      else Success(I128(SplitI128(n).0, SplitI128(n).1))
  }

  /** big.Int.FillBytes into 16 bytes: the big-endian digits of n. */
  function FillBytes16(n: int): (b: Bytes)
    requires 0 <= n < TWO_128
    ensures |b| == 16
  {
    BE64(n / TWO_64) + BE64(n % TWO_64)
  }

  /** The eight shifted bytes that both copies of the encoder join with `|`.
      The shifted bytes share no bit, so joining them is adding them. */
  function JoinBytes(b: Bytes): (n: uint64)
    requires |b| == 8
    ensures n == FromBE64(b)
  {
    (b[0] as int) * 0x100_0000_0000_0000 + (b[1] as int) * 0x1_0000_0000_0000
    + (b[2] as int) * 0x100_0000_0000 + (b[3] as int) * 0x1_0000_0000
    + (b[4] as int) * 0x100_0000 + (b[5] as int) * 0x1_0000
    + (b[6] as int) * 0x100 + b[7]
  }

  /** The encoder as the program runs it: add 2^128 to a negative value, spread
      the result over a byte buffer, and reassemble two 64-bit halves. It
      computes the arithmetic split. */
  method EncodeI128(v: Option<int>) returns (r: Result<ScVal, ScError>)
    ensures r == ScvI128(v)
  {
    if v.None? {
      return Failure(NilValue);
    }
    if v.value < -TWO_127 || v.value > TWO_127 - 1 {
      return Failure(OutOfI128Range(v.value));
    }
    var unsigned := v.value;
    if v.value < 0 {
      unsigned := TWO_128 + v.value;
    }
    var buf := FillBytes16(unsigned);
    var hi := AsInt64(JoinBytes(buf[..8]));
    var lo := JoinBytes(buf[8..]);
    JoinFilled(unsigned);
    HalvesOfUnsigned(v.value, unsigned);
    r := Success(I128(hi, lo));
  }

  /** Reading the two halves of the filled buffer gives the quotient and the rest. */
  lemma JoinFilled(n: int)
    requires 0 <= n < TWO_128
    ensures JoinBytes(FillBytes16(n)[..8]) == n / TWO_64
    ensures JoinBytes(FillBytes16(n)[8..]) == n % TWO_64
  {
    var buf := FillBytes16(n);
    assert buf[..8] == BE64(n / TWO_64) && buf[8..] == BE64(n % TWO_64);
    BE64RoundTrip(n / TWO_64);
    BE64RoundTrip(n % TWO_64);
  }

  lemma HalvesOfUnsigned(v: int, unsigned: int)
    requires InI128Range(v) && unsigned == (if v < 0 then v + TWO_128 else v)
    ensures AsInt64(unsigned / TWO_64) == v / TWO_64 && unsigned % TWO_64 == v % TWO_64
  {
  }

  /** Reassembles the unsigned 128-bit value and takes 2^128 off when the high
      half is negative. */
  function DecodeI128(v: ScVal): Result<int, ScError> {
    if !v.I128? then Failure(WrongType)
    else
      var unsigned := AsUint64(v.hi) * TWO_64 + v.lo;
      if v.hi >= 0 then Success(unsigned) else Success(unsigned - TWO_128)
  }

  /** Encoding succeeds exactly on the i128 range, and decoding undoes it; outside it,
      and for a nil amount, the error says so. */
  lemma I128RoundTrip(v: int)
    ensures ScvI128(Some(v)).Success? <==> -TWO_127 <= v <= TWO_127 - 1
    ensures !(-TWO_127 <= v <= TWO_127 - 1) ==> ScvI128(Some(v)) == Failure(OutOfI128Range(v))
    ensures ScvI128(None) == Failure(NilValue)
    ensures InI128Range(v) ==> DecodeI128(ScvI128(Some(v)).value) == Success(v)
  {
    if InI128Range(v) {
      var (hi, lo) := SplitI128(v);
      assert hi * TWO_64 + lo == v;
    }
  }

  /** Every pair of halves is the encoding of the value it decodes to, so the
      split is onto: no two halves decode to the same value. */
  lemma I128SplitIsOnto(hi: int64, lo: uint64)
    ensures DecodeI128(I128(hi, lo)).Success?
    ensures ScvI128(Some(DecodeI128(I128(hi, lo)).value)) == Success(I128(hi, lo))
  {
    var v := DecodeI128(I128(hi, lo)).value;
    assert v == hi * TWO_64 + lo;
    assert v / TWO_64 == hi && v % TWO_64 == lo;
  }

  // ----- map decoding -----

  /** The fields of a decoded map: for each symbol key, the last entry's value. */
  function Fields(entries: seq<ScMapEntry>): map<Bytes, ScVal>
    requires forall e | e in entries :: e.key.Symbol?
  {
    if entries == [] then map[]
    else
      var last := entries[|entries| - 1];
      Fields(entries[..|entries| - 1])[last.key.sym := last.val]
  }

  /** Exactly the keys of the entries are fields, and a key that occurs more than once
      has the value of its last entry. */
  lemma {:induction false} FieldsKeepsLast(entries: seq<ScMapEntry>, i: nat)
    requires (forall e | e in entries :: e.key.Symbol?) && i < |entries|
    requires forall j | i < j < |entries| :: entries[j].key != entries[i].key
    ensures entries[i].key.sym in Fields(entries) && Fields(entries)[entries[i].key.sym] == entries[i].val
  {
    var n := |entries| - 1;
    if i < n {
      FieldsKeepsLast(entries[..n], i);
      assert entries[n].key != entries[i].key;
    }
  }

  lemma {:induction false} FieldsAreEntries(entries: seq<ScMapEntry>, key: Bytes)
    requires forall e | e in entries :: e.key.Symbol?
    ensures key in Fields(entries) <==> exists e | e in entries :: e.key == Symbol(key)
  {
    if entries != [] {
      var n := |entries| - 1;
      FieldsAreEntries(entries[..n], key);
      assert entries == entries[..n] + [entries[n]];
    }
  }

  method DecodeMap(v: ScVal) returns (r: Result<map<Bytes, ScVal>, ScError>)
    ensures r.Success? <==> v.Map? && forall e | e in v.entries :: e.key.Symbol?
    ensures r.Success? ==> r.value == Fields(v.entries)
  {
    if !v.Map? {
      return Failure(WrongType);
    }
    var out: map<Bytes, ScVal> := map[];
    for i := 0 to |v.entries|
      invariant forall e | e in v.entries[..i] :: e.key.Symbol?
      invariant out == Fields(v.entries[..i])
    {
      var e := v.entries[i];
      if !e.key.Symbol? {
        assert e in v.entries;
        return Failure(WrongType);
      }
      assert v.entries[..i + 1] == v.entries[..i] + [e];
      out := out[e.key.sym := e.val];
    }
    assert v.entries[..|v.entries|] == v.entries;
    r := Success(out);
  }

  /** With no key used twice, every entry can be read back under its key. */
  lemma {:induction false} FieldsFindsEveryEntry(entries: seq<ScMapEntry>, i: nat)
    requires forall e | e in entries :: e.key.Symbol?
    requires forall j, k | 0 <= j < k < |entries| :: entries[j].key != entries[k].key
    requires i < |entries|
    ensures entries[i].key.sym in Fields(entries)
    ensures Fields(entries)[entries[i].key.sym] == entries[i].val
  {
    var n := |entries| - 1;
    if i < n {
      FieldsFindsEveryEntry(entries[..n], i);
      assert entries[i].key != entries[n].key;
    }
  }
}
