/** The XDR byte form of a Soroban value (RFC 4506) and a parser for it. The
    parser is the inverse that shows no information is lost: it exists only in
    this model. */
module Xdr {
  import opened Wrappers
  import opened Bytes
  import opened ScVals

  const MAX_SYMBOL := 32

  // ----- discriminants of the ScVal and ScAddress unions -----

  const SCV_BOOL: uint32 := 0
  const SCV_VOID: uint32 := 1
  const SCV_U32: uint32 := 3
  const SCV_U64: uint32 := 5
  const SCV_I64: uint32 := 6
  const SCV_I128: uint32 := 10
  const SCV_BYTES: uint32 := 13
  const SCV_STRING: uint32 := 14
  const SCV_SYMBOL: uint32 := 15
  const SCV_VEC: uint32 := 16
  const SCV_MAP: uint32 := 17
  const SCV_ADDRESS: uint32 := 18
  const SC_ADDRESS_ACCOUNT: uint32 := 0
  const SC_ADDRESS_CONTRACT: uint32 := 1
  const PUBLIC_KEY_ED25519: uint32 := 0

  // ----- encoding -----

  /** What the encoder accepts: lengths that fit 32 bits, symbols of at most 32 bytes. */
  predicate Encodable(v: ScVal) {
    match v
    case BytesVal(b) => |b| < TWO_32
    case Str(s) => |s| < TWO_32
    case Symbol(s) => |s| <= MAX_SYMBOL
    case Vec(items) => |items| < TWO_32 && forall x | x in items :: Encodable(x)
    case Map(entries) =>
      |entries| < TWO_32 && forall e | e in entries :: Encodable(e.key) && Encodable(e.val)
    case _ => true
  }

  function Padding(n: nat): (p: nat)
    ensures (n + p) % 4 == 0 && p < 4
  {
    (4 - n % 4) % 4
  }

  function Zeros(n: nat): (b: Bytes)
    ensures |b| == n
  {
    seq(n, _ => 0)
  }

  /** Variable-length opaque data and strings, sections 4.10 and 4.11. */
  function Opaque(s: Bytes): (b: Bytes)
    requires |s| < TWO_32
    ensures |b| == 4 + |s| + Padding(|s|)
  {
    BE32(|s|) + (s + Zeros(Padding(|s|)))
  }

  function MarshalAddress(a: ScAddress): Bytes {
    match a
    case Account(key) => BE32(SC_ADDRESS_ACCOUNT) + (BE32(PUBLIC_KEY_ED25519) + key)
    case Contract(id) => BE32(SC_ADDRESS_CONTRACT) + id
  }

  function Tag(v: ScVal): uint32 {
    match v
    case Bool(_) => SCV_BOOL
    case Void => SCV_VOID
    case U32(_) => SCV_U32
    case U64(_) => SCV_U64
    case I64(_) => SCV_I64
    case I128(_, _) => SCV_I128
    case BytesVal(_) => SCV_BYTES
    case Str(_) => SCV_STRING
    case Symbol(_) => SCV_SYMBOL
    case Vec(_) => SCV_VEC
    case Map(_) => SCV_MAP
    case Address(_) => SCV_ADDRESS
  }

  /** A union is its discriminant followed by the arm it selects (section 4.15);
      the vector and map arms are optional data (section 4.19) holding a
      counted array (section 4.13). */
  function Marshal(v: ScVal): Bytes
    requires Encodable(v)
    decreases v, 1
  {
    BE32(Tag(v)) + Body(v)
  }

  function Body(v: ScVal): Bytes
    requires Encodable(v)
    decreases v, 0
  {
    match v
    case Bool(b) => BE32(if b then 1 else 0)
    case Void => []
    case U32(n) => BE32(n)
    case U64(n) => BE64(n)
    case I64(n) => BE64(AsUint64(n))
    case I128(hi, lo) => BE64(AsUint64(hi)) + BE64(lo)
    case BytesVal(b) => Opaque(b)
    case Str(s) => Opaque(s)
    case Symbol(s) => Opaque(s)
    case Vec(items) => BE32(1) + (BE32(|items|) + MarshalItems(items))
    case Map(entries) => BE32(1) + (BE32(|entries|) + MarshalEntries(entries))
    case Address(a) => MarshalAddress(a)
  }

  function MarshalItems(items: seq<ScVal>): Bytes
    requires forall x | x in items :: Encodable(x)
    decreases items, 0
  {
    if items == [] then [] else Marshal(items[0]) + MarshalItems(items[1..])
  }

  function MarshalEntries(entries: seq<ScMapEntry>): Bytes
    requires forall e | e in entries :: Encodable(e.key) && Encodable(e.val)
    decreases entries, 0
  {
    if entries == [] then []
    else MarshalEntry(entries[0]) + MarshalEntries(entries[1..])
  }

  function MarshalEntry(e: ScMapEntry): Bytes
    requires Encodable(e.key) && Encodable(e.val)
    decreases e
  {
    Marshal(e.key) + Marshal(e.val)
  }

  // ----- parsing -----

  type Parsed<T> = Option<(T, Bytes)>

  function TakeU32(b: Bytes): (r: Parsed<uint32>)
    ensures r.Some? ==> |r.value.1| == |b| - 4
  {
    if |b| < 4 then None else Some((FromBE32(b[..4]), b[4..]))
  }

  function TakeU64(b: Bytes): (r: Parsed<uint64>)
    ensures r.Some? ==> |r.value.1| == |b| - 8
  {
    if |b| < 8 then None else Some((FromBE64(b[..8]), b[8..]))
  }

  function TakeHash(b: Bytes): (r: Parsed<Hash>)
    ensures r.Some? ==> |r.value.1| == |b| - 32
  {
    if |b| < 32 then None else Some((b[..32], b[32..]))
  }

  function TakeOpaque(b: Bytes): (r: Parsed<Bytes>)
    ensures r.Some? ==> |r.value.1| < |b|
  {
    var (n, rest) :- TakeU32(b);
    var end := n + Padding(n);
    if |rest| < end || rest[n..end] != Zeros(end - n) then None
    else Some((rest[..n], rest[end..]))
  }

  function TakeAddress(b: Bytes): (r: Parsed<ScAddress>)
    ensures r.Some? ==> |r.value.1| < |b|
  {
    var (kind, rest) :- TakeU32(b);
    if kind == SC_ADDRESS_ACCOUNT then
      var (keyType, rest') :- TakeU32(rest);
      if keyType != PUBLIC_KEY_ED25519 then None
      else
        var (key, rest'') :- TakeHash(rest');
        Some((Account(key), rest''))
    else if kind == SC_ADDRESS_CONTRACT then
      var (id, rest') :- TakeHash(rest);
      Some((Contract(id), rest'))
    else None
  }

  function Parse(b: Bytes): (r: Parsed<ScVal>)
    ensures r.Some? ==> |r.value.1| < |b|
    decreases |b|, 0
  {
    var (tag, rest) :- TakeU32(b);
    if tag == SCV_VEC then
      var (n, rest') :- TakeCount(rest);
      var (items, tail) :- ParseItems(n, rest');
      Some((Vec(items), tail))
    else if tag == SCV_MAP then
      var (n, rest') :- TakeCount(rest);
      var (entries, tail) :- ParseEntries(n, rest');
      Some((Map(entries), tail))
    else ParseLeaf(tag, rest)
  }

  /** The present flag of optional data, then the count of an array. */
  function TakeCount(b: Bytes): (r: Parsed<uint32>)
    ensures r.Some? ==> |r.value.1| < |b|
  {
    var (present, rest) :- TakeU32(b);
    if present != 1 then None else TakeU32(rest)
  }

  /** The arms that hold no further value. */
  function ParseLeaf(tag: uint32, b: Bytes): (r: Parsed<ScVal>)
    ensures r.Some? ==> |r.value.1| <= |b|
  {
    if tag == SCV_BOOL then
      var (n, rest) :- TakeU32(b);
      if n > 1 then None else Some((Bool(n == 1), rest))
    else if tag == SCV_VOID then Some((Void, b))
    else if tag == SCV_U32 then
      var (n, rest) :- TakeU32(b); Some((U32(n), rest))
    else if tag == SCV_U64 then
      var (n, rest) :- TakeU64(b); Some((U64(n), rest))
    else if tag == SCV_I64 then
      var (n, rest) :- TakeU64(b); Some((I64(AsInt64(n)), rest))
    else if tag == SCV_I128 then
      var (hi, rest) :- TakeU64(b);
      var (lo, rest') :- TakeU64(rest);
      Some((I128(AsInt64(hi), lo), rest'))
    else if tag == SCV_BYTES then
      var (s, rest) :- TakeOpaque(b); Some((BytesVal(s), rest))
    else if tag == SCV_STRING then
      var (s, rest) :- TakeOpaque(b); Some((Str(s), rest))
    else if tag == SCV_SYMBOL then
      var (s, rest) :- TakeOpaque(b);
      if |s| > MAX_SYMBOL then None else Some((Symbol(s), rest))
    else if tag == SCV_ADDRESS then
      var (a, rest) :- TakeAddress(b); Some((Address(a), rest))
    else None
  }

  function ParseItems(n: nat, b: Bytes): (r: Parsed<seq<ScVal>>)
    ensures r.Some? ==> |r.value.1| <= |b|
    decreases |b|, 1
  {
    if n == 0 then Some(([], b))
    else
      var (x, rest) :- Parse(b);
      var (xs, tail) :- ParseItems(n - 1, rest);
      Some(([x] + xs, tail))
  }

  function ParseEntries(n: nat, b: Bytes): (r: Parsed<seq<ScMapEntry>>)
    ensures r.Some? ==> |r.value.1| <= |b|
    decreases |b|, 1
  {
    if n == 0 then Some(([], b))
    else
      var (key, rest) :- Parse(b);
      var (val, rest') :- Parse(rest);
      var (es, tail) :- ParseEntries(n - 1, rest');
      Some(([ScMapEntry(key, val)] + es, tail))
  }

  // ----- round trip -----

  lemma TakeU32Of(n: uint32, rest: Bytes)
    ensures TakeU32(BE32(n) + rest) == Some((n, rest))
  {
    var b := BE32(n) + rest;
    assert b[..4] == BE32(n) && b[4..] == rest;
    BE32RoundTrip(n);
  }

  lemma TakeU64Of(n: uint64, rest: Bytes)
    ensures TakeU64(BE64(n) + rest) == Some((n, rest))
  {
    var b := BE64(n) + rest;
    assert b[..8] == BE64(n) && b[8..] == rest;
    BE64RoundTrip(n);
  }

  lemma TakeHashOf(h: Hash, rest: Bytes)
    ensures TakeHash(h + rest) == Some((h, rest))
  {
    assert (h + rest)[..32] == h && (h + rest)[32..] == rest;
  }

  lemma TakeOpaqueOf(s: Bytes, rest: Bytes)
    requires |s| < TWO_32
    ensures TakeOpaque(Opaque(s) + rest) == Some((s, rest))
  {
    var zeros := Zeros(Padding(|s|));
    var data := s + zeros + rest;
    assert Opaque(s) + rest == BE32(|s|) + data;
    TakeU32Of(|s|, data);
    var end := |s| + Padding(|s|);
    assert data[..|s|] == s && data[|s|..end] == zeros && data[end..] == rest;
  }

  lemma TakeAddressOf(a: ScAddress, rest: Bytes)
    ensures TakeAddress(MarshalAddress(a) + rest) == Some((a, rest))
  {
    match a
    case Account(key) =>
      var tail := BE32(PUBLIC_KEY_ED25519) + (key + rest);
      assert MarshalAddress(a) + rest == BE32(SC_ADDRESS_ACCOUNT) + tail;
      TakeU32Of(SC_ADDRESS_ACCOUNT, tail);
      TakeU32Of(PUBLIC_KEY_ED25519, key + rest);
      TakeHashOf(key, rest);
    case Contract(id) =>
      assert MarshalAddress(a) + rest == BE32(SC_ADDRESS_CONTRACT) + (id + rest);
      TakeU32Of(SC_ADDRESS_CONTRACT, id + rest);
      TakeHashOf(id, rest);
  }

  lemma TakeCountOf(n: uint32, rest: Bytes)
    ensures TakeCount(BE32(1) + (BE32(n) + rest)) == Some((n, rest))
  {
    TakeU32Of(1, BE32(n) + rest);
    TakeU32Of(n, rest);
  }

  lemma ParseI128Of(hi: int64, lo: uint64, rest: Bytes)
    ensures ParseLeaf(SCV_I128, (BE64(AsUint64(hi)) + BE64(lo)) + rest) == Some((I128(hi, lo), rest))
  {
    assert (BE64(AsUint64(hi)) + BE64(lo)) + rest == BE64(AsUint64(hi)) + (BE64(lo) + rest);
    TakeU64Of(AsUint64(hi), BE64(lo) + rest);
    TakeU64Of(lo, rest);
  }

  lemma ParseLeafOf(v: ScVal, rest: Bytes)
    requires Encodable(v) && !v.Vec? && !v.Map?
    ensures ParseLeaf(Tag(v), Body(v) + rest) == Some((v, rest))
  {
    match v
    case BytesVal(b) => TakeOpaqueOf(b, rest);
    case Str(s) => TakeOpaqueOf(s, rest);
    case Symbol(s) => TakeOpaqueOf(s, rest);
    case Address(a) => TakeAddressOf(a, rest);
    case _ => ParseWordsOf(v, rest);
  }

  lemma ParseWordsOf(v: ScVal, rest: Bytes)
    requires v.Bool? || v.Void? || v.U32? || v.U64? || v.I64? || v.I128?
    ensures ParseLeaf(Tag(v), Body(v) + rest) == Some((v, rest))
  {
    match v
    case Bool(b) => TakeU32Of(if b then 1 else 0, rest);
    case Void => assert Body(v) + rest == rest;
    case U32(n) => TakeU32Of(n, rest);
    case U64(n) => TakeU64Of(n, rest);
    case I64(n) => TakeU64Of(AsUint64(n), rest);
    case I128(hi, lo) => ParseI128Of(hi, lo, rest);
  }

  lemma CountedOf(n: uint32, data: Bytes, rest: Bytes)
    ensures TakeCount((BE32(1) + (BE32(n) + data)) + rest) == Some((n, data + rest))
  {
    assert (BE32(1) + (BE32(n) + data)) + rest == BE32(1) + (BE32(n) + (data + rest));
    TakeCountOf(n, data + rest);
  }

  /** Parsing an encoding gives back the value and leaves whatever follows it
      untouched: the encoding of any value, however deeply nested, loses
      nothing and ends where the parser says it ends. */
  lemma {:induction false} ParseMarshal(v: ScVal, rest: Bytes)
    requires Encodable(v)
    ensures Parse(Marshal(v) + rest) == Some((v, rest))
    decreases v, 1
  {
    assert Marshal(v) + rest == BE32(Tag(v)) + (Body(v) + rest);
    TakeU32Of(Tag(v), Body(v) + rest);
    match v
    case Vec(items) =>
      CountedOf(|items|, MarshalItems(items), rest);
      ParseItemsMarshal(items, rest);
    case Map(entries) =>
      CountedOf(|entries|, MarshalEntries(entries), rest);
      ParseEntriesMarshal(entries, rest);
    case _ =>
      ParseLeafOf(v, rest);
  }

  lemma {:induction false} ParseItemsMarshal(items: seq<ScVal>, rest: Bytes)
    requires forall x | x in items :: Encodable(x)
    ensures ParseItems(|items|, MarshalItems(items) + rest) == Some((items, rest))
    decreases items, 0
  {
    if items == [] {
      assert MarshalItems(items) + rest == rest;
    } else {
      var tail := MarshalItems(items[1..]) + rest;
      assert MarshalItems(items) + rest == Marshal(items[0]) + tail;
      ParseMarshal(items[0], tail);
      ParseItemsMarshal(items[1..], rest);
      assert items == [items[0]] + items[1..];
    }
  }

  lemma {:induction false} ParseEntriesMarshal(entries: seq<ScMapEntry>, rest: Bytes)
    requires forall e | e in entries :: Encodable(e.key) && Encodable(e.val)
    ensures ParseEntries(|entries|, MarshalEntries(entries) + rest) == Some((entries, rest))
    decreases entries, 0
  {
    if entries == [] {
      assert MarshalEntries(entries) + rest == rest;
    } else {
      var e := entries[0];
      var tail := MarshalEntries(entries[1..]) + rest;
      assert MarshalEntries(entries) + rest == MarshalEntry(e) + tail;
      ParseEntryMarshal(e, tail);
      ParseEntriesMarshal(entries[1..], rest);
      assert entries == [e] + entries[1..];
    }
  }

  lemma {:induction false} ParseEntryMarshal(e: ScMapEntry, tail: Bytes)
    requires Encodable(e.key) && Encodable(e.val)
    ensures Parse(MarshalEntry(e) + tail) == Some((e.key, Marshal(e.val) + tail))
    ensures Parse(Marshal(e.val) + tail) == Some((e.val, tail))
    decreases e
  {
    assert MarshalEntry(e) + tail == Marshal(e.key) + (Marshal(e.val) + tail);
    ParseMarshal(e.key, Marshal(e.val) + tail);
    ParseMarshal(e.val, tail);
  }

  /** No encoding is a prefix of another value's encoding; in particular two
      values with the same bytes are the same value. */
  lemma MarshalPrefixFree(v: ScVal, w: ScVal, tail: Bytes)
    requires Encodable(v) && Encodable(w)
    requires Marshal(v) + tail == Marshal(w)
    ensures v == w && tail == []
  {
    ParseMarshal(v, tail);
    ParseMarshal(w, []);
    assert Marshal(w) + [] == Marshal(w);
  }

  // The arms no record or commitment uses, by example.

  lemma SimpleArms()
    ensures Marshal(Bool(true)) == [0, 0, 0, 0, 0, 0, 0, 1] && Marshal(Void) == [0, 0, 0, 1]
    ensures Marshal(Vec([])) == [0, 0, 0, 16, 0, 0, 0, 1, 0, 0, 0, 0]
  {
  }

  lemma NegativeArm()
    ensures Marshal(I64(-2)) == [0, 0, 0, 6, 0xff, 0xff, 0xff, 0xff, 0xff, 0xff, 0xff, 0xfe]
  {
  }

  lemma StringArm()
    ensures Marshal(Str([0x61, 0x62])) == [0, 0, 0, 14, 0, 0, 0, 2, 0x61, 0x62, 0, 0]
  {
  }

  lemma MarshalInjective(v: ScVal, w: ScVal)
    requires Encodable(v) && Encodable(w)
    requires Marshal(v) == Marshal(w)
    ensures v == w
  {
    assert Marshal(v) + [] == Marshal(v);
    MarshalPrefixFree(v, w, []);
  }

  lemma MarshalAddressInjective(a: ScAddress, b: ScAddress)
    requires MarshalAddress(a) == MarshalAddress(b)
    ensures a == b
  {
    TakeAddressOf(a, []);
    TakeAddressOf(b, []);
    assert MarshalAddress(a) + [] == MarshalAddress(b) + [];
  }
}
