/** Byte strings, 32-byte hashes, big-endian integers, and Go's bytes.Compare. */
module Bytes {
  type byte = x: int | 0 <= x < 0x100
  type Bytes = seq<byte>

  /** A Go [32]byte: what SHA-256 (FIPS 180-4) returns and what a leaf is. */
  type Hash = b: Bytes | |b| == 32 witness seq(32, _ => 0)

  /** SHA-256, kept uninterpreted: some function from byte strings to 32 bytes. */
  type Sha = Bytes -> Hash

  const TWO_32 := 0x1_0000_0000
  const TWO_64 := 0x1_0000_0000_0000_0000
  const TWO_127 := 0x8000_0000_0000_0000_0000_0000_0000_0000
  const TWO_128 := 0x1_0000_0000_0000_0000_0000_0000_0000_0000

  type uint32 = x: int | 0 <= x < TWO_32
  type uint64 = x: int | 0 <= x < TWO_64
  type int64 = x: int | -0x8000_0000_0000_0000 <= x < 0x8000_0000_0000_0000

  /** The bytes of a Go string literal made of ASCII characters. */
  function Ascii(s: string): (b: Bytes)
    ensures |b| == |s|
  {
    seq(|s|, i requires 0 <= i < |s| => (s[i] as int) % 0x100)
  }

  predicate IsAscii(s: string) {
    forall i | 0 <= i < |s| :: s[i] as int < 0x80
  }

  lemma AsciiInjective(s: string, t: string)
    requires IsAscii(s) && IsAscii(t) && Ascii(s) == Ascii(t)
    ensures s == t
  {
    forall i | 0 <= i < |s| ensures s[i] == t[i] {
      assert Ascii(s)[i] == Ascii(t)[i];
    }
  }

  // ----- big-endian integers (RFC 4506, sections 4.1 to 4.5) -----

  function BE32(n: uint32): (b: Bytes)
    ensures |b| == 4
  {
    var n1 := n / 0x100;
    var n2 := n1 / 0x100;
    [n2 / 0x100, n2 % 0x100, n1 % 0x100, n % 0x100]
  }

  function FromBE32(b: Bytes): (n: uint32)
    requires |b| == 4
  {
    (((b[0] as int) * 0x100 + b[1]) * 0x100 + b[2]) * 0x100 + b[3]
  }

  /** The most significant byte comes first. */
  lemma BE32Digits(n: uint32)
    ensures var b := BE32(n);
      b[0] as int * 0x100_0000 + b[1] as int * 0x1_0000 + b[2] as int * 0x100 + b[3] as int == n
  {
  }

  lemma BE32RoundTrip(n: uint32)
    ensures FromBE32(BE32(n)) == n
  {
  }

  function BE64(n: uint64): (b: Bytes)
    ensures |b| == 8
  {
    BE32(n / TWO_32) + BE32(n % TWO_32)
  }

  function FromBE64(b: Bytes): (n: uint64)
    requires |b| == 8
  {
    (FromBE32(b[..4]) as int) * TWO_32 + FromBE32(b[4..])
  }

  lemma BE64RoundTrip(n: uint64)
    ensures FromBE64(BE64(n)) == n
  {
    var b := BE64(n);
    assert b[..4] == BE32(n / TWO_32) && b[4..] == BE32(n % TWO_32);
    BE32RoundTrip(n / TWO_32);
    BE32RoundTrip(n % TWO_32);
  }

  lemma BE64Digits(n: uint64)
    ensures var b := BE64(n);
      b[0] as int * 0x100_0000_0000_0000 + b[1] as int * 0x1_0000_0000_0000 + b[2] as int * 0x100_0000_0000
      + b[3] as int * 0x1_0000_0000 + b[4] as int * 0x100_0000 + b[5] as int * 0x1_0000 + b[6] as int * 0x100
      + b[7] as int == n
  {
    BE32Digits(n / TWO_32);
    BE32Digits(n % TWO_32);
  }

  /** Two's complement: the int64 with the same 64 bits, and back. */
  function AsInt64(n: uint64): int64 {
    if n < 0x8000_0000_0000_0000 then n else n - TWO_64
  }

  function AsUint64(n: int64): uint64 {
    if n < 0 then n + TWO_64 else n
  }

  // ----- bytes.Compare -----

  /** Go's bytes.Compare: -1, 0 or 1 by lexicographic byte order. */
  function Compare(a: Bytes, b: Bytes): int {
    if a == [] then
      if b == [] then 0 else -1
    else if b == [] then 1
    else if a[0] < b[0] then -1
    else if a[0] > b[0] then 1
    else Compare(a[1..], b[1..])
  }

  /** Compare is antisymmetric and is 0 on equal byte strings only. */
  lemma {:induction false} CompareTotal(a: Bytes, b: Bytes)
    ensures Compare(a, b) == -Compare(b, a)
    ensures Compare(a, b) == 0 <==> a == b
  {
    if a != [] && b != [] && a[0] == b[0] {
      CompareTotal(a[1..], b[1..]);
      assert a == [a[0]] + a[1..] && b == [b[0]] + b[1..];
    }
  }

  /** The first byte that differs decides, as an unsigned number. */
  lemma {:induction false} CompareAtFirstDifference(a: Bytes, b: Bytes, k: nat)
    requires k < |a| && k < |b| && a[..k] == b[..k] && a[k] < b[k]
    ensures Compare(a, b) < 0 < Compare(b, a)
  {
    if k > 0 {
      assert a[0] == a[..k][0] && b[0] == b[..k][0];
      assert a[1..][..k - 1] == a[..k][1..] && b[1..][..k - 1] == b[..k][1..];
      CompareAtFirstDifference(a[1..], b[1..], k - 1);
    }
  }

  /** Two different strings of one length differ somewhere first. */
  lemma {:induction false} FirstDifference(a: Bytes, b: Bytes) returns (k: nat)
    requires |a| == |b| && a != b
    ensures k < |a| && a[..k] == b[..k] && a[k] != b[k]
  {
    if a[0] != b[0] {
      k := 0;
    } else {
      assert a == [a[0]] + a[1..] && b == [b[0]] + b[1..];
      var j := FirstDifference(a[1..], b[1..]);
      k := j + 1;
      assert a[..k] == [a[0]] + a[1..][..j] && b[..k] == [b[0]] + b[1..][..j];
    }
  }
}
