/** Octets and the big-endian integers that the wire formats are made of. */
module Bytes {
  type byte = b: int | 0 <= b < 0x100

  type bytes = seq<byte>

  const U16: nat := 0x1_0000
  const U32: nat := 0x1_0000_0000

  /** `n` as a two-byte big-endian field (`struct` code "H"). */
  function Pack16(n: nat): (b: bytes)
    requires n < U16
    ensures |b| == 2
  {
    [n / 0x100, n % 0x100]
  }

  function Unpack16(b: bytes): (n: nat)
    requires |b| == 2
    ensures n < U16
  {
    b[0] as int * 0x100 + b[1] as int
  }

  /** `n` as a four-byte big-endian field (`struct` code "I"). */
  function Pack32(n: nat): (b: bytes)
    requires n < U32
    ensures |b| == 4
  {
    Pack16(n / U16) + Pack16(n % U16)
  }

  function Unpack32(b: bytes): (n: nat)
    requires |b| == 4
    ensures n < U32
  {
    Unpack16(b[..2]) * U16 + Unpack16(b[2..])
  }

  lemma UnpackPack16(n: nat)
    requires n < U16
    ensures Unpack16(Pack16(n)) == n
  {}

  lemma PackUnpack16(b: bytes)
    requires |b| == 2
    ensures Pack16(Unpack16(b)) == b
  {}

  lemma UnpackPack32(n: nat)
    requires n < U32
    ensures Unpack32(Pack32(n)) == n
  {
    var b := Pack32(n);
    assert b[..2] == Pack16(n / U16) && b[2..] == Pack16(n % U16);
  }

  lemma PackUnpack32(b: bytes)
    requires |b| == 4
    ensures Pack32(Unpack32(b)) == b
  {
    var hi, lo := Unpack16(b[..2]), Unpack16(b[2..]);
    assert (hi * U16 + lo) / U16 == hi && (hi * U16 + lo) % U16 == lo;
    PackUnpack16(b[..2]);
    PackUnpack16(b[2..]);
    assert b == b[..2] + b[2..];
  }
}
