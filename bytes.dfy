/** Bytes and the fixed-width big-endian integers the wire format is built from. */
module Bytes {

  /** One octet, as Python's `bytes` holds it. */
  type byte = b: int | 0 <= b < 256

  const TWO_POW_16: int := 0x1_0000
  const TWO_POW_32: int := 0x1_0000_0000

  /** `n.to_bytes(4, 'big')`, defined for 0 <= n < 2^32 (Python raises OverflowError otherwise). */
  function BigEndian32(n: int): (r: seq<byte>)
    requires 0 <= n < TWO_POW_32
    ensures |r| == 4
  {
    [n / 0x100_0000, (n / 0x1_0000) % 0x100, (n / 0x100) % 0x100, n % 0x100]
  }

  /** `[(n >> 8) & 0xFF, n & 0xFF]`: the low 16 bits of n, high byte first. */
  function LowBits16(n: nat): (r: seq<byte>)
    ensures |r| == 2
  {
    [(n / 0x100) % 0x100, n % 0x100]
  }

  /** The unsigned integer that big-endian bytes denote. */
  function FromBigEndian(bs: seq<byte>): (r: nat)
    ensures r < Pow256(|bs|)
  {
    if bs == [] then 0 else FromBigEndian(bs[..|bs| - 1]) * 0x100 + bs[|bs| - 1]
  }

  function Pow256(k: nat): (r: nat)
    ensures r >= 1
  {
    if k == 0 then 1 else 0x100 * Pow256(k - 1)
  }

  /** Reading the four bytes back yields the integer. */
  lemma BigEndian32RoundTrip(n: int)
    requires 0 <= n < TWO_POW_32
    ensures FromBigEndian(BigEndian32(n)) == n
  {
    var bs := BigEndian32(n);
    assert bs[..3][..2][..1] == [n / 0x100_0000];
    assert FromBigEndian(bs[..3][..2][..1]) == n / 0x100_0000;
    assert FromBigEndian(bs[..3][..2]) == n / 0x1_0000;
    assert FromBigEndian(bs[..3]) == n / 0x100;
  }

  /** The four bytes of distinct integers differ. */
  lemma BigEndian32Injective(m: int, n: int)
    requires 0 <= m < TWO_POW_32 && 0 <= n < TWO_POW_32
    ensures BigEndian32(m) == BigEndian32(n) <==> m == n
  {
    if BigEndian32(m) == BigEndian32(n) {
      BigEndian32RoundTrip(m);
      BigEndian32RoundTrip(n);
    }
  }

  /** The two length bytes read back give n modulo 2^16, and n itself exactly when n fits in 16 bits. */
  lemma LowBits16RoundTrip(n: nat)
    ensures FromBigEndian(LowBits16(n)) == n % TWO_POW_16
    ensures FromBigEndian(LowBits16(n)) == n <==> n < TWO_POW_16
  {
    var bs := LowBits16(n);
    assert bs[..1] == [(n / 0x100) % 0x100];
    assert FromBigEndian(bs[..1]) == (n / 0x100) % 0x100;
  }
}
