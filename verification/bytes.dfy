/** Machine integers and network-byte-order (big-endian) reads and writes.
    Every multi-byte header field the router looks at is stored most
    significant byte first on the wire; these functions are the `ntohs` view of
    such a field and its inverse. */
module Bytes {

  type uint8 = x: int | 0 <= x < 0x100
  type uint16 = x: int | 0 <= x < 0x1_0000
  type uint32 = x: int | 0 <= x < 0x1_0000_0000

  /** The value of a two-byte field stored high byte first. */
  function BE16(hi: uint8, lo: uint8): (v: uint16)
    ensures v / 0x100 == hi && v % 0x100 == lo
  {
    hi * 0x100 + lo
  }

  /** The two bytes that store `v` in network order. */
  function ToBE16(v: uint16): (b: seq<uint8>)
    ensures |b| == 2
    ensures BE16(b[0], b[1]) == v
  {
    [v / 0x100, v % 0x100]
  }

  /** Reading the two bytes written by ToBE16 gives the value back, and
      writing a value read from two bytes gives the bytes back. */
  lemma BE16RoundTrip(hi: uint8, lo: uint8)
    ensures ToBE16(BE16(hi, lo)) == [hi, lo]
  {
  }

  /** Two byte pairs store the same 16-bit value only when they are equal. */
  lemma BE16Injective(a0: uint8, a1: uint8, b0: uint8, b1: uint8)
    requires BE16(a0, a1) == BE16(b0, b1)
    ensures a0 == b0 && a1 == b1
  {
  }

  /** The value of a four-byte field stored most significant byte first. */
  function BE32(b: seq<uint8>): (v: uint32)
    requires |b| == 4
    ensures v / 0x1_0000 == BE16(b[0], b[1])
    ensures v % 0x1_0000 == BE16(b[2], b[3])
  {
    BE16(b[0], b[1]) * 0x1_0000 + BE16(b[2], b[3])
  }

  /** Distinct four-byte fields have distinct network-order values. */
  lemma BE32Injective(a: seq<uint8>, b: seq<uint8>)
    requires |a| == 4 && |b| == 4
    requires BE32(a) == BE32(b)
    ensures a == b
  {
    BE16Injective(a[0], a[1], b[0], b[1]);
    BE16Injective(a[2], a[3], b[2], b[3]);
    assert a == [a[0], a[1], a[2], a[3]];
    assert b == [b[0], b[1], b[2], b[3]];
  }
}
