/** Octets and big-endian 32-bit integers, the alphabet of the Lumberjack wire. */
module Wire {

  type byte = x: int | 0 <= x < 0x100
  type u32 = x: int | 0 <= x < 0x1_0000_0000

  const U32_MAX: u32 := 0xFFFF_FFFF

  /** The 32-bit integer stored at `s[at..at + 4]`, most significant octet first. */
  function ReadU32(s: seq<byte>, at: nat): u32
    requires at + 4 <= |s|
  {
    var (b0: int, b1: int, b2: int, b3: int) := (s[at], s[at + 1], s[at + 2], s[at + 3]);
    b0 * 0x100_0000 + b1 * 0x1_0000 + b2 * 0x100 + b3
  }

  function BigEndian(n: u32): (b: seq<byte>)
    ensures |b| == 4 && ReadU32(b, 0) == n
  {
    var q1: int := n / 0x100;
    var q2: int := q1 / 0x100;
    [q2 / 0x100, q2 % 0x100, q1 % 0x100, n % 0x100]
  }

  /** The most significant octet comes first. */
  lemma BigEndianDigits(b0: byte, b1: byte, b2: byte, b3: byte)
    ensures var n: int := b0 as int * 0x100_0000 + b1 as int * 0x1_0000 + b2 as int * 0x100 + b3 as int;
      BigEndian(n) == [b0, b1, b2, b3]
  {
    BigEndianOfRead([b0, b1, b2, b3], 0);
  }

  /** `BigEndian` is also a left inverse: four octets are determined by the integer they spell. */
  lemma BigEndianOfRead(s: seq<byte>, at: nat)
    requires at + 4 <= |s|
    ensures BigEndian(ReadU32(s, at)) == s[at..at + 4]
  {
    var (d0: int, d1: int, d2: int, d3: int) := (s[at], s[at + 1], s[at + 2], s[at + 3]);
    var (q1: int, q2: int) := ((d0 * 0x100 + d1) * 0x100 + d2, d0 * 0x100 + d1);
    assert ReadU32(s, at) == q1 * 0x100 + d3;
    assert ReadU32(s, at) / 0x100 == q1 && q1 / 0x100 == q2;
  }
}
