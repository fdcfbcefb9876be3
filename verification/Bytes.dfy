/** Bytes, fixed-width integers and their byte encodings, shared by the models. */
module Bytes {

  type Byte = b: int | 0 <= b < 256

  const TWO32: int := 0x1_0000_0000

  type U32 = n: int | 0 <= n < 0x1_0000_0000

  function BigEndian16(n: int): (s: seq<Byte>)
    requires 0 <= n < 0x1_0000
    ensures |s| == 2
  {
    [n / 256, n % 256]
  }

  /** The number with these base-256 digits, most significant first. */
  function Word(a: int, b: int, c: int, d: int): int {
    0x100_0000 * a + 0x1_0000 * b + 0x100 * c + d
  }

  /** htonl followed by a copy: the four bytes of n, most significant first. */
  function BigEndian32(n: U32): (s: seq<Byte>)
    ensures |s| == 4
  {
    BigEndian16(n / 0x1_0000) + BigEndian16(n % 0x1_0000)
  }

  function FromBigEndian16(s: seq<Byte>): (n: int)
    requires |s| == 2
    ensures 0 <= n < 0x1_0000
  {
    (s[0] as int) * 256 + s[1] as int
  }

  function FromBigEndian32(s: seq<Byte>): U32
    requires |s| == 4
  {
    0x1_0000 * FromBigEndian16(s[..2]) + FromBigEndian16(s[2..])
  }

  lemma BigEndian32RoundTrip(n: U32)
    ensures FromBigEndian32(BigEndian32(n)) == n
  {
    assert BigEndian32(n)[..2] == BigEndian16(n / 0x1_0000);
    assert BigEndian32(n)[2..] == BigEndian16(n % 0x1_0000);
  }

  /** The first byte is the most significant one. */
  lemma FromBigEndian32Value(s: seq<Byte>)
    requires |s| == 4
    ensures FromBigEndian32(s) == Word(s[0], s[1], s[2], s[3])
  {
  }

  /** The four bytes are determined by the number. */
  lemma KnownWord(n: U32, a: Byte, b: Byte, c: Byte, d: Byte)
    requires n == Word(a, b, c, d)
    ensures BigEndian32(n) == [a, b, c, d]
  {
    var hi: int, lo: int := 0x100 * a as int + b as int, 0x100 * c as int + d as int;
    assert n == 0x1_0000 * hi + lo && 0 <= lo < 0x1_0000;
    assert n / 0x1_0000 == hi && n % 0x1_0000 == lo;
  }
}
