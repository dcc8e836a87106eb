/**
 Bytes, fixed-width integers and the byte orders the firmware and the host use.
 Dafny's integers are unbounded, so every width and every wrap-around is written out.
 */
module Bytes {

  type byte = b: int | 0 <= b < 0x100
  type uint16 = n: int | 0 <= n < 0x1_0000
  type uint32 = n: int | 0 <= n < 0x1_0000_0000
  type int8 = n: int | -0x80 <= n < 0x80
  type int32 = n: int | -0x8000_0000 <= n < 0x8000_0000

  /** The low 32 bits of n, read as a two's-complement number. */
  function Wrap32(n: int): (r: int32)
    ensures (n - r) % 0x1_0000_0000 == 0
  {
    var low := n % 0x1_0000_0000;
    if low < 0x8000_0000 then low else low - 0x1_0000_0000
  }

  /** The byte that stores a signed 8-bit value. */
  function ByteOf(n: int8): (b: byte)
    ensures SignedByte(b) == n
  {
    n % 0x100
  }

  /** A byte read back as a signed 8-bit value. */
  function SignedByte(b: byte): int8 {
    if b < 0x80 then b else b - 0x100
  }

  function Le16(n: uint16): (bs: seq<byte>)
    ensures |bs| == 2
  {
    [n % 0x100, n / 0x100]
  }

  function Le32(n: uint32): (bs: seq<byte>)
    ensures |bs| == 4
  {
    [n % 0x100, n / 0x100 % 0x100, n / 0x1_0000 % 0x100, n / 0x100_0000]
  }

  /** The value of four digits base 256, the least significant first. */
  function Word(a: int, b: int, c: int, d: int): int {
    a + 0x100 * b + 0x1_0000 * c + 0x100_0000 * d
  }

  function ReadLe16(bs: seq<byte>, at: nat): uint16
    requires at + 2 <= |bs|
  {
    Word(bs[at], bs[at + 1], 0, 0)
  }

  function ReadLe32(bs: seq<byte>, at: nat): uint32
    requires at + 4 <= |bs|
  {
    Word(bs[at], bs[at + 1], bs[at + 2], bs[at + 3])
  }

  function ReadBe32(bs: seq<byte>, at: nat): uint32
    requires at + 4 <= |bs|
  {
    Word(bs[at + 3], bs[at + 2], bs[at + 1], bs[at])
  }

  lemma Split32(n: uint32)
    ensures n == n % 0x100 + 0x100 * (n / 0x100 % 0x100) + 0x1_0000 * (n / 0x1_0000 % 0x100) + 0x100_0000 * (n / 0x100_0000)
  {
    assert n / 0x1_0000 == n / 0x100 / 0x100;
    assert n / 0x100_0000 == n / 0x1_0000 / 0x100;
  }

  /** A little-endian word is found again wherever it stands in a stream. */
  lemma ReadLe32Found(n: uint32, bs: seq<byte>, at: nat)
    requires at + 4 <= |bs| && bs[at..at + 4] == Le32(n)
    ensures ReadLe32(bs, at) == n
  {
    var word := bs[at..at + 4];
    assert word[0] == bs[at] && word[1] == bs[at + 1] && word[2] == bs[at + 2] && word[3] == bs[at + 3];
    Split32(n);
  }

  /** Four bytes determine the word and the word determines the four bytes. */
  lemma Le32OfRead(bs: seq<byte>, at: nat)
    requires at + 4 <= |bs|
    ensures Le32(ReadLe32(bs, at)) == bs[at..at + 4]
  {
    WordDigits(bs[at], bs[at + 1], bs[at + 2], bs[at + 3]);
    hide Word;
    assert bs[at..at + 4] == [bs[at], bs[at + 1], bs[at + 2], bs[at + 3]];
  }

  lemma WordDigits(a: byte, b: byte, c: byte, d: byte)
    ensures var n := Word(a, b, c, d);
            n % 0x100 == a && n / 0x100 % 0x100 == b && n / 0x1_0000 % 0x100 == c && n / 0x100_0000 == d
  {
    var n := Word(a, b, c, d);
    var above: int := c + 0x100 * (d as int);
    assert n / 0x100 == b + 0x100 * above;
    assert n / 0x1_0000 == above;
  }

  lemma ReadLe16Found(n: uint16, bs: seq<byte>, at: nat)
    requires at + 2 <= |bs| && bs[at..at + 2] == Le16(n)
    ensures ReadLe16(bs, at) == n
  {
    var word := bs[at..at + 2];
    assert word[0] == bs[at] && word[1] == bs[at + 1];
  }

  lemma Le16OfRead(bs: seq<byte>, at: nat)
    requires at + 2 <= |bs|
    ensures Le16(ReadLe16(bs, at)) == bs[at..at + 2]
  {
  }
}
