/** Octets, fixed-width unsigned integers and their network-order (big-endian)
    encodings, as `struct.pack`/`struct.unpack` with the `!` prefix lay them out. */
module Bytes {

  type byte = b: int | 0 <= b < 0x100
  type u16 = x: int | 0 <= x < 0x1_0000
  type u32 = x: int | 0 <= x < 0x1_0000_0000

  /** `struct.pack("!H", x)` */
  function Be16(x: u16): (r: seq<byte>)
    ensures |r| == 2
  {
    [x / 0x100, x % 0x100]
  }

  /** `struct.unpack("!H", s[i..i+2])` */
  function ReadBe16(s: seq<byte>, i: nat): u16
    requires i + 2 <= |s|
  {
    (s[i] as int) * 0x100 + s[i + 1]
  }

  /** `struct.pack("!I", x)` */
  function Be32(x: u32): (r: seq<byte>)
    ensures |r| == 4
  {
    [x / 0x100_0000, (x / 0x1_0000) % 0x100, (x / 0x100) % 0x100, x % 0x100]
  }

  /** `struct.unpack("!I", s[i..i+4])` */
  function ReadBe32(s: seq<byte>, i: nat): u32
    requires i + 4 <= |s|
  {
    (s[i] as int) * 0x100_0000 + (s[i + 1] as int) * 0x1_0000 + (s[i + 2] as int) * 0x100 + s[i + 3]
  }

  /** Reading back a packed 16-bit field yields the value packed. */
  lemma Be16RoundTrip(x: u16, pre: seq<byte>, post: seq<byte>)
    ensures ReadBe16(pre + Be16(x) + post, |pre|) == x
  {
    var s := pre + Be16(x) + post;
    assert s[|pre|] == x / 0x100 && s[|pre| + 1] == x % 0x100;
  }

  /** Packing a 16-bit field read from bytes reproduces those bytes. */
  lemma ReadBe16Inverse(s: seq<byte>, i: nat)
    requires i + 2 <= |s|
    ensures Be16(ReadBe16(s, i)) == s[i..i + 2]
  {
  }

  /** Reading back a packed 32-bit field yields the value packed. */
  lemma Be32RoundTrip(x: u32, pre: seq<byte>, post: seq<byte>)
    ensures ReadBe32(pre + Be32(x) + post, |pre|) == x
  {
    var s := pre + Be32(x) + post;
    var k := |pre|;
    var y := x / 0x100;
    var z := y / 0x100;
    SplitLowByte(x, y, x % 0x100);
    SplitLowByte(y, z, y % 0x100);
    SplitLowByte(z, z / 0x100, z % 0x100);
    SplitLowWord(x, z, (y % 0x100) * 0x100 + x % 0x100);
    SplitLowThreeBytes(x, z / 0x100, (z % 0x100) * 0x1_0000 + (y % 0x100) * 0x100 + x % 0x100);
    assert s[k] == z / 0x100 && s[k + 1] == z % 0x100;
    assert s[k + 2] == y % 0x100 && s[k + 3] == x % 0x100;
  }

  /** Packing a 32-bit field read from bytes reproduces those bytes. */
  lemma ReadBe32Inverse(s: seq<byte>, i: nat)
    requires i + 4 <= |s|
    ensures Be32(ReadBe32(s, i)) == s[i..i + 4]
  {
    var a, b, c, d := s[i] as int, s[i + 1] as int, s[i + 2] as int, s[i + 3] as int;
    var x := ReadBe32(s, i) as int;
    var z := a * 0x100 + b;
    var y := z * 0x100 + c;
    assert x == y * 0x100 + d;
    SplitLowByte(x, y, d);
    SplitLowByte(y, z, c);
    SplitLowByte(z, a, b);
    assert x == a * 0x100_0000 + (b * 0x1_0000 + c * 0x100 + d);
    assert x == z * 0x1_0000 + (c * 0x100 + d);
  }

  /** The quotient and remainder of a value split at its low byte. */
  lemma SplitLowByte(x: int, q: int, r: int)
    requires 0 <= r < 0x100 && x == q * 0x100 + r
    ensures x / 0x100 == q && x % 0x100 == r
  {
  }

  /** The quotient of a value split at its low 16 bits. */
  lemma SplitLowWord(x: int, q: int, r: int)
    requires 0 <= r < 0x1_0000 && x == q * 0x1_0000 + r
    ensures x / 0x1_0000 == q
  {
  }

  /** The quotient of a value split at its low 24 bits. */
  lemma SplitLowThreeBytes(x: int, q: int, r: int)
    requires 0 <= r < 0x100_0000 && x == q * 0x100_0000 + r
    ensures x / 0x100_0000 == q
  {
  }
}
