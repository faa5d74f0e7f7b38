/** The Internet checksum of `checksum` in ping.py, next to the checksum of the
    Echo message of RFC 792 that it is meant to compute: the one's complement of
    the one's-complement sum of 16-bit words (section 1 of RFC 1071), an odd
    length padded at the end with one zero octet.

    The source pairs the bytes into host-order 16-bit words, adds a trailing odd
    byte on its own, truncates to 32 bits, folds the carries back twice,
    complements, and converts the result to network order with `htons`. */
module Checksum {
  import opened Bytes

  /** The host's byte order (`sys.byteorder`). */
  datatype ByteOrder = LittleEndian | BigEndian

  /** The largest IPv4 datagram (the 16-bit total length of RFC 791). Up to this
      length the 32-bit accumulator of the source never truncates. */
  const MaxDatagram := 0xffff

  /** The word the source forms from the pair at offsets 2k and 2k+1: on a
      little-endian host the first byte is the low byte, on a big-endian host
      the high byte. */
  function HostWord(first: byte, second: byte, order: ByteOrder): nat
  {
    match order
    case LittleEndian => (second as int) * 0x100 + first
    case BigEndian => (first as int) * 0x100 + second
  }

  /** The raw sum of the source: host-order words, and a trailing odd byte
      added as a LOW byte whatever the host's byte order. */
  function HostSum(s: seq<byte>, order: ByteOrder): nat
    decreases |s|
  {
    if |s| == 0 then 0
    else if |s| == 1 then s[0]
    else HostWord(s[0], s[1], order) + HostSum(s[2..], order)
  }

  /** Truncation to 32 bits, then the two carry folds of the source. */
  function Fold(sum: nat): nat
  {
    var t := sum % 0x1_0000_0000;
    var f := t / 0x1_0000 + t % 0x1_0000;
    f + f / 0x1_0000
  }

  /** `htons` on a little-endian host: swap the two bytes of a 16-bit value. */
  function Swap16(x: u16): u16
  {
    (x % 0x100) * 0x100 + x / 0x100
  }

  /** Complement the low 16 bits of the folded sum and convert to network
      order. */
  function Finish(sum: nat, order: ByteOrder): (c: u16)
    ensures sum == 0 ==> c == 0xffff
  {
    assert sum == 0 ==> Fold(sum) == 0;
    var answer := 0xffff - Fold(sum) % 0x1_0000;
    match order
    case LittleEndian => Swap16(answer)
    case BigEndian => answer
  }

  /** `checksum(s)` as written, on a host of the given byte order. It is total:
      any length, even or odd, empty included. */
  function HostChecksum(s: seq<byte>, order: ByteOrder): (c: u16)
    ensures |s| == 0 ==> c == 0xffff
  {
    assert |s| == 0 ==> HostSum(s, order) == 0;
    Finish(HostSum(s, order), order)
  }

  // ---------------------------------------------------------------------
  // The reference: RFC 792 (Echo) and section 1 of RFC 1071
  // ---------------------------------------------------------------------

  /** The sum of the data as network-order (big-endian) 16-bit words, an odd
      length padded with a zero byte at the end. */
  function NetSum(s: seq<byte>): nat
    decreases |s|
  {
    if |s| == 0 then 0
    else if |s| == 1 then (s[0] as int) * 0x100
    else (s[0] as int) * 0x100 + s[1] + NetSum(s[2..])
  }

  /** The 16-bit one's-complement value of a sum of words computed with
      end-around carry: 0 for the empty sum, otherwise the representative of
      `sum` modulo 0xffff in 1..0xffff. */
  function OnesSum(sum: nat): u16
  {
    if sum == 0 then 0 else (sum - 1) % 0xffff + 1
  }

  /** The checksum field of RFC 1071 and of the Echo message of RFC 792: the
      one's complement of the one's-complement sum. */
  function RfcChecksum(s: seq<byte>): u16
  {
    0xffff - OnesSum(NetSum(s))
  }

  /** A receiver's check: the one's-complement sum over the whole message,
      checksum field included, is all ones. */
  predicate RfcVerifies(s: seq<byte>)
  {
    OnesSum(NetSum(s)) == 0xffff
  }

  // ---------------------------------------------------------------------
  // The corrected computation: a trailing odd byte is the first byte of a
  // zero-padded word, so on a big-endian host it is the HIGH byte.
  // ---------------------------------------------------------------------

  function FixedSum(s: seq<byte>, order: ByteOrder): nat
    decreases |s|
  {
    if |s| == 0 then 0
    else if |s| == 1 then HostWord(s[0], 0, order)
    else HostWord(s[0], s[1], order) + FixedSum(s[2..], order)
  }

  /** `checksum(s)` with the trailing-byte correction. */
  function FixedChecksum(s: seq<byte>, order: ByteOrder): (c: u16)
    ensures |s| == 0 ==> c == 0xffff
  {
    assert |s| == 0 ==> FixedSum(s, order) == 0;
    Finish(FixedSum(s, order), order)
  }

  // ---------------------------------------------------------------------
  // Arithmetic of the one's-complement representation
  // ---------------------------------------------------------------------

  /** A value in 1..0xffff congruent to a positive sum modulo 0xffff is the
      one's-complement value of that sum. */
  lemma OnesSumUnique(g: int, x: nat, k: int)
    requires 1 <= g <= 0xffff
    requires x > 0 && x == g + 0xffff * k
    ensures OnesSum(x) == g
  {
    var q := (x - 1) / 0xffff;
    var r := (x - 1) % 0xffff;
    assert x - 1 == 0xffff * q + r;
    assert 0xffff * (k - q) == r - (g - 1);
    assert k == q;
  }

  /** A positive sum differs from its one's-complement value by a multiple of
      0xffff. */
  lemma OnesSumCongruent(x: nat)
    requires x > 0
    ensures 1 <= OnesSum(x) <= 0xffff
    ensures x == OnesSum(x) + 0xffff * ((x - 1) / 0xffff)
  {
  }

  /** The two folds of the source compute the one's-complement value of any
      sum that fits in 32 bits. */
  lemma FoldIsOnesSum(x: nat)
    requires x < 0x1_0000_0000
    ensures Fold(x) % 0x1_0000 == OnesSum(x)
  {
    var hi := x / 0x1_0000;
    var lo := x % 0x1_0000;
    var f := hi + lo;
    assert x % 0x1_0000_0000 == x;
    assert x == 0x1_0000 * hi + lo && hi <= 0xffff;
    assert f == x - 0xffff * hi;
    if x == 0 {
    } else if f < 0x1_0000 {
      assert f / 0x1_0000 == 0;
      assert Fold(x) == f;
      OnesSumUnique(f, x, hi);
    } else {
      assert f / 0x1_0000 == 1;
      assert Fold(x) == f + 1;
      assert Fold(x) % 0x1_0000 == f - 0xffff;
      OnesSumUnique(f - 0xffff, x, hi + 1);
    }
  }

  /** `htons` multiplies by 0x100 modulo 0xffff, maps 0 alone to 0 and commutes
      with the complement. */
  lemma Swap16Facts(y: u16)
    ensures 0x100 * y == Swap16(y) + 0xffff * (y / 0x100)
    ensures Swap16(y) == 0 <==> y == 0
    ensures Swap16(0xffff - y) == 0xffff - Swap16(y)
  {
  }

  /** A positive multiple of 0xffff has the one's-complement value 0xffff
      ("negative zero"), the value a checksummed message sums to. */
  lemma ComplementCloses(x: nat)
    ensures OnesSum(x + (0xffff - OnesSum(x))) == 0xffff
  {
    if x == 0 {
      OnesSumUnique(0xffff, 0xffff, 0);
    } else {
      OnesSumCongruent(x);
      var k := (x - 1) / 0xffff;
      OnesSumUnique(0xffff, x + (0xffff - OnesSum(x)), k);
    }
  }

  // ---------------------------------------------------------------------
  // Sums
  // ---------------------------------------------------------------------

  /** The sum of the bytes at even offsets (the first byte of every word). */
  ghost function LeadBytes(s: seq<byte>): nat
    decreases |s|
  {
    if |s| == 0 then 0
    else if |s| == 1 then s[0]
    else s[0] + LeadBytes(s[2..])
  }

  /** Byte-order independence (section 2(B) of RFC 1071): the little-endian word
      sum is 0x100 times the network-order sum modulo 0xffff, and one is zero
      exactly when the other is. */
  lemma {:induction false} SwappedSum(s: seq<byte>)
    ensures 0x100 * NetSum(s) == FixedSum(s, LittleEndian) + 0xffff * LeadBytes(s)
    ensures NetSum(s) == 0 <==> FixedSum(s, LittleEndian) == 0
    decreases |s|
  {
    if |s| >= 2 {
      SwappedSum(s[2..]);
    }
  }

  /** The corrected sum on a big-endian host is the network-order sum. */
  lemma {:induction false} FixedBigEndianIsNetSum(s: seq<byte>)
    ensures FixedSum(s, BigEndian) == NetSum(s)
    decreases |s|
  {
    if |s| >= 2 {
      FixedBigEndianIsNetSum(s[2..]);
    }
  }

  /** The source's sum differs from the corrected one only in how a trailing
      odd byte is weighed: not at all on a little-endian host, and not for
      even lengths. */
  lemma {:induction false} HostSumAgrees(s: seq<byte>, order: ByteOrder)
    requires order == LittleEndian || |s| % 2 == 0
    ensures HostSum(s, order) == FixedSum(s, order)
    decreases |s|
  {
    if |s| >= 2 {
      HostSumAgrees(s[2..], order);
    }
  }

  /** Every word adds at most 0xffff, so no sum exceeds |s| * 0xffff. */
  lemma {:induction false} FixedSumBound(s: seq<byte>, order: ByteOrder)
    ensures FixedSum(s, order) <= |s| * 0xffff
    decreases |s|
  {
    if |s| >= 2 {
      FixedSumBound(s[2..], order);
    }
  }

  /** Network-order sums of an even-length prefix and the rest add up. */
  lemma {:induction false} NetSumAppend(a: seq<byte>, b: seq<byte>)
    requires |a| % 2 == 0
    ensures NetSum(a + b) == NetSum(a) + NetSum(b)
    decreases |a|
  {
    if |a| >= 2 {
      assert (a + b)[2..] == a[2..] + b;
      NetSumAppend(a[2..], b);
    } else {
      assert a + b == b;
    }
  }

  // ---------------------------------------------------------------------
  // The checksum theorems
  // ---------------------------------------------------------------------

  /** The corrected computation is the RFC 1071 checksum on either host. */
  lemma FixedIsRfc(s: seq<byte>, order: ByteOrder)
    requires |s| <= MaxDatagram
    ensures FixedChecksum(s, order) == RfcChecksum(s)
  {
    var b := NetSum(s);
    var l := FixedSum(s, LittleEndian);
    FixedSumBound(s, order);
    FoldIsOnesSum(FixedSum(s, order));
    match order
    case BigEndian =>
      FixedBigEndianIsNetSum(s);
    case LittleEndian =>
      SwappedSum(s);
      var y := OnesSum(l);
      Swap16Facts(y);
      assert FixedChecksum(s, order) == 0xffff - Swap16(y);
      if l > 0 {
        OnesSumCongruent(l);
        var k := (l - 1) / 0xffff;
        assert 0x100 * (y as int) == 0x100 * l - 0xffff * 0x100 * k;
        var m := b - 0x100 * LeadBytes(s) - 0x100 * k - y / 0x100;
        assert Swap16(y) as int == b + 0xffff * m;
        assert b > 0 && 1 <= Swap16(y);
        OnesSumUnique(Swap16(y), b, -m);
      }
  }

  /** On a little-endian host the source computes exactly the RFC 1071
      checksum, already in network order. */
  lemma LittleEndianIsRfc(s: seq<byte>)
    requires |s| <= MaxDatagram
    ensures HostChecksum(s, LittleEndian) == RfcChecksum(s)
  {
    HostSumAgrees(s, LittleEndian);
    FixedIsRfc(s, LittleEndian);
  }

  /** On a big-endian host the source agrees with RFC 1071 for even lengths. */
  lemma BigEndianEvenIsRfc(s: seq<byte>)
    requires |s| <= MaxDatagram && |s| % 2 == 0
    ensures HostChecksum(s, BigEndian) == RfcChecksum(s)
  {
    HostSumAgrees(s, BigEndian);
    FixedIsRfc(s, BigEndian);
  }

  /** On a big-endian host a trailing odd byte is added as a low byte, so the
      one-byte message 0x42 gets 0xffbd where RFC 1071 gives 0xbdff. */
  lemma BigEndianOddDiverges()
    ensures HostChecksum([0x42], BigEndian) == 0xffbd
    ensures RfcChecksum([0x42]) == 0xbdff
  {
    assert HostSum([0x42], BigEndian) == 0x42;
    assert Fold(0x42) == 0x42;
    assert NetSum([0x42]) == 0x4200;
    assert OnesSum(0x4200) == 0x4200;
  }

  /** The loop of `checksum` as written, with its 32-bit truncation and folds. */
  method ComputeChecksum(s: seq<byte>, order: ByteOrder) returns (answer: u16)
    ensures answer == HostChecksum(s, order)
    ensures order == LittleEndian && |s| <= MaxDatagram ==> answer == RfcChecksum(s)
  {
    var countTo := (|s| / 2) * 2;
    var sum := 0;
    var count := 0;
    while count < countTo
      invariant 0 <= count <= countTo && count % 2 == 0
      invariant sum + HostSum(s[count..], order) == HostSum(s, order)
      decreases countTo - count
    {
      var loByte, hiByte;
      if order == LittleEndian {
        loByte := s[count];
        hiByte := s[count + 1];
      } else {
        loByte := s[count + 1];
        hiByte := s[count];
      }
      assert s[count..][2..] == s[count + 2..];
      sum := sum + (hiByte as int * 0x100 + loByte);
      count := count + 2;
    }
    if countTo < |s| {
      assert s[count..] == [s[|s| - 1]];
      sum := sum + s[|s| - 1];
    } else {
      assert s[count..] == [];
    }
    assert sum == HostSum(s, order);
    ghost var raw := sum;
    sum := sum % 0x1_0000_0000;
    sum := sum / 0x1_0000 + sum % 0x1_0000;
    sum := sum + sum / 0x1_0000;
    assert sum == Fold(raw);
    answer := 0xffff - sum % 0x1_0000;
    if order == LittleEndian {
      answer := Swap16(answer);
    }
    assert answer == Finish(raw, order);
    if order == LittleEndian && |s| <= MaxDatagram {
      LittleEndianIsRfc(s);
    }
  }
}
