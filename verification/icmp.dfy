/** The ICMP Echo wire format of ping.py: the Echo Request built by
    `send_one_ping` and the IPv4 + ICMP headers parsed by `receive_one_ping`. */
module Icmp {
  import opened Bytes
  import opened Results
  import opened Checksum

  const IcmpEchoReply: byte := 0
  const IcmpEcho: byte := 8
  /** The first payload byte; byte i of the payload is (0x42 + i) mod 256. */
  const PadStart := 0x42
  const IpHeaderLength := 20
  const IcmpHeaderLength := 8
  /** The IPv4 header and the ICMP header of a received datagram. */
  const ReplyHeadersLength := IpHeaderLength + IcmpHeaderLength

  /** The 8-byte ICMP header, `"!BBHHH"`. */
  datatype IcmpHeader = IcmpHeader(icmpType: byte, code: byte, checksum: u16, identifier: u16, sequence: u16)

  /** The 20-byte IPv4 header without options (section 3.1 of RFC 791),
      `"!BBHHHBBHII"`: version and header length share the first byte, flags
      and fragment offset the fifth and sixth. */
  datatype IpHeader = IpHeader(
    versionIhl: byte, typeOfService: byte, totalLength: u16, identification: u16,
    flagsFragment: u16, ttl: byte, protocol: byte, checksum: u16, source: u32, destination: u32)

  /** A received datagram as `receive_one_ping` reads it. */
  datatype EchoReply = EchoReply(ip: IpHeader, icmp: IcmpHeader, dataSize: nat)

  /** `struct.unpack` raising on a datagram too short for both headers. */
  datatype DecodeError = Truncated(length: nat)

  function EncodeIcmpHeader(h: IcmpHeader): (r: seq<byte>)
    ensures |r| == IcmpHeaderLength
  {
    [h.icmpType, h.code] + Be16(h.checksum) + Be16(h.identifier) + Be16(h.sequence)
  }

  function DecodeIcmpHeader(b: seq<byte>): IcmpHeader
    requires |b| == IcmpHeaderLength
  {
    IcmpHeader(b[0], b[1], ReadBe16(b, 2), ReadBe16(b, 4), ReadBe16(b, 6))
  }

  function EncodeIpHeader(h: IpHeader): (r: seq<byte>)
    ensures |r| == IpHeaderLength
  {
    [h.versionIhl, h.typeOfService] + Be16(h.totalLength) + Be16(h.identification)
    + Be16(h.flagsFragment) + [h.ttl, h.protocol] + Be16(h.checksum)
    + Be32(h.source) + Be32(h.destination)
  }

  function DecodeIpHeader(b: seq<byte>): IpHeader
    requires |b| == IpHeaderLength
  {
    IpHeader(b[0], b[1], ReadBe16(b, 2), ReadBe16(b, 4), ReadBe16(b, 6), b[8], b[9],
             ReadBe16(b, 10), ReadBe32(b, 12), ReadBe32(b, 16))
  }

  lemma IcmpHeaderRoundTrip(h: IcmpHeader)
    ensures DecodeIcmpHeader(EncodeIcmpHeader(h)) == h
  {
    var b := EncodeIcmpHeader(h);
    Be16RoundTrip(h.checksum, [h.icmpType, h.code], Be16(h.identifier) + Be16(h.sequence));
    assert b == [h.icmpType, h.code] + Be16(h.checksum) + (Be16(h.identifier) + Be16(h.sequence));
    Be16RoundTrip(h.identifier, [h.icmpType, h.code] + Be16(h.checksum), Be16(h.sequence));
    Be16RoundTrip(h.sequence, [h.icmpType, h.code] + Be16(h.checksum) + Be16(h.identifier), []);
    assert b == [h.icmpType, h.code] + Be16(h.checksum) + Be16(h.identifier) + Be16(h.sequence) + [];
  }

  lemma IcmpHeaderBytesRoundTrip(b: seq<byte>)
    requires |b| == IcmpHeaderLength
    ensures EncodeIcmpHeader(DecodeIcmpHeader(b)) == b
  {
    ReadBe16Inverse(b, 2);
    ReadBe16Inverse(b, 4);
    ReadBe16Inverse(b, 6);
    assert b == b[..2] + b[2..4] + b[4..6] + b[6..8];
  }

  lemma IpHeaderRoundTrip(h: IpHeader)
    ensures DecodeIpHeader(EncodeIpHeader(h)) == h
  {
    var b := EncodeIpHeader(h);
    var p0 := [h.versionIhl, h.typeOfService];
    var p1 := p0 + Be16(h.totalLength);
    var p2 := p1 + Be16(h.identification);
    var p3 := p2 + Be16(h.flagsFragment) + [h.ttl, h.protocol];
    var p4 := p3 + Be16(h.checksum);
    var p5 := p4 + Be32(h.source);
    assert b == p5 + Be32(h.destination);
    Be16RoundTrip(h.totalLength, p0, b[4..]);
    assert b == p0 + Be16(h.totalLength) + b[4..];
    Be16RoundTrip(h.identification, p1, b[6..]);
    assert b == p1 + Be16(h.identification) + b[6..];
    Be16RoundTrip(h.flagsFragment, p2, b[8..]);
    assert b == p2 + Be16(h.flagsFragment) + b[8..];
    Be16RoundTrip(h.checksum, p3, b[12..]);
    assert b == p3 + Be16(h.checksum) + b[12..];
    Be32RoundTrip(h.source, p4, b[16..]);
    assert b == p4 + Be32(h.source) + b[16..];
    Be32RoundTrip(h.destination, p5, []);
    assert b == p5 + Be32(h.destination) + [];
  }

  lemma IpHeaderBytesRoundTrip(b: seq<byte>)
    requires |b| == IpHeaderLength
    ensures EncodeIpHeader(DecodeIpHeader(b)) == b
  {
    ReadBe16Inverse(b, 2);
    ReadBe16Inverse(b, 4);
    ReadBe16Inverse(b, 6);
    ReadBe16Inverse(b, 10);
    ReadBe32Inverse(b, 12);
    ReadBe32Inverse(b, 16);
    assert b == b[..2] + b[2..4] + b[4..6] + b[6..8] + b[8..10] + b[10..12] + b[12..16] + b[16..20];
  }

  // ---------------------------------------------------------------------
  // Echo Request
  // ---------------------------------------------------------------------

  /** The Echo Request header: type 8, code 0. */
  function EchoHeader(checksum: u16, id: u16, sequence: u16): seq<byte>
  {
    EncodeIcmpHeader(IcmpHeader(IcmpEcho, 0, checksum, id, sequence))
  }

  /** The payload: `numDataBytes` bytes counting up from 0x42, kept in 0..255. */
  function PadBytes(n: nat): seq<byte>
  {
    seq(n, i => (PadStart + i) % 0x100)
  }

  /** A request with the given checksum field. */
  function Packet(checksum: u16, id: u16, sequence: u16, n: nat): seq<byte>
  {
    EchoHeader(checksum, id, sequence) + PadBytes(n)
  }

  /** The layout of any request: header fields at their offsets in network
      order, then the counting payload. */
  ghost predicate RequestLayout(p: seq<byte>, id: u16, sequence: u16, n: nat)
  {
    && |p| == IcmpHeaderLength + n
    && p[0] == IcmpEcho && p[1] == 0
    && ReadBe16(p, 4) == id && ReadBe16(p, 6) == sequence
    && forall i :: IcmpHeaderLength <= i < |p| ==> p[i] == (PadStart + i - IcmpHeaderLength) % 0x100
  }

  lemma PacketLayout(c: u16, id: u16, sequence: u16, n: nat)
    ensures RequestLayout(Packet(c, id, sequence, n), id, sequence, n)
    ensures ReadBe16(Packet(c, id, sequence, n), 2) == c
    ensures forall i :: 0 <= i < |Packet(c, id, sequence, n)| && i != 2 && i != 3 ==>
              Packet(c, id, sequence, n)[i] == Packet(0, id, sequence, n)[i]
  {
    var h := IcmpHeader(IcmpEcho, 0, c, id, sequence);
    IcmpHeaderRoundTrip(h);
    assert Packet(c, id, sequence, n)[..8] == EncodeIcmpHeader(h);
  }

  /** `send_one_ping` as written: the checksum of the zero-checksum header and
      the payload, computed by `checksum` on a host of the given byte order,
      patched into the header. */
  function EncodeRequestAsWritten(order: ByteOrder, id: u16, sequence: u16, n: nat): (p: seq<byte>)
    ensures RequestLayout(p, id, sequence, n)
    ensures ReadBe16(p, 2) == HostChecksum(Packet(0, id, sequence, n), order)
  {
    var c := HostChecksum(Packet(0, id, sequence, n), order);
    PacketLayout(c, id, sequence, n);
    Packet(c, id, sequence, n)
  }

  /** `send_one_ping` with the checksum's trailing-byte correction. On a
      little-endian host this is the source's request (EncodeRequestAgrees). */
  function EncodeRequest(order: ByteOrder, id: u16, sequence: u16, n: nat): (p: seq<byte>)
    ensures RequestLayout(p, id, sequence, n)
    ensures ReadBe16(p, 2) == FixedChecksum(Packet(0, id, sequence, n), order)
    ensures forall i :: 0 <= i < |p| && i != 2 && i != 3 ==> p[i] == Packet(0, id, sequence, n)[i]
  {
    var c := FixedChecksum(Packet(0, id, sequence, n), order);
    PacketLayout(c, id, sequence, n);
    Packet(c, id, sequence, n)
  }

  /** The network-order sum of a request is the dummy's sum plus the checksum
      field: the header words are 0x0800, the checksum, the id and the
      sequence. */
  lemma PacketSum(c: u16, id: u16, sequence: u16, n: nat)
    ensures NetSum(Packet(c, id, sequence, n)) == NetSum(Packet(0, id, sequence, n)) + c
  {
    var h := EchoHeader(c, id, sequence);
    var h0 := EchoHeader(0, id, sequence);
    NetSumAppend(h, PadBytes(n));
    NetSumAppend(h0, PadBytes(n));
    PacketLayout(c, id, sequence, n);
    PacketLayout(0, id, sequence, n);
    assert Packet(c, id, sequence, n)[..8] == h;
    assert Packet(0, id, sequence, n)[..8] == h0;
    HeaderSum(h);
    HeaderSum(h0);
  }

  /** The network-order sum of an 8-byte header is the sum of its four words. */
  lemma HeaderSum(h: seq<byte>)
    requires |h| == IcmpHeaderLength
    ensures NetSum(h) == ReadBe16(h, 0) + ReadBe16(h, 2) + ReadBe16(h, 4) + ReadBe16(h, 6)
  {
    assert h[2..][2..][2..][2..] == [];
    assert NetSum(h[2..][2..][2..]) == ReadBe16(h, 6);
    assert NetSum(h[2..][2..]) == ReadBe16(h, 4) + ReadBe16(h, 6);
    assert NetSum(h[2..]) == ReadBe16(h, 2) + ReadBe16(h, 4) + ReadBe16(h, 6);
  }

  /** Self-verification: a request checked by an RFC 1071 receiver sums to all
      ones, on either host, once the checksum is computed correctly. */
  lemma EncodeRequestVerifies(order: ByteOrder, id: u16, sequence: u16, n: nat)
    requires IcmpHeaderLength + n <= MaxDatagram
    ensures RfcVerifies(EncodeRequest(order, id, sequence, n))
  {
    var p0 := Packet(0, id, sequence, n);
    FixedIsRfc(p0, order);
    PacketSum(RfcChecksum(p0), id, sequence, n);
    ComplementCloses(NetSum(p0));
  }

  /** The source's request is the corrected one on a little-endian host, and on
      a big-endian host whenever the payload length is even. */
  lemma EncodeRequestAgrees(order: ByteOrder, id: u16, sequence: u16, n: nat)
    requires order == LittleEndian || n % 2 == 0
    ensures EncodeRequestAsWritten(order, id, sequence, n) == EncodeRequest(order, id, sequence, n)
  {
    HostSumAgrees(Packet(0, id, sequence, n), order);
  }

  /** On a little-endian host, `checksum` run over the request it built returns
      0, the check RFC 792 asks of the receiver. */
  lemma AsWrittenSelfChecks(id: u16, sequence: u16, n: nat)
    requires IcmpHeaderLength + n <= MaxDatagram
    ensures HostChecksum(EncodeRequestAsWritten(LittleEndian, id, sequence, n), LittleEndian) == 0
  {
    EncodeRequestAgrees(LittleEndian, id, sequence, n);
    EncodeRequestVerifies(LittleEndian, id, sequence, n);
    LittleEndianIsRfc(EncodeRequest(LittleEndian, id, sequence, n));
  }

  /** On a big-endian host a request with a one-byte payload carries a checksum
      an RFC 1071 receiver rejects. */
  lemma AsWrittenBigEndianOddRejected()
    ensures !RfcVerifies(EncodeRequestAsWritten(BigEndian, 0, 0, 1))
  {
    OddDummyChecksum();
    var p := EncodeRequestAsWritten(BigEndian, 0, 0, 1);
    assert p == Packet(0xf7bd, 0, 0, 1);
    assert EchoHeader(0xf7bd, 0, 0) == [8, 0, 0xf7, 0xbd, 0, 0, 0, 0];
    assert p == [8, 0, 0xf7, 0xbd, 0, 0, 0, 0, 0x42];
    assert p[2..][2..][2..][2..] == [0x42];
    assert NetSum(p) == 0x800 + 0xf7bd + NetSum(p[2..][2..][2..][2..]);
    assert OnesSum(0x141bd) == 0x41be;
  }

  /** The big-endian host's checksum of the zero-checksum request with
      identifier 0, sequence 0 and a one-byte payload. */
  lemma OddDummyChecksum()
    ensures HostChecksum(Packet(0, 0, 0, 1), BigEndian) == 0xf7bd
  {
    var dummy := Packet(0, 0, 0, 1);
    assert PadBytes(1) == [0x42];
    assert EchoHeader(0, 0, 0) == [8, 0, 0, 0, 0, 0, 0, 0];
    assert dummy == [8, 0, 0, 0, 0, 0, 0, 0, 0x42];
    assert dummy[2..][2..][2..][2..] == [0x42];
    assert HostSum(dummy, BigEndian) == 0x800 + HostSum(dummy[2..][2..][2..][2..], BigEndian);
    assert Fold(0x842) == 0x842;
  }

  // ---------------------------------------------------------------------
  // Reply decoding
  // ---------------------------------------------------------------------

  /** The parse of lines 165-179: bytes 0..20 as the IPv4 header, 20..28 as the
      ICMP header, the rest as data. Fewer than 28 bytes make `struct.unpack`
      raise. Neither checksum is validated and the ICMP type is not checked. */
  function DecodeReply(p: seq<byte>): (r: Result<EchoReply, DecodeError>)
    ensures r.Err? <==> |p| < ReplyHeadersLength
    ensures r.Err? ==> r.error == Truncated(|p|)
    ensures r.Ok? ==> && r.value.ip.ttl == p[8]
                      && r.value.ip.source == ReadBe32(p, 12)
                      && r.value.icmp.identifier == ReadBe16(p, 24)
                      && r.value.icmp.sequence == ReadBe16(p, 26)
                      && r.value.dataSize == |p| - ReplyHeadersLength
  {
    if |p| < ReplyHeadersLength then Err(Truncated(|p|))
    else
      Ok(EchoReply(DecodeIpHeader(p[..IpHeaderLength]),
                   DecodeIcmpHeader(p[IpHeaderLength..ReplyHeadersLength]),
                   |p| - ReplyHeadersLength))
  }

  /** Decoding recovers the headers and the payload length of any datagram
      assembled from them. */
  lemma DecodeReplyRoundTrip(ip: IpHeader, icmp: IcmpHeader, payload: seq<byte>)
    ensures DecodeReply(EncodeIpHeader(ip) + EncodeIcmpHeader(icmp) + payload)
            == Ok(EchoReply(ip, icmp, |payload|))
  {
    var p := EncodeIpHeader(ip) + EncodeIcmpHeader(icmp) + payload;
    assert p[..IpHeaderLength] == EncodeIpHeader(ip);
    assert p[IpHeaderLength..ReplyHeadersLength] == EncodeIcmpHeader(icmp);
    IpHeaderRoundTrip(ip);
    IcmpHeaderRoundTrip(icmp);
  }

  /** A request with any checksum field, behind any 20-byte IPv4 header,
      decodes to type 8, code 0, that checksum, the request's identifier and
      sequence, and a data size equal to the payload length. Both encoders
      build such a request: the source's on either host, odd payloads
      included, and the corrected one. */
  lemma DecodeEncodedRequest(ipBytes: seq<byte>, c: u16, id: u16, sequence: u16, n: nat)
    requires |ipBytes| == IpHeaderLength
    ensures DecodeReply(ipBytes + Packet(c, id, sequence, n))
            == Ok(EchoReply(DecodeIpHeader(ipBytes), IcmpHeader(IcmpEcho, 0, c, id, sequence), n))
    ensures forall order :: DecodeReply(ipBytes + EncodeRequestAsWritten(order, id, sequence, n))
              == Ok(EchoReply(DecodeIpHeader(ipBytes),
                              IcmpHeader(IcmpEcho, 0, HostChecksum(Packet(0, id, sequence, n), order), id, sequence), n))
    ensures forall order :: DecodeReply(ipBytes + EncodeRequest(order, id, sequence, n))
              == Ok(EchoReply(DecodeIpHeader(ipBytes),
                              IcmpHeader(IcmpEcho, 0, FixedChecksum(Packet(0, id, sequence, n), order), id, sequence), n))
  {
    forall order: ByteOrder
      ensures DecodeReply(ipBytes + EncodeRequestAsWritten(order, id, sequence, n))
              == Ok(EchoReply(DecodeIpHeader(ipBytes),
                              IcmpHeader(IcmpEcho, 0, HostChecksum(Packet(0, id, sequence, n), order), id, sequence), n))
      ensures DecodeReply(ipBytes + EncodeRequest(order, id, sequence, n))
              == Ok(EchoReply(DecodeIpHeader(ipBytes),
                              IcmpHeader(IcmpEcho, 0, FixedChecksum(Packet(0, id, sequence, n), order), id, sequence), n))
    {
      DecodedPacket(ipBytes, HostChecksum(Packet(0, id, sequence, n), order), id, sequence, n);
      DecodedPacket(ipBytes, FixedChecksum(Packet(0, id, sequence, n), order), id, sequence, n);
    }
    DecodedPacket(ipBytes, c, id, sequence, n);
  }

  lemma DecodedPacket(ipBytes: seq<byte>, c: u16, id: u16, sequence: u16, n: nat)
    requires |ipBytes| == IpHeaderLength
    ensures DecodeReply(ipBytes + Packet(c, id, sequence, n))
            == Ok(EchoReply(DecodeIpHeader(ipBytes), IcmpHeader(IcmpEcho, 0, c, id, sequence), n))
  {
    var icmp := IcmpHeader(IcmpEcho, 0, c, id, sequence);
    IpHeaderBytesRoundTrip(ipBytes);
    DecodeReplyRoundTrip(DecodeIpHeader(ipBytes), icmp, PadBytes(n));
    assert ipBytes + Packet(c, id, sequence, n)
        == EncodeIpHeader(DecodeIpHeader(ipBytes)) + EncodeIcmpHeader(icmp) + PadBytes(n);
  }
}
