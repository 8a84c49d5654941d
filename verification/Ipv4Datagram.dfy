/** IPv4 datagrams on the wire (section 3.1 of RFC 791). */
module Ipv4Datagrams {
  import opened Words
  import opened Checksums
  import opened TcpCodecs

  const IPV4_HEADER_LEN: nat := 20
  const IPV4_CHECKSUM_OFFSET: nat := 10

  datatype Ipv4Header = Ipv4Header(
    src: Address,
    dst: Address,
    ttl: byte,
    protocol: byte,
    identification: u16,
    flagsFragmentOffset: u16)

  datatype Ipv4Datagram = Ipv4Datagram(header: Ipv4Header, payload: seq<byte>)

  datatype Ipv4ParseError =
    | PacketTooShort
    | NotIpv4
    | InvalidHeaderLength
    | InvalidTotalLength
    | InvalidChecksum

  datatype Ipv4Result = Ipv4Parsed(datagram: Ipv4Datagram) | Ipv4Failed(error: Ipv4ParseError)

  predicate FitsIpv4(d: Ipv4Datagram) {
    IPV4_HEADER_LEN + |d.payload| <= U16_MAX
  }

  /** The header of a datagram with its checksum zero. */
  function BlankHeader(h: Ipv4Header, totalLen: u16): (bytes: seq<byte>)
    ensures |bytes| == IPV4_HEADER_LEN
  {
    [0x45, 0, High(totalLen), Low(totalLen),
     High(h.identification), Low(h.identification), High(h.flagsFragmentOffset), Low(h.flagsFragmentOffset),
     h.ttl, h.protocol, 0, 0,
     h.src[0], h.src[1], h.src[2], h.src[3],
     h.dst[0], h.dst[1], h.dst[2], h.dst[3]]
  }

  function WireHeader(h: Ipv4Header, totalLen: u16): (bytes: seq<byte>)
    ensures |bytes| == IPV4_HEADER_LEN
  {
    var blank := BlankHeader(h, totalLen);
    Patch(blank, IPV4_CHECKSUM_OFFSET, ChecksumOf(blank))
  }

  function Ipv4Serialized(d: Ipv4Datagram): (bytes: seq<byte>)
    requires FitsIpv4(d)
    ensures |bytes| == IPV4_HEADER_LEN + |d.payload|
  {
    WireHeader(d.header, IPV4_HEADER_LEN + |d.payload|) + d.payload
  }

  function ReadIpv4Header(p: seq<byte>): (header: Ipv4Header)
    requires |p| >= IPV4_HEADER_LEN
  {
    Ipv4Header(p[12..16], p[16..20], p[8], p[9], Word(p[4], p[5]), Word(p[6], p[7]))
  }

  function ParseIpv4(p: seq<byte>): (result: Ipv4Result) {
    if |p| < IPV4_HEADER_LEN then Ipv4Failed(PacketTooShort)
    else if p[0] / 0x10 != 4 then Ipv4Failed(NotIpv4)
    else
      var headerLen := p[0] % 0x10 * 4;
      if headerLen < IPV4_HEADER_LEN || headerLen > |p| then Ipv4Failed(InvalidHeaderLength)
      else
        var totalLen := Word(p[2], p[3]);
        if totalLen < headerLen || totalLen > |p| then Ipv4Failed(InvalidTotalLength)
        else if ChecksumOf(p[..headerLen]) != 0 then Ipv4Failed(Ipv4ParseError.InvalidChecksum)
        else Ipv4Parsed(Ipv4Datagram(ReadIpv4Header(p), p[headerLen..totalLen]))
  }

  lemma WireHeaderVerifies(h: Ipv4Header, totalLen: u16)
    ensures ChecksumOf(WireHeader(h, totalLen)) == 0
  {
    hide ChecksumOf, Patch;
    var blank := BlankHeader(h, totalLen);
    PatchVerifies([], blank, IPV4_CHECKSUM_OFFSET);
    assert [] + blank == blank;
    assert [] + WireHeader(h, totalLen) == WireHeader(h, totalLen);
  }

  lemma WireHeaderRead(h: Ipv4Header, totalLen: u16, p: seq<byte>)
    requires |p| >= IPV4_HEADER_LEN && p[..IPV4_HEADER_LEN] == WireHeader(h, totalLen)
    ensures ReadIpv4Header(p) == h
    ensures Word(p[2], p[3]) == totalLen && p[0] == 0x45
  {
    hide Word, High, Low, ChecksumOf;
    var wire := WireHeader(h, totalLen);
    assert forall i :: 0 <= i < IPV4_HEADER_LEN ==> p[i] == wire[i];
    WordOfHalves(totalLen);
    WordOfHalves(h.identification);
    WordOfHalves(h.flagsFragmentOffset);
    assert p[12..16] == h.src;
    assert p[16..20] == h.dst;
  }

  /** Parsing a serialised datagram gives it back exactly, even when padding follows it in a frame. */
  lemma Ipv4RoundTrip(d: Ipv4Datagram, padding: seq<byte>)
    requires FitsIpv4(d)
    ensures ParseIpv4(Ipv4Serialized(d) + padding) == Ipv4Parsed(d)
  {
    hide ReadIpv4Header, WireHeader, Word, ChecksumOf;
    var totalLen := IPV4_HEADER_LEN + |d.payload|;
    var p := Ipv4Serialized(d) + padding;
    assert p[..IPV4_HEADER_LEN] == WireHeader(d.header, totalLen);
    WireHeaderVerifies(d.header, totalLen);
    WireHeaderRead(d.header, totalLen, p);
    assert p[IPV4_HEADER_LEN..totalLen] == d.payload;
  }

  /** Whatever parses is short enough to be sent on. */
  lemma ParsedFits(p: seq<byte>)
    ensures ParseIpv4(p).Ipv4Parsed? ==> FitsIpv4(ParseIpv4(p).datagram)
  {
    hide ReadIpv4Header, ChecksumOf;
  }

  /** Builds the header with a blank checksum, patches it in place, and appends the payload. */
  method SerializeIpv4Datagram(d: Ipv4Datagram) returns (buf: seq<byte>)
    requires FitsIpv4(d)
    ensures buf == Ipv4Serialized(d)
    ensures ParseIpv4(buf) == Ipv4Parsed(d)
  {
    hide ParseIpv4, ChecksumOf, High, Low;
    var totalLen := IPV4_HEADER_LEN + |d.payload|;
    buf := [0x45, 0];
    buf := buf + Bytes16(totalLen);
    buf := buf + Bytes16(d.header.identification);
    buf := buf + Bytes16(d.header.flagsFragmentOffset);
    buf := buf + [d.header.ttl, d.header.protocol];
    buf := buf + [0, 0];
    assert buf == BlankHeader(d.header, totalLen)[..12];
    buf := buf + d.header.src;
    buf := buf + d.header.dst;
    assert buf == BlankHeader(d.header, totalLen);
    AccumulatorFits(buf);
    var checksum := ComputeChecksum(buf);
    buf := buf[IPV4_CHECKSUM_OFFSET := checksum / 0x100][IPV4_CHECKSUM_OFFSET + 1 := checksum % 0x100];
    buf := buf + d.payload;
    Ipv4RoundTrip(d, []);
    assert buf + [] == buf;
  }
}
