/** TCP segments on the wire (section 3.1 of RFC 9293). */
module TcpCodecs {
  import opened Words
  import opened Checksums
  import opened TcpSegments

  const HEADER_LEN: nat := 20
  const CHECKSUM_OFFSET: nat := 16

  const FIN: nat := 0x001
  const SYN: nat := 0x002
  const RST: nat := 0x004
  const ACK: nat := 0x010

  datatype TcpParseError = SegmentTooShort | InvalidDataOffset | InvalidChecksum

  datatype ParseResult = Parsed(segment: TcpSegment) | Failed(error: TcpParseError)

  function High(v: u16): (half: byte) {
    v / 0x100
  }

  function Low(v: u16): (half: byte) {
    v % 0x100
  }

  /** The two 16-bit halves of a 32-bit number. */
  function Upper(v: u32): (half: u16) {
    v / 0x1_0000
  }

  function Lower(v: u32): (half: u16) {
    v % 0x1_0000
  }

  function Join(upper: u16, lower: u16): (value: u32) {
    upper * 0x1_0000 + lower
  }

  /** The control bits of a header; each contributes its own binary digit. */
  function Flags(h: TcpHeader): (bits: nat) {
    (if h.fin then FIN else 0) + (if h.syn then SYN else 0) + (if h.rst then RST else 0)
    + (if h.ackno.Some? then ACK else 0)
  }

  predicate IsSet(flags: nat, bit: nat)
    requires bit > 0
  {
    flags / bit % 2 == 1
  }

  /** The data offset of five words, and the control bits. */
  function OffsetAndFlags(h: TcpHeader): (word: u16) {
    5 * 0x1000 + Flags(h)
  }

  function RawAckno(h: TcpHeader): (ackno: u32) {
    if h.ackno.Some? then h.ackno.value else 0
  }

  /** The header with its checksum and urgent pointer zero. */
  function HeaderBytes(h: TcpHeader): (bytes: seq<byte>)
    ensures |bytes| == HEADER_LEN
  {
    var ackno := RawAckno(h);
    [High(h.srcPort), Low(h.srcPort), High(h.dstPort), Low(h.dstPort),
     High(Upper(h.seqno)), Low(Upper(h.seqno)), High(Lower(h.seqno)), Low(Lower(h.seqno)),
     High(Upper(ackno)), Low(Upper(ackno)), High(Lower(ackno)), Low(Lower(ackno)),
     High(OffsetAndFlags(h)), Low(OffsetAndFlags(h)), High(h.window), Low(h.window),
     0, 0, 0, 0]
  }

  predicate Fits(s: TcpSegment) {
    HEADER_LEN + |s.payload| <= U16_MAX
  }

  function Serialized(s: TcpSegment, src: Address, dst: Address): (bytes: seq<byte>)
    requires Fits(s)
    ensures |bytes| == HEADER_LEN + |s.payload|
  {
    var blank := HeaderBytes(s.header) + s.payload;
    Patch(blank, CHECKSUM_OFFSET, TcpChecksumOf(src, dst, blank))
  }

  /** The header fields of a segment of at least twenty bytes. */
  function ReadHeader(b: seq<byte>): (header: TcpHeader)
    requires |b| >= HEADER_LEN
  {
    var flags := Word(b[12], b[13]) % 0x200;
    var ackno := Join(Word(b[8], b[9]), Word(b[10], b[11]));
    TcpHeader(
      Word(b[0], b[1]), Word(b[2], b[3]),
      Join(Word(b[4], b[5]), Word(b[6], b[7])),
      if IsSet(flags, ACK) then Some(ackno) else None,
      Word(b[14], b[15]),
      IsSet(flags, SYN), IsSet(flags, FIN), IsSet(flags, RST))
  }

  function Parse(src: Address, dst: Address, b: seq<byte>): (result: ParseResult)
    requires |b| <= U16_MAX
  {
    if |b| < HEADER_LEN then Failed(SegmentTooShort)
    else if TcpChecksumOf(src, dst, b) != 0 then Failed(InvalidChecksum)
    else
      var headerLen := b[12] / 0x10 * 4;
      if headerLen < HEADER_LEN || headerLen > |b| then Failed(InvalidDataOffset)
      else Parsed(TcpSegment(ReadHeader(b), b[headerLen..]))
  }

  lemma WordOfHalves(v: u16)
    ensures Word(High(v), Low(v)) == v
  {
  }

  lemma JoinOfHalves(v: u32)
    ensures Join(Word(High(Upper(v)), Low(Upper(v))), Word(High(Lower(v)), Low(Lower(v)))) == v
  {
    WordOfHalves(Upper(v));
    WordOfHalves(Lower(v));
  }

  lemma FlagsRead(h: TcpHeader)
    ensures OffsetAndFlags(h) % 0x200 == Flags(h) && High(OffsetAndFlags(h)) / 0x10 == 5
    ensures IsSet(Flags(h), FIN) == h.fin && IsSet(Flags(h), SYN) == h.syn
    ensures IsSet(Flags(h), RST) == h.rst && IsSet(Flags(h), ACK) == h.ackno.Some?
  {
  }

  /** Reading a header back from its bytes, whatever the checksum field and the payload hold. */
  lemma HeaderRoundTrip(h: TcpHeader, b: seq<byte>)
    requires |b| >= HEADER_LEN
    requires forall i :: 0 <= i < CHECKSUM_OFFSET ==> b[i] == HeaderBytes(h)[i]
    ensures ReadHeader(b) == h
    ensures b[12] / 0x10 == 5
  {
    hide Flags, IsSet, Word, High, Low, Upper, Lower, Join, OffsetAndFlags;
    FlagsRead(h);
    WordOfHalves(h.srcPort);
    WordOfHalves(h.dstPort);
    WordOfHalves(h.window);
    WordOfHalves(OffsetAndFlags(h));
    JoinOfHalves(h.seqno);
    JoinOfHalves(RawAckno(h));
  }

  /** A serialised segment verifies. */
  lemma SerializedVerifies(s: TcpSegment, src: Address, dst: Address)
    requires Fits(s)
    ensures TcpChecksumOf(src, dst, Serialized(s, src, dst)) == 0
  {
    hide ChecksumOf, Patch;
    var blank := HeaderBytes(s.header) + s.payload;
    PatchVerifies(PseudoHeader(src, dst, |blank|), blank, CHECKSUM_OFFSET);
  }

  /** Parsing a serialised segment under the same addresses gives the segment back exactly. */
  lemma CodecRoundTrip(s: TcpSegment, src: Address, dst: Address)
    requires Fits(s)
    ensures Parse(src, dst, Serialized(s, src, dst)) == Parsed(s)
  {
    hide ReadHeader, TcpChecksumOf, HeaderBytes;
    SerializedVerifies(s, src, dst);
    var b := Serialized(s, src, dst);
    HeaderRoundTrip(s.header, b);
    assert b[HEADER_LEN..] == s.payload;
  }

  /** Any single inverted bit of a serialised segment is detected. */
  lemma CorruptionDetected(s: TcpSegment, src: Address, dst: Address, i: nat, bit: nat)
    requires Fits(s) && bit < 8
    requires i < HEADER_LEN + |s.payload|
    ensures var b := Serialized(s, src, dst);
            Parse(src, dst, b[i := Flip(b[i], bit)]) == Failed(InvalidChecksum)
  {
    SerializedVerifies(s, src, dst);
    hide Serialized, ChecksumOf, Flip, PseudoHeader;
    var b := Serialized(s, src, dst);
    var pseudo := PseudoHeader(src, dst, |b|);
    BitFlipDetected(pseudo + b, |pseudo| + i, bit);
    assert (pseudo + b)[|pseudo| + i := Flip(b[i], bit)] == pseudo + b[i := Flip(b[i], bit)];
  }

  function Bytes16(v: u16): (bytes: seq<byte>) {
    [High(v), Low(v)]
  }

  function Bytes32(v: u32): (bytes: seq<byte>) {
    Bytes16(Upper(v)) + Bytes16(Lower(v))
  }

  /** The control bits, collected one by one. */
  method CollectFlags(h: TcpHeader) returns (flags: nat)
    ensures flags == Flags(h) < 0x200
  {
    flags := 0;
    if h.fin {
      flags := flags + FIN;
    }
    if h.syn {
      flags := flags + SYN;
    }
    if h.rst {
      flags := flags + RST;
    }
    if h.ackno.Some? {
      flags := flags + ACK;
    }
  }

  method WriteHeader(h: TcpHeader) returns (buf: seq<byte>)
    ensures buf == HeaderBytes(h)
  {
    hide Flags, High, Low, Upper, Lower;
    buf := Bytes16(h.srcPort);
    buf := buf + Bytes16(h.dstPort);
    buf := buf + Bytes32(h.seqno);
    buf := buf + Bytes32(if h.ackno.Some? then h.ackno.value else 0);
    assert buf == HeaderBytes(h)[..12];
    var flags := CollectFlags(h);
    buf := buf + Bytes16(5 * 0x1000 + flags % 0x200);
    buf := buf + Bytes16(h.window);
    buf := buf + [0, 0];
    buf := buf + [0, 0];
  }

  /** Builds the segment with a blank checksum and then patches it in place. */
  method SerializeIpv4(s: TcpSegment, src: Address, dst: Address) returns (buf: seq<byte>)
    requires Fits(s)
    ensures buf == Serialized(s, src, dst)
    ensures Parse(src, dst, buf) == Parsed(s)
  {
    hide Parse, TcpChecksumOf, HeaderBytes;
    buf := WriteHeader(s.header);
    buf := buf + s.payload;
    var checksum := TcpChecksumIpv4(src, dst, buf);
    buf := buf[CHECKSUM_OFFSET := checksum / 0x100][CHECKSUM_OFFSET + 1 := checksum % 0x100];
    CodecRoundTrip(s, src, dst);
  }
}
