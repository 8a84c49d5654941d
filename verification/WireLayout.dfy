/** Where everything stands on the wire: TCP segments (section 3.1 of RFC 9293), IPv4 datagrams
    (section 3.1 of RFC 791) and the words of their checksums (RFC 1071). */
module WireLayout {
  import opened Words
  import opened Checksums
  import opened TcpSegments
  import opened TcpCodecs
  import opened Ipv4Datagrams

  /** Bytes as one number, the most significant first. */
  function Number(b: seq<byte>): (n: nat) {
    if b == [] then 0 else Number(b[..|b| - 1]) * 0x100 + b[|b| - 1]
  }

  /** Bit `i` of a byte, the least significant being bit zero. */
  predicate BitOf(b: nat, i: nat)
    requires i < 8
  {
    b / WEIGHTS[i] % 2 == 1
  }

  const WEIGHTS: seq<nat> := [1, 2, 4, 8, 16, 32, 64, 128]

  lemma TwoBytes(b: seq<byte>, at: nat)
    requires at + 2 <= |b|
    ensures Number(b[at..at + 2]) == Word(b[at], b[at + 1])
  {
    var c := b[at..at + 2];
    assert c[..1] == [b[at]];
    assert Number([b[at]]) == b[at] by { assert [b[at]][..0] == []; }
  }

  lemma FourBytes(b: seq<byte>, at: nat)
    requires at + 4 <= |b|
    ensures Number(b[at..at + 4]) == Join(Word(b[at], b[at + 1]), Word(b[at + 2], b[at + 3]))
  {
    var c := b[at..at + 4];
    TwoBytes(b, at);
    assert c[..3][..2] == b[at..at + 2];
  }

  /** A checksum adds each byte at its place: the first of every pair counts for 256. */
  function SumByPlace(data: seq<byte>): (sum: nat) {
    if data == [] then 0
    else SumByPlace(data[..|data| - 1]) + data[|data| - 1] as int * (if |data| % 2 == 1 then 0x100 else 1)
  }

  lemma SmallSums(last: byte)
    ensures WordSum([]) == 0 && WordSum([last]) == last * 0x100
  {
  }

  lemma {:induction false} WordSumByPlace(data: seq<byte>)
    ensures WordSum(data) == SumByPlace(data)
    decreases |data|
  {
    hide WordSum;
    if data != [] {
      var front, last := data[..|data| - 1], data[|data| - 1];
      SmallSums(last);
      WordSumByPlace(front);
      assert front + [last] == data;
      if |data| % 2 == 1 {
        WordSumSplit(front, [last]);
      } else {
        var high := front[|front| - 1];
        SmallSums(high);
        OddCompleted(front, last);
        WordSumSplit(front[..|front| - 1], [high]);
        assert front == front[..|front| - 1] + [high];
      }
    } else {
      SmallSums(0);
    }
  }

  /** The example of section 3 of RFC 1071: these bytes add up to DDF2. */
  lemma KnownChecksum()
    ensures ChecksumOf([0x00, 0x01, 0xF2, 0x03, 0xF4, 0xF5, 0xF6, 0xF7]) == 0xFFFF - 0xDDF2
  {
    var data: seq<byte> := [0x00, 0x01, 0xF2, 0x03, 0xF4, 0xF5, 0xF6, 0xF7];
    assert data[2..] == [0xF2, 0x03, 0xF4, 0xF5, 0xF6, 0xF7];
    assert data[2..][2..] == [0xF4, 0xF5, 0xF6, 0xF7];
    assert data[2..][2..][2..] == [0xF6, 0xF7];
    assert data[2..][2..][2..][2..] == [];
    assert WordSum(data) == 0x2_DDF0;
  }

  /** What a TCP checksum covers before the segment: both addresses, zero, protocol 6, the length. */
  lemma PseudoHeaderLayout(src: Address, dst: Address, length: u16)
    ensures var p := PseudoHeader(src, dst, length);
            p[..4] == src && p[4..8] == dst && p[8] == 0 && p[9] == 6 && Number(p[10..12]) == length
  {
    TwoBytes(PseudoHeader(src, dst, length), 10);
  }

  lemma ControlBits(h: TcpHeader)
    ensures High(OffsetAndFlags(h)) == 0x50
    ensures var low := Low(OffsetAndFlags(h));
            && (BitOf(low, 0) <==> h.fin) && (BitOf(low, 1) <==> h.syn) && (BitOf(low, 2) <==> h.rst)
            && !BitOf(low, 3) && (BitOf(low, 4) <==> h.ackno.Some?)
            && !BitOf(low, 5) && !BitOf(low, 6) && !BitOf(low, 7)
  {
    var low := Low(OffsetAndFlags(h));
    assert low == Flags(h);
    hide Flags;
    FlagBits(h);
  }

  lemma FlagBits(h: TcpHeader)
    ensures var low := Flags(h);
            && (BitOf(low, 0) <==> h.fin) && (BitOf(low, 1) <==> h.syn) && (BitOf(low, 2) <==> h.rst)
            && !BitOf(low, 3) && (BitOf(low, 4) <==> h.ackno.Some?)
            && !BitOf(low, 5) && !BitOf(low, 6) && !BitOf(low, 7)
  {
  }

  /** The words of a header, before its bytes are looked at. */
  lemma HeaderWords(h: TcpHeader, b: seq<byte>)
    requires |b| >= HEADER_LEN
    requires forall i :: 0 <= i < CHECKSUM_OFFSET ==> b[i] == HeaderBytes(h)[i]
    ensures Word(b[0], b[1]) == h.srcPort && Word(b[2], b[3]) == h.dstPort
    ensures Join(Word(b[4], b[5]), Word(b[6], b[7])) == h.seqno
    ensures Join(Word(b[8], b[9]), Word(b[10], b[11])) == RawAckno(h)
    ensures b[12] == High(OffsetAndFlags(h)) && b[13] == Low(OffsetAndFlags(h))
    ensures Word(b[14], b[15]) == h.window
  {
    hide Flags, Word, High, Low, Upper, Lower, Join, OffsetAndFlags;
    WordOfHalves(h.srcPort);
    WordOfHalves(h.dstPort);
    WordOfHalves(h.window);
    JoinOfHalves(h.seqno);
    JoinOfHalves(RawAckno(h));
  }

  /** Every field of a serialised segment stands at its place, and every control bit is its own. */
  lemma TcpLayout(s: TcpSegment, src: Address, dst: Address)
    requires Fits(s)
    ensures var b := Serialized(s, src, dst);
            && Number(b[0..2]) == s.header.srcPort && Number(b[2..4]) == s.header.dstPort
            && Number(b[4..8]) == s.header.seqno
            && Number(b[8..12]) == (if s.header.ackno.Some? then s.header.ackno.value else 0)
            && b[12] == 0x50
            && (BitOf(b[13], 0) <==> s.header.fin) && (BitOf(b[13], 1) <==> s.header.syn)
            && (BitOf(b[13], 2) <==> s.header.rst) && !BitOf(b[13], 3)
            && (BitOf(b[13], 4) <==> s.header.ackno.Some?)
            && !BitOf(b[13], 5) && !BitOf(b[13], 6) && !BitOf(b[13], 7)
            && Number(b[14..16]) == s.header.window
            && Number(b[16..18]) == TcpChecksumOf(src, dst, b[16 := 0][17 := 0])
            && Number(b[18..20]) == 0
            && b[20..] == s.payload
  {
    hide TcpChecksumOf, Pow2, Flags, Word, High, Low, Upper, Lower, Join, OffsetAndFlags, BitOf, Number;
    var b := Serialized(s, src, dst);
    var blank := HeaderBytes(s.header) + s.payload;
    HeaderWords(s.header, b);
    ControlBits(s.header);
    TwoBytes(b, 0);
    TwoBytes(b, 2);
    FourBytes(b, 4);
    FourBytes(b, 8);
    TwoBytes(b, 14);
    TwoBytes(b, 16);
    TwoBytes(b, 18);
    assert b[20..] == s.payload;
    assert b[16 := 0][17 := 0] == blank;
    WordOfHalves(TcpChecksumOf(src, dst, blank));
    PatchPutsHalves(blank, 16, TcpChecksumOf(src, dst, blank));
    ZeroWord();
  }

  lemma ZeroWord()
    ensures Word(0, 0) == 0
  {
  }

  lemma PatchPutsHalves(data: seq<byte>, offset: nat, value: u16)
    requires offset + 2 <= |data|
    ensures Patch(data, offset, value)[offset] == High(value) && Patch(data, offset, value)[offset + 1] == Low(value)
    ensures forall i :: 0 <= i < |data| && i != offset && i != offset + 1 ==> Patch(data, offset, value)[i] == data[i]
  {
  }

  /** Every field of a serialised datagram stands at its place. */
  lemma Ipv4Layout(d: Ipv4Datagram)
    requires FitsIpv4(d)
    ensures var b := Ipv4Serialized(d);
            && b[0] == 0x45 && b[1] == 0
            && Number(b[2..4]) == |b|
            && Number(b[4..6]) == d.header.identification && Number(b[6..8]) == d.header.flagsFragmentOffset
            && b[8] == d.header.ttl && b[9] == d.header.protocol
            && Number(b[10..12]) == ChecksumOf(b[..20][10 := 0][11 := 0])
            && b[12..16] == d.header.src && b[16..20] == d.header.dst
            && b[20..] == d.payload
  {
    hide ChecksumOf, Word, High, Low, Number;
    var b := Ipv4Serialized(d);
    var blank := BlankHeader(d.header, |b|);
    PatchPutsHalves(blank, 10, ChecksumOf(blank));
    WordOfHalves(|b|);
    WordOfHalves(d.header.identification);
    WordOfHalves(d.header.flagsFragmentOffset);
    WordOfHalves(ChecksumOf(blank));
    TwoBytes(b, 2);
    TwoBytes(b, 4);
    TwoBytes(b, 6);
    TwoBytes(b, 10);
    assert b[..20][10 := 0][11 := 0] == blank;
    assert b[12..16] == d.header.src && b[16..20] == d.header.dst && b[20..] == d.payload;
  }

  /** Exactly what the reader of a segment makes of any bytes: each error in its order, options skipped,
      and the fields from their places. */
  lemma TcpParseExactly(src: Address, dst: Address, b: seq<byte>)
    requires |b| <= U16_MAX
    ensures Parse(src, dst, b) == Failed(SegmentTooShort) <==> |b| < 20
    ensures |b| >= 20 ==> (Parse(src, dst, b) == Failed(TcpParseError.InvalidChecksum) <==>
                             WordSum(PseudoHeader(src, dst, |b|) + b) % U16_MAX != 0)
    ensures Parse(src, dst, b) == Failed(InvalidDataOffset) <==>
              && |b| >= 20 && WordSum(PseudoHeader(src, dst, |b|) + b) % U16_MAX == 0
              && !(20 <= b[12] / 0x10 * 4 <= |b|)
    ensures Parse(src, dst, b).Parsed? ==>
              var s := Parse(src, dst, b).segment;
              && Number(b[0..2]) == s.header.srcPort && Number(b[2..4]) == s.header.dstPort
              && Number(b[4..8]) == s.header.seqno
              && s.header.ackno == (if BitOf(b[13], 4) then Some(Number(b[8..12])) else None)
              && (BitOf(b[13], 0) <==> s.header.fin) && (BitOf(b[13], 1) <==> s.header.syn)
              && (BitOf(b[13], 2) <==> s.header.rst)
              && Number(b[14..16]) == s.header.window
              && s.payload == b[b[12] / 0x10 * 4..]
  {
    hide WordSum, ChecksumOf, PseudoHeader, ReadHeader, Number, BitOf;
    if |b| >= 20 {
      SumIsPositive(src, dst, b);
      ZeroChecksum(PseudoHeader(src, dst, |b|) + b);
      HeaderReadByPlace(b);
    }
  }

  lemma HeaderReadByPlace(b: seq<byte>)
    requires |b| >= 20
    ensures var h := ReadHeader(b);
            && Number(b[0..2]) == h.srcPort && Number(b[2..4]) == h.dstPort
            && Number(b[4..8]) == h.seqno
            && h.ackno == (if BitOf(b[13], 4) then Some(Number(b[8..12])) else None)
            && (BitOf(b[13], 0) <==> h.fin) && (BitOf(b[13], 1) <==> h.syn) && (BitOf(b[13], 2) <==> h.rst)
            && Number(b[14..16]) == h.window
  {
    hide Word, Join, Number, IsSet, BitOf;
    TwoBytes(b, 0);
    TwoBytes(b, 2);
    FourBytes(b, 4);
    FourBytes(b, 8);
    TwoBytes(b, 14);
    ControlBitsRead(b[12], b[13]);
  }

  lemma ControlBitsRead(high: byte, low: byte)
    ensures var flags := Word(high, low) % 0x200;
            && (IsSet(flags, FIN) <==> BitOf(low, 0)) && (IsSet(flags, SYN) <==> BitOf(low, 1))
            && (IsSet(flags, RST) <==> BitOf(low, 2)) && (IsSet(flags, ACK) <==> BitOf(low, 4))
  {
    hide IsSet, BitOf;
    var flags := Word(high, low) % 0x200;
    assert flags == high % 2 * 0x100 + low;
    LowBits(high % 2, low);
    HigherBits(high % 2, low);
  }

  lemma LowBits(high: nat, low: byte)
    requires high < 2
    ensures IsSet(high * 0x100 + low, FIN) <==> BitOf(low, 0)
    ensures IsSet(high * 0x100 + low, SYN) <==> BitOf(low, 1)
  {
    if high == 1 {
      assert (0x100 + low) / 2 == 0x80 + low / 2;
    }
  }

  lemma HigherBits(high: nat, low: byte)
    requires high < 2
    ensures IsSet(high * 0x100 + low, RST) <==> BitOf(low, 2)
    ensures IsSet(high * 0x100 + low, ACK) <==> BitOf(low, 4)
  {
    if high == 1 {
      assert (0x100 + low) / 4 == 0x40 + low / 4;
      assert (0x100 + low) / 16 == 0x10 + low / 16;
    }
  }

  lemma {:induction false} WordSumAtLeast(data: seq<byte>, i: nat)
    requires i < |data|
    ensures WordSum(data) >= data[i]
    decreases |data|
  {
    if i >= 2 {
      WordSumAtLeast(data[2..], i - 2);
    }
  }

  /** The protocol number alone keeps the sum from being zero. */
  lemma SumIsPositive(src: Address, dst: Address, b: seq<byte>)
    requires |b| <= U16_MAX
    ensures WordSum(PseudoHeader(src, dst, |b|) + b) > 0
  {
    hide WordSum;
    assert PseudoHeader(src, dst, |b|)[9] == 6;
    WordSumAtLeast(PseudoHeader(src, dst, |b|) + b, 9);
  }
}
