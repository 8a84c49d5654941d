/** The other way round: what is read from the wire and written again. */
module Reserialising {
  import opened Words
  import opened Checksums
  import opened TcpSegments
  import opened TcpCodecs
  import opened Ipv4Datagrams
  import opened WireLayout

  lemma Congruent(n: nat, a: u16, b: u16)
    requires (n + a) % U16_MAX == 0 && (n + b) % U16_MAX == 0 && b < U16_MAX
    ensures a == b || (a == U16_MAX && b == 0)
  {
    var p, q := (n + a) / U16_MAX, (n + b) / U16_MAX;
    assert n + a == p * U16_MAX && n + b == q * U16_MAX;
    assert a - b == (p - q) * U16_MAX;
  }

  /** Two values of a checksum field verify when its own is zero: the one that is written, and all ones. */
  lemma ChecksumUnique(prefix: seq<byte>, blank: seq<byte>, offset: nat, c: u16)
    requires |prefix| % 2 == 0 && offset + 2 <= |blank| && offset % 2 == 0
    requires blank[offset] == 0 && blank[offset + 1] == 0
    requires ChecksumOf(prefix + Patch(blank, offset, c)) == 0 && WordSum(prefix + blank) > 0
    ensures c == ChecksumOf(prefix + blank) <==> c != U16_MAX
  {
    hide WordSum, Patch;
    ZeroChecksum(prefix + Patch(blank, offset, c));
    WordSumSplit(prefix, blank);
    WordSumSplit(prefix, Patch(blank, offset, c));
    PatchedSum(blank, offset, c);
    ComplementFolds(WordSum(prefix + blank));
    Congruent(WordSum(prefix + blank), c, ChecksumOf(prefix + blank));
  }

  /** Exactly what the reader of a datagram makes of any bytes: each error in its order, options skipped,
      padding ignored, and the fields from their places. */
  lemma Ipv4ParseExactly(p: seq<byte>)
    ensures ParseIpv4(p) == Ipv4Failed(PacketTooShort) <==> |p| < 20
    ensures ParseIpv4(p) == Ipv4Failed(NotIpv4) <==> |p| >= 20 && p[0] / 0x10 != 4
    ensures ParseIpv4(p) == Ipv4Failed(InvalidHeaderLength)
       <==> |p| >= 20 && p[0] / 0x10 == 4 && !(20 <= p[0] % 0x10 * 4 <= |p|)
    ensures ParseIpv4(p) == Ipv4Failed(InvalidTotalLength)
       <==> |p| >= 20 && p[0] / 0x10 == 4 && 20 <= p[0] % 0x10 * 4 <= |p|
            && !(p[0] % 0x10 * 4 <= Number(p[2..4]) <= |p|)
    ensures ParseIpv4(p) == Ipv4Failed(Ipv4ParseError.InvalidChecksum)
       <==> |p| >= 20 && p[0] / 0x10 == 4 && 20 <= p[0] % 0x10 * 4 <= |p|
            && p[0] % 0x10 * 4 <= Number(p[2..4]) <= |p|
            && WordSum(p[..p[0] % 0x10 * 4]) % U16_MAX != 0
    ensures ParseIpv4(p).Ipv4Parsed? ==>
              var d := ParseIpv4(p).datagram;
              && d.header.src == p[12..16] && d.header.dst == p[16..20]
              && d.header.ttl == p[8] && d.header.protocol == p[9]
              && d.header.identification == Number(p[4..6]) && d.header.flagsFragmentOffset == Number(p[6..8])
              && d.payload == p[p[0] % 0x10 * 4..Number(p[2..4])]
  {
    hide WordSum, ChecksumOf, Number;
    if |p| >= 20 {
      TwoBytes(p, 2);
      TwoBytes(p, 4);
      TwoBytes(p, 6);
      var headerLen := p[0] % 0x10 * 4;
      if p[0] / 0x10 == 4 && 20 <= headerLen <= |p| {
        WordSumAtLeast(p[..headerLen], 0);
        ZeroChecksum(p[..headerLen]);
      }
    }
  }

  /** A header without options, read and put together again around its own checksum field. */
  lemma HeaderPutTogether(p: seq<byte>)
    requires |p| >= 20 && p[0] == 0x45 && p[1] == 0
    ensures Patch(BlankHeader(ReadIpv4Header(p), Word(p[2], p[3])), 10, Word(p[10], p[11])) == p[..20]
  {
    HalvesOfWord(p[2], p[3]);
    HalvesOfWord(p[4], p[5]);
    HalvesOfWord(p[6], p[7]);
    HalvesOfWord(p[10], p[11]);
    hide Word, High, Low;
    var blank := BlankHeader(ReadIpv4Header(p), Word(p[2], p[3]));
    PatchPutsHalves(blank, 10, Word(p[10], p[11]));
    forall i | 0 <= i < 20
      ensures Patch(blank, 10, Word(p[10], p[11]))[i] == p[..20][i]
    {
    }
  }

  lemma HeaderRewritten(p: seq<byte>)
    requires |p| >= 20 && p[0] == 0x45 && p[1] == 0 && ChecksumOf(p[..20]) == 0
    ensures WireHeader(ReadIpv4Header(p), Word(p[2], p[3])) == p[..20] <==> Word(p[10], p[11]) != U16_MAX
  {
    hide ChecksumOf, WordSum, Patch, Word;
    var blank, c := BlankHeader(ReadIpv4Header(p), Word(p[2], p[3])), Word(p[10], p[11]);
    HeaderPutTogether(p);
    assert [] + Patch(blank, 10, c) == p[..20] && [] + blank == blank;
    WordSumAtLeast(blank, 0);
    ChecksumUnique([], blank, 10, c);
    SameChecksum(blank, 10, c, ChecksumOf(blank));
  }

  /** A plain datagram that was read is written again byte for byte, exactly unless its checksum field
      holds all ones, the other form of zero. */
  lemma Ipv4Rewritten(p: seq<byte>)
    requires ParseIpv4(p).Ipv4Parsed? && p[0] % 0x10 == 5 && p[1] == 0
    ensures FitsIpv4(ParseIpv4(p).datagram) && Number(p[2..4]) <= |p|
    ensures Ipv4Serialized(ParseIpv4(p).datagram) == p[..Number(p[2..4])]
       <==> Number(p[10..12]) != U16_MAX
  {
    ParsedFits(p);
    TwoBytes(p, 2);
    TwoBytes(p, 10);
    hide ChecksumOf, Number, Word, WireHeader, ReadIpv4Header;
    HeaderRewritten(p);
    SplitAt(Ipv4Serialized(ParseIpv4(p).datagram), p[..Word(p[2], p[3])], 20);
  }

  lemma SplitAt(a: seq<byte>, b: seq<byte>, n: nat)
    requires n <= |a| && n <= |b|
    ensures a == b <==> a[..n] == b[..n] && a[n..] == b[n..]
  {
    assert a == a[..n] + a[n..] && b == b[..n] + b[n..];
  }

  lemma HalvesOfWord(high: byte, low: byte)
    ensures High(Word(high, low)) == high && Low(Word(high, low)) == low
  {
  }

  lemma SameChecksum(blank: seq<byte>, offset: nat, c: u16, k: u16)
    requires offset + 2 <= |blank|
    ensures Patch(blank, offset, c) == Patch(blank, offset, k) <==> c == k
  {
    if Patch(blank, offset, c) == Patch(blank, offset, k) {
      assert Patch(blank, offset, c)[offset] == Patch(blank, offset, k)[offset];
      assert Patch(blank, offset, c)[offset + 1] == Patch(blank, offset, k)[offset + 1];
      assert c == c / 0x100 * 0x100 + c % 0x100;
    }
  }

  /** A segment as this stack writes them: no options, no control bits but its own, no acknowledgement
      number without its bit, and no urgent pointer. */
  predicate Plain(b: seq<byte>) {
    && |b| >= 20 && b[12] == 0x50
    && !BitOf(b[13], 3) && !BitOf(b[13], 5) && !BitOf(b[13], 6) && !BitOf(b[13], 7)
    && (!BitOf(b[13], 4) ==> b[8..12] == [0, 0, 0, 0])
    && b[18] == 0 && b[19] == 0
  }

  lemma PlainControl(b: seq<byte>)
    requires Plain(b)
    ensures OffsetAndFlags(ReadHeader(b)) == Word(b[12], b[13])
  {
    var flags := Word(b[12], b[13]) % 0x200;
    assert flags == b[13];
    PlainFlags(b[13]);
  }

  lemma PlainFlags(low: byte)
    requires !BitOf(low, 3) && !BitOf(low, 5) && !BitOf(low, 6) && !BitOf(low, 7)
    ensures low == (if IsSet(low, FIN) then FIN else 0) + (if IsSet(low, SYN) then SYN else 0)
                 + (if IsSet(low, RST) then RST else 0) + (if IsSet(low, ACK) then ACK else 0)
  {
  }

  lemma HalvesOfJoin(b0: byte, b1: byte, b2: byte, b3: byte)
    ensures var n := Join(Word(b0, b1), Word(b2, b3));
            High(Upper(n)) == b0 && Low(Upper(n)) == b1 && High(Lower(n)) == b2 && Low(Lower(n)) == b3
  {
    HalvesOfWord(b0, b1);
    HalvesOfWord(b2, b3);
  }

  lemma SegmentPutTogether(b: seq<byte>)
    requires Plain(b)
    ensures Patch(HeaderBytes(ReadHeader(b)) + b[20..], 16, Word(b[16], b[17])) == b
  {
    PlainControl(b);
    AcknowledgementRead(b);
    HalvesOfWord(b[0], b[1]);
    HalvesOfWord(b[2], b[3]);
    HalvesOfJoin(b[4], b[5], b[6], b[7]);
    HalvesOfJoin(b[8], b[9], b[10], b[11]);
    HalvesOfWord(b[12], b[13]);
    HalvesOfWord(b[14], b[15]);
    HalvesOfWord(b[16], b[17]);
    hide Word, High, Low, Join, Upper, Lower, OffsetAndFlags, RawAckno, IsSet, BitOf;
    var blank := HeaderBytes(ReadHeader(b)) + b[20..];
    PatchPutsHalves(blank, 16, Word(b[16], b[17]));
    forall i | 0 <= i < |b|
      ensures Patch(blank, 16, Word(b[16], b[17]))[i] == b[i]
    {
    }
  }

  lemma AcknowledgementRead(b: seq<byte>)
    requires Plain(b)
    ensures RawAckno(ReadHeader(b)) == Join(Word(b[8], b[9]), Word(b[10], b[11]))
  {
    ControlBitsRead(b[12], b[13]);
    hide IsSet, BitOf;
    if !BitOf(b[13], 4) {
      assert b[8] == b[8..12][0] && b[9] == b[8..12][1] && b[10] == b[8..12][2] && b[11] == b[8..12][3];
    }
  }

  /** A plain segment that was read is written again byte for byte, exactly unless its checksum field
      holds all ones, the other form of zero. */
  lemma TcpRewritten(src: Address, dst: Address, b: seq<byte>)
    requires |b| <= U16_MAX && Parse(src, dst, b).Parsed? && Plain(b)
    ensures Fits(Parse(src, dst, b).segment)
    ensures Serialized(Parse(src, dst, b).segment, src, dst) == b <==> Number(b[16..18]) != U16_MAX
  {
    TwoBytes(b, 16);
    SegmentPutTogether(b);
    SumIsPositive(src, dst, HeaderBytes(ReadHeader(b)) + b[20..]);
    hide ChecksumOf, WordSum, Patch, Word, Number, PseudoHeader, HeaderBytes, ReadHeader, BitOf;
    var blank, c := HeaderBytes(ReadHeader(b)) + b[20..], Word(b[16], b[17]);
    BlankChecksum(ReadHeader(b));
    ChecksumUnique(PseudoHeader(src, dst, |b|), blank, 16, c);
    SameChecksum(blank, 16, c, TcpChecksumOf(src, dst, blank));
  }

  lemma BlankChecksum(h: TcpHeader)
    ensures HeaderBytes(h)[16] == 0 && HeaderBytes(h)[17] == 0
  {
  }
}
