/** The Internet checksum: a one's-complement sum of 16-bit words (section 1 of RFC 1071). */
module Checksums {
  import opened Words

  /** Two bytes as a big-endian 16-bit word. */
  function Word(high: byte, low: byte): (word: u16) {
    high * 0x100 + low
  }

  /** The sum of the big-endian 16-bit words of the data, a last odd byte padded with zero. */
  function WordSum(data: seq<byte>): (sum: nat) {
    if data == [] then 0
    else if |data| == 1 then Word(data[0], 0)
    else Word(data[0], data[1]) + WordSum(data[2..])
  }

  /** A sum with its carries folded back into 16 bits: zero only for zero. */
  function OnesSum(n: nat): (folded: u16) {
    if n == 0 then 0 else (n - 1) % U16_MAX + 1
  }

  function ChecksumOf(data: seq<byte>): (checksum: u16) {
    U16_MAX - OnesSum(WordSum(data))
  }

  /** The sum of the words that are complete: a last odd byte waits for its other half. */
  function CompleteSum(data: seq<byte>): (sum: nat) {
    WordSum(data[..|data| - |data| % 2])
  }

  const ACCUMULATOR_LIMIT: nat := 0x1_0000_0000

  /** The most bytes whose word sum certainly fits the 32-bit accumulator. */
  const CAPACITY: nat := 131_074

  lemma {:induction false} WordSumBound(data: seq<byte>)
    ensures WordSum(data) <= (|data| + 1) / 2 * U16_MAX
    decreases |data|
  {
    if |data| >= 2 {
      WordSumBound(data[2..]);
      var n := (|data| - 1) / 2;
      assert (|data| + 1) / 2 == n + 1;
    }
  }

  /** Whatever order of calls feeds them, the bytes of a 65535-byte segment and its pseudo-header
      cannot overflow the accumulator. */
  lemma AccumulatorFits(data: seq<byte>)
    requires |data| <= CAPACITY
    ensures CompleteSum(data) <= WordSum(data) < ACCUMULATOR_LIMIT
  {
    hide WordSum, CompleteSum;
    WordSumBound(data);
    assert (|data| + 1) / 2 <= 65_537;
    CompletePart(data, 0);
  }

  /** A part that ends between words adds up to no more than all complete words, and they to no more
      than the whole. */
  lemma CompletePart(data: seq<byte>, n: nat)
    requires n <= |data| && n % 2 == 0
    ensures WordSum(data[..n]) <= CompleteSum(data) <= WordSum(data)
  {
    hide WordSum;
    var whole := |data| - |data| % 2;
    WordSumSplit(data[..n], data[n..whole]);
    assert data[..n] + data[n..whole] == data[..whole];
    WordSumSplit(data[..whole], data[whole..]);
    assert data[..whole] + data[whole..] == data;
  }

  lemma {:induction false} WordSumSplit(a: seq<byte>, b: seq<byte>)
    requires |a| % 2 == 0
    ensures WordSum(a + b) == WordSum(a) + WordSum(b)
    decreases |a|
  {
    if a == [] {
      assert a + b == b;
    } else {
      assert (a + b)[2..] == a[2..] + b;
      WordSumSplit(a[2..], b);
    }
  }

  lemma SameResidue(n: nat, k: nat)
    requires n > 0
    ensures OnesSum(n + k * U16_MAX) == OnesSum(n)
  {
    var q, r := (n - 1) / U16_MAX, (n - 1) % U16_MAX;
    assert n - 1 + k * U16_MAX == (q + k) * U16_MAX + r;
    assert (n - 1 + k * U16_MAX) % U16_MAX == r by {
      DivisionUnique(n - 1 + k * U16_MAX, q + k, r);
    }
  }

  lemma DivisionUnique(n: nat, q: nat, r: nat)
    requires n == q * U16_MAX + r && r < U16_MAX
    ensures n % U16_MAX == r
  {
  }

  /** Adding the high half of a sum into its low half keeps its folded value. */
  lemma FoldKeeps(n: nat)
    requires n >= 0x1_0000
    ensures var folded := n % 0x1_0000 + n / 0x1_0000;
            0 < folded < n && OnesSum(folded) == OnesSum(n)
  {
    var low, high := n % 0x1_0000, n / 0x1_0000;
    assert n == high * 0x1_0000 + low;
    SameResidue(low + high, high);
  }

  lemma FoldedIsItself(n: nat)
    requires n < 0x1_0000
    ensures OnesSum(n) == n
  {
  }

  /** A checksum is zero exactly when the words add up to a positive multiple of 65535. */
  lemma ZeroChecksum(data: seq<byte>)
    ensures ChecksumOf(data) == 0 <==> WordSum(data) > 0 && WordSum(data) % U16_MAX == 0
  {
    var n := WordSum(data);
    if n > 0 {
      var q, r := (n - 1) / U16_MAX, (n - 1) % U16_MAX;
      assert n - 1 == q * U16_MAX + r;
      if r == U16_MAX - 1 {
        DivisionUnique(n, q + 1, 0);
      } else {
        DivisionUnique(n, q, r + 1);
      }
    }
  }

  /** Changing one byte changes the sum by that byte's difference, in its half of the word. */
  lemma {:induction false} WordSumUpdate(data: seq<byte>, i: nat, b: byte)
    requires i < |data|
    ensures WordSum(data[i := b]) == WordSum(data) + (b as int - data[i] as int) * (if i % 2 == 0 then 0x100 else 1)
    decreases |data|
  {
    if i >= 2 {
      assert data[i := b][2..] == data[2..][i - 2 := b];
      WordSumUpdate(data[2..], i - 2, b);
    } else {
      assert |data| >= 2 ==> data[i := b][2..] == data[2..];
    }
  }

  /** The data with a 16-bit value written at an offset. */
  function Patch(data: seq<byte>, offset: nat, value: u16): (patched: seq<byte>)
    requires offset + 2 <= |data|
    ensures |patched| == |data|
  {
    data[offset := value / 0x100][offset + 1 := value % 0x100]
  }

  lemma PatchedSum(data: seq<byte>, offset: nat, value: u16)
    requires offset + 2 <= |data| && offset % 2 == 0
    requires data[offset] == 0 && data[offset + 1] == 0
    ensures WordSum(Patch(data, offset, value)) == WordSum(data) + value
  {
    hide WordSum;
    WordSumUpdate(data, offset, value / 0x100);
    WordSumUpdate(data[offset := value / 0x100], offset + 1, value % 0x100);
  }

  /** A word sum together with its own complement folds to all ones. */
  lemma ComplementFolds(n: nat)
    ensures (n + (U16_MAX - OnesSum(n))) % U16_MAX == 0
    ensures n + (U16_MAX - OnesSum(n)) > 0
  {
    if n > 0 {
      var q, r := (n - 1) / U16_MAX, (n - 1) % U16_MAX;
      assert n == q * U16_MAX + r + 1;
      DivisionUnique(n + (U16_MAX - OnesSum(n)), q + 1, 0);
    }
  }

  /** Writing the checksum into an aligned zero field makes the data verify, in whatever larger
      even-aligned sum the field takes part. */
  lemma PatchVerifies(prefix: seq<byte>, data: seq<byte>, offset: nat)
    requires |prefix| % 2 == 0 && offset + 2 <= |data| && offset % 2 == 0
    requires data[offset] == 0 && data[offset + 1] == 0
    ensures ChecksumOf(prefix + Patch(data, offset, ChecksumOf(prefix + data))) == 0
  {
    var c := ChecksumOf(prefix + data);
    WordSumSplit(prefix, data);
    WordSumSplit(prefix, Patch(data, offset, c));
    PatchedSum(data, offset, c);
    ComplementFolds(WordSum(prefix + data));
    ZeroChecksum(prefix + Patch(data, offset, c));
  }

  /** A number with one binary digit inverted. */
  function FlipDigit(n: nat, digit: nat): (flipped: nat) {
    if digit > 0 then 2 * FlipDigit(n / 2, digit - 1) + n % 2
    else if n % 2 == 0 then n + 1
    else n - 1
  }

  lemma {:induction false} FlipDigitFacts(n: nat, digit: nat, width: nat)
    requires n < Pow2(width) && digit < width
    ensures FlipDigit(n, digit) < Pow2(width)
    ensures AbsDiff(FlipDigit(n, digit), n) == Pow2(digit)
  {
    if digit > 0 {
      FlipDigitFacts(n / 2, digit - 1, width - 1);
    }
  }

  /** A byte with one bit inverted. */
  function Flip(b: byte, bit: nat): (flipped: byte)
    requires bit < 8
    ensures AbsDiff(flipped, b) == Pow2(bit)
  {
    BitWeights();
    FlipDigitFacts(b, bit, 8);
    FlipDigit(b, bit)
  }

  lemma BitWeights()
    ensures Pow2(0) == 1 && Pow2(1) == 2 && Pow2(2) == 4 && Pow2(3) == 8
    ensures Pow2(4) == 16 && Pow2(5) == 32 && Pow2(6) == 64 && Pow2(7) == 128 && Pow2(8) == 256
  {
    assert Pow2(3) == 8;
    assert Pow2(6) == 8 * Pow2(3);
  }

  /** One inverted bit anywhere turns a sum that verifies into one that does not. */
  lemma BitFlipDetected(data: seq<byte>, i: nat, bit: nat)
    requires i < |data| && bit < 8
    requires ChecksumOf(data) == 0
    ensures ChecksumOf(data[i := Flip(data[i], bit)]) != 0
  {
    var b := Flip(data[i], bit);
    WordSumUpdate(data, i, b);
    ZeroChecksum(data);
    ZeroChecksum(data[i := b]);
    BitWeights();
    hide WordSum, ChecksumOf, Flip;
    var change: int := (b as int - data[i] as int) * (if i % 2 == 0 then 0x100 else 1);
    NotBothMultiples(WordSum(data), change);
  }

  lemma NotBothMultiples(n: nat, change: int)
    requires n % U16_MAX == 0 && 0 < AbsDiff(change, 0) < U16_MAX && n + change >= 0
    ensures (n + change) % U16_MAX != 0
  {
  }

  class InternetChecksum {
    var sum: nat
    var oddByte: Option<byte>
    ghost var fed: seq<byte>

    /** `sum` covers the whole words fed so far, and `oddByte` is what is left over. */
    ghost predicate Valid()
      reads this
    {
      && sum < ACCUMULATOR_LIMIT
      && (if |fed| % 2 == 0 then oddByte == None && sum == WordSum(fed)
          else oddByte == Some(fed[|fed| - 1]) && sum == WordSum(fed[..|fed| - 1]))
    }

    constructor ()
      ensures Valid() && fed == []
    {
      sum, oddByte, fed := 0, None, [];
    }

    /** The accumulator depends only on the bytes fed, not on how they were split into calls. */
    method AddBytes(data: seq<byte>)
      requires Valid() && CompleteSum(fed + data) < ACCUMULATOR_LIMIT
      modifies this
      ensures Valid()
      ensures fed == old(fed) + data
    {
      hide WordSum, Word, CompleteSum;
      var index := 0;
      ghost var before := fed;
      if oddByte.Some? {
        if data == [] {
          fed := fed + data;
          assert fed == before;
          return;
        }
        OddCompleted(before, data[0]);
        assert data[..1] == [data[0]];
        PartFits(before, data, 1);
        sum := sum + Word(oddByte.value, data[0]);
        oddByte := None;
        index := 1;
      }
      assert index == 0 ==> before + data[..0] == before;
      while index + 1 < |data|
        invariant index <= |data|
        invariant (|before| + index) % 2 == 0
        invariant oddByte == None && fed == before
        invariant sum == WordSum(before + data[..index]) < ACCUMULATOR_LIMIT
      {
        WordAppended(before + data[..index], data[index], data[index + 1]);
        assert before + data[..index + 2] == before + data[..index] + [data[index], data[index + 1]];
        PartFits(before, data, index + 2);
        sum := sum + Word(data[index], data[index + 1]);
        index := index + 2;
      }
      fed := before + data;
      if index < |data| {
        oddByte := Some(data[index]);
        assert fed[..|fed| - 1] == before + data[..index];
      } else {
        assert data[..index] == data;
      }
    }

    method Checksum() returns (checksum: u16)
      requires Valid() && WordSum(fed) < ACCUMULATOR_LIMIT
      ensures checksum == ChecksumOf(fed)
    {
      var total: nat := sum;
      if oddByte.Some? {
        total := total + Word(oddByte.value, 0);
        WordSumSplit(fed[..|fed| - 1], [oddByte.value]);
        assert fed == fed[..|fed| - 1] + [oddByte.value];
      }
      while total / 0x1_0000 != 0
        invariant OnesSum(total) == OnesSum(WordSum(fed))
        decreases total
      {
        FoldKeeps(total);
        total := total % 0x1_0000 + total / 0x1_0000;
      }
      FoldedIsItself(total);
      checksum := U16_MAX - total;
    }
  }

  lemma PartFits(before: seq<byte>, data: seq<byte>, n: nat)
    requires n <= |data| && (|before| + n) % 2 == 0
    requires CompleteSum(before + data) < ACCUMULATOR_LIMIT
    ensures WordSum(before + data[..n]) < ACCUMULATOR_LIMIT
  {
    hide WordSum, CompleteSum;
    CompletePart(before + data, |before| + n);
    assert (before + data)[..|before| + n] == before + data[..n];
  }

  lemma WordAppended(fed: seq<byte>, high: byte, low: byte)
    requires |fed| % 2 == 0
    ensures WordSum(fed + [high, low]) == WordSum(fed) + Word(high, low)
  {
    WordSumSplit(fed, [high, low]);
    assert [high, low][2..] == [];
  }

  lemma OddCompleted(fed: seq<byte>, low: byte)
    requires |fed| % 2 == 1
    ensures WordSum(fed + [low]) == WordSum(fed[..|fed| - 1]) + Word(fed[|fed| - 1], low)
  {
    hide WordSum, Word;
    WordAppended(fed[..|fed| - 1], fed[|fed| - 1], low);
    assert fed + [low] == fed[..|fed| - 1] + [fed[|fed| - 1], low];
  }

  method ComputeChecksum(data: seq<byte>) returns (checksum: u16)
    requires WordSum(data) < ACCUMULATOR_LIMIT
    ensures checksum == ChecksumOf(data)
  {
    CompletePart(data, 0);
    var c := new InternetChecksum();
    assert c.fed + data == data;
    c.AddBytes(data);
    checksum := c.Checksum();
  }

  method Verify(data: seq<byte>) returns (valid: bool)
    requires WordSum(data) < ACCUMULATOR_LIMIT
    ensures valid <==> WordSum(data) > 0 && WordSum(data) % U16_MAX == 0
  {
    var c := ComputeChecksum(data);
    ZeroChecksum(data);
    valid := c == 0;
  }

  const TCP_PROTOCOL: byte := 6

  type Address = a: seq<byte> | |a| == 4 witness [0, 0, 0, 0]

  /** The pseudo-header a TCP checksum covers besides the segment (section 3.1 of RFC 9293). */
  function PseudoHeader(src: Address, dst: Address, length: u16): (header: seq<byte>)
    ensures |header| == 12
  {
    src + dst + [0, TCP_PROTOCOL] + [length / 0x100, length % 0x100]
  }

  function TcpChecksumOf(src: Address, dst: Address, segment: seq<byte>): (checksum: u16)
    requires |segment| <= U16_MAX
  {
    ChecksumOf(PseudoHeader(src, dst, |segment|) + segment)
  }

  method TcpChecksumIpv4(src: Address, dst: Address, segment: seq<byte>) returns (checksum: u16)
    requires |segment| <= U16_MAX
    ensures checksum == TcpChecksumOf(src, dst, segment)
  {
    hide WordSum, CompleteSum, ChecksumOf;
    var length := |segment|;
    var c := new InternetChecksum();
    AccumulatorFits(c.fed + src);
    c.AddBytes(src);
    AccumulatorFits(c.fed + dst);
    c.AddBytes(dst);
    AccumulatorFits(c.fed + [0]);
    c.AddBytes([0]);
    AccumulatorFits(c.fed + [TCP_PROTOCOL]);
    c.AddBytes([TCP_PROTOCOL]);
    AccumulatorFits(c.fed + [length / 0x100, length % 0x100]);
    c.AddBytes([length / 0x100, length % 0x100]);
    AccumulatorFits(c.fed + segment);
    c.AddBytes(segment);
    assert c.fed == PseudoHeader(src, dst, length) + segment;
    checksum := c.Checksum();
  }
}
