/** Masks over 32-bit addresses, and the bits they compare. */
module PrefixMasks {
  type PrefixLength = n: bv8 | n <= 32

  /** The word with the first `length` bits set. */
  function PrefixMask(length: PrefixLength): (mask: bv32) {
    if length == 0 then 0 else 0xFFFF_FFFF << (32 - length)
  }

  function Masked(w: bv32, length: PrefixLength): (masked: bv32) {
    w & PrefixMask(length)
  }

  /** Four octets as a big-endian word. */
  function FromBigEndian(o0: bv8, o1: bv8, o2: bv8, o3: bv8): (word: bv32) {
    ((o0 as bv32) << 24) | ((o1 as bv32) << 16) | ((o2 as bv32) << 8) | (o3 as bv32)
  }

  /** Bit `i` of a word, counted from the most significant. */
  function WordBit(w: bv32, i: bv8): (bit: bv32)
    requires i < 32
  {
    (w >> (31 - i)) & 1
  }

  function WithBit(w: bv32, bit: bv32, i: bv8): (word: bv32)
    requires i < 32
  {
    w | (bit << (31 - i))
  }

  /** Bit `i` of four octets, counted from the most significant bit of the first. */
  function OctetBit(o0: bv8, o1: bv8, o2: bv8, o3: bv8, i: bv8): (bit: bv8)
    requires i < 32
  {
    ((if i < 8 then o0 else if i < 16 then o1 else if i < 24 then o2 else o3) >> (7 - i % 8)) & 1
  }

  lemma MaskTwice(w: bv32, n: bv8)
    requires n < 32
    ensures Masked(Masked(w, n + 1), n) == Masked(w, n)
  {
  }

  lemma BitSurvives(w: bv32, n: bv8)
    requires n < 32
    ensures WordBit(Masked(w, n + 1), n) == WordBit(w, n)
  {
  }

  lemma MaskAndBit(w: bv32, n: bv8)
    requires n < 32
    ensures Masked(w, n + 1) == WithBit(Masked(w, n), WordBit(w, n), n)
  {
  }

  lemma MaskStep(a: bv32, b: bv32, n: bv8)
    requires n < 32
    ensures Masked(a, n + 1) == Masked(b, n + 1)
       <==> Masked(a, n) == Masked(b, n) && WordBit(a, n) == WordBit(b, n)
  {
    hide Masked, WordBit, WithBit;
    MaskTwice(a, n);
    MaskTwice(b, n);
    BitSurvives(a, n);
    BitSurvives(b, n);
    MaskAndBit(a, n);
    MaskAndBit(b, n);
  }

  lemma BitOfOctets(o0: bv8, o1: bv8, o2: bv8, o3: bv8, i: bv8)
    requires i < 32
    ensures WordBit(FromBigEndian(o0, o1, o2, o3), i) == OctetBit(o0, o1, o2, o3, i) as bv32
  {
  }

  /** Comparing under the mask compares the first `n` bits. */
  lemma {:induction false} MaskComparesBits(a: bv32, b: bv32, n: PrefixLength)
    ensures Masked(a, n) == Masked(b, n) <==> forall i: bv8 :: i < n ==> WordBit(a, i) == WordBit(b, i)
  {
    hide Masked, WordBit;
    if n != 0 {
      MaskComparesBits(a, b, n - 1);
      MaskStep(a, b, n - 1);
    } else {
      NothingMasked(a, b);
    }
  }

  lemma NothingMasked(a: bv32, b: bv32)
    ensures Masked(a, 0) == Masked(b, 0)
  {
  }
}
