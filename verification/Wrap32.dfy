/** 32-bit sequence numbers that wrap around, and their recovery as 64-bit positions
    (section 3.4 of RFC 9293). */
module Wrap32 {
  import opened Words

  const MODULUS: nat := 0x1_0000_0000

  /** The sequence number of the absolute position `absolute` in a stream that starts at `zeroPoint`. */
  function Wrap(absolute: nat, zeroPoint: u32): (seqno: u32) {
    (zeroPoint + absolute % MODULUS) % MODULUS
  }

  /** The 64-bit position closest to `checkpoint` among those that `raw` may stand for.
      A candidate below zero or above the 64-bit range is never considered. */
  function Unwrap(raw: u32, zeroPoint: u32, checkpoint: nat): (absolute: nat) {
    var offset := (raw - zeroPoint) % MODULUS;
    var current := checkpoint / MODULUS * MODULUS + offset;
    var lower :=
      if current >= MODULUS && AbsDiff(current - MODULUS, checkpoint) < AbsDiff(current, checkpoint)
      then current - MODULUS else current;
    if current + MODULUS <= U64_MAX && AbsDiff(current + MODULUS, checkpoint) < AbsDiff(lower, checkpoint)
    then current + MODULUS else lower
  }

  /** `v` is a 64-bit position whose sequence number is `raw`. */
  ghost predicate StandsFor(v: nat, raw: u32, zeroPoint: u32) {
    v <= U64_MAX && Wrap(v, zeroPoint) == raw
  }

  /** Sequence numbers count up from the initial one, position by position, and wrap to zero. */
  lemma WrapCounts(absolute: nat, zeroPoint: u32)
    ensures Wrap(0, zeroPoint) == zeroPoint
    ensures Wrap(absolute + 1, zeroPoint)
         == if Wrap(absolute, zeroPoint) == MODULUS - 1 then 0 else Wrap(absolute, zeroPoint) + 1
  {
    var low := absolute % MODULUS;
    assert absolute == absolute / MODULUS * MODULUS + low;
    if low == MODULUS - 1 {
      assert (absolute + 1) % MODULUS == 0;
    } else {
      assert (absolute + 1) % MODULUS == low + 1;
    }
  }

  /** Positions with one sequence number differ by whole eras. */
  lemma SameNumberWholeEras(v: nat, raw: u32, zeroPoint: u32) returns (k: nat)
    requires Wrap(v, zeroPoint) == raw
    ensures v == k * MODULUS + (raw - zeroPoint) % MODULUS
  {
    k := v / MODULUS;
    var low := v % MODULUS;
    assert v == k * MODULUS + low;
    if zeroPoint + low < MODULUS {
      assert raw - zeroPoint == low;
    } else {
      assert raw == zeroPoint + low - MODULUS;
    }
  }

  lemma WholeErasSameNumber(v: nat, k: nat, raw: u32, zeroPoint: u32)
    requires v == k * MODULUS + (raw - zeroPoint) % MODULUS
    ensures Wrap(v, zeroPoint) == raw
  {
    var offset := (raw - zeroPoint) % MODULUS;
    assert v % MODULUS == offset;
    if zeroPoint <= raw {
      assert offset == raw - zeroPoint;
    } else {
      assert offset == raw - zeroPoint + MODULUS;
    }
  }

  /** The sequence number of what `Unwrap` returns is the one it was given, and it fits 64 bits. */
  lemma UnwrapStandsFor(raw: u32, zeroPoint: u32, checkpoint: u64)
    ensures StandsFor(Unwrap(raw, zeroPoint, checkpoint), raw, zeroPoint)
  {
    var r := Unwrap(raw, zeroPoint, checkpoint);
    var era := checkpoint / MODULUS;
    var offset := (raw - zeroPoint) % MODULUS;
    var k := if r == era * MODULUS + offset then era
             else if r < era * MODULUS + offset then era - 1 else era + 1;
    WholeErasSameNumber(r, k, raw, zeroPoint);
  }

  /** No position with this sequence number is closer to the checkpoint, and on a tie the one
      that shares the checkpoint's era is chosen. */
  lemma UnwrapNearest(raw: u32, zeroPoint: u32, checkpoint: u64, other: nat)
    requires StandsFor(other, raw, zeroPoint)
    ensures AbsDiff(Unwrap(raw, zeroPoint, checkpoint), checkpoint) <= AbsDiff(other, checkpoint)
    ensures var r := Unwrap(raw, zeroPoint, checkpoint);
            other != r && AbsDiff(r, checkpoint) == AbsDiff(other, checkpoint)
            ==> r / MODULUS == checkpoint / MODULUS
  {
    var k := SameNumberWholeEras(other, raw, zeroPoint);
    var era := checkpoint / MODULUS;
    var offset := (raw - zeroPoint) % MODULUS;
    assert era * MODULUS <= checkpoint < era * MODULUS + MODULUS;
    if k <= era - 2 {
      assert other <= era * MODULUS + offset - 2 * MODULUS;
    } else if k >= era + 2 {
      assert other >= era * MODULUS + offset + 2 * MODULUS;
    }
    assert (era * MODULUS + offset) / MODULUS == era;
  }

  /** Unwrapping undoes wrapping for every position less than half the number space away from
      the checkpoint. */
  lemma UnwrapInvertsWrap(absolute: u64, zeroPoint: u32, checkpoint: u64)
    requires AbsDiff(absolute, checkpoint) < MODULUS / 2
    ensures Unwrap(Wrap(absolute, zeroPoint), zeroPoint, checkpoint) == absolute
  {
    var raw := Wrap(absolute, zeroPoint);
    var r := Unwrap(raw, zeroPoint, checkpoint);
    UnwrapStandsFor(raw, zeroPoint, checkpoint);
    UnwrapNearest(raw, zeroPoint, checkpoint, absolute);
    var j := SameNumberWholeEras(absolute, raw, zeroPoint);
    var k := SameNumberWholeEras(r, raw, zeroPoint);
    assert j == k;
  }

  /** Two positions with one sequence number are the same or at least an era apart. */
  lemma ErasApart(v: nat, other: nat, raw: u32, zeroPoint: u32)
    requires Wrap(v, zeroPoint) == raw && Wrap(other, zeroPoint) == raw
    ensures other == v || other >= v + MODULUS || other + MODULUS <= v
    ensures other == v + MODULUS ==> other / MODULUS != v / MODULUS
  {
    var j := SameNumberWholeEras(v, raw, zeroPoint);
    var k := SameNumberWholeEras(other, raw, zeroPoint);
  }

  lemma EraLaterSameNumber(v: nat, zeroPoint: u32)
    ensures Wrap(v + MODULUS, zeroPoint) == Wrap(v, zeroPoint)
    ensures (v + MODULUS) / MODULUS == v / MODULUS + 1
  {
    var k := SameNumberWholeEras(v, Wrap(v, zeroPoint), zeroPoint);
    WholeErasSameNumber(v + MODULUS, k + 1, Wrap(v, zeroPoint), zeroPoint);
  }

  /** A later position with the same sequence number is no rival: none fits 64 bits, or it is further
      from the checkpoint, or as far and in another era. */
  predicate NoLaterRival(absolute: nat, checkpoint: nat) {
    || absolute + MODULUS > U64_MAX
    || checkpoint < absolute + MODULUS / 2
    || (checkpoint == absolute + MODULUS / 2 && absolute / MODULUS == checkpoint / MODULUS)
  }

  predicate NoEarlierRival(absolute: nat, checkpoint: nat) {
    || absolute < MODULUS
    || absolute < checkpoint + MODULUS / 2
    || (absolute == checkpoint + MODULUS / 2 && absolute / MODULUS == checkpoint / MODULUS)
  }

  /** Exactly when a position is recovered, over the whole 64-bit range. */
  lemma UnwrapRecoversExactly(absolute: u64, zeroPoint: u32, checkpoint: u64)
    ensures Unwrap(Wrap(absolute, zeroPoint), zeroPoint, checkpoint) == absolute
       <==> NoLaterRival(absolute, checkpoint) && NoEarlierRival(absolute, checkpoint)
  {
    hide Unwrap, Wrap;
    var raw := Wrap(absolute, zeroPoint);
    var r := Unwrap(raw, zeroPoint, checkpoint);
    UnwrapStandsFor(raw, zeroPoint, checkpoint);
    UnwrapNearest(raw, zeroPoint, checkpoint, absolute);
    ErasApart(absolute, r, raw, zeroPoint);
    EraLaterSameNumber(absolute, zeroPoint);
    if absolute + MODULUS <= U64_MAX {
      UnwrapNearest(raw, zeroPoint, checkpoint, absolute + MODULUS);
    }
    if absolute >= MODULUS {
      EraLaterSameNumber(absolute - MODULUS, zeroPoint);
      UnwrapNearest(raw, zeroPoint, checkpoint, absolute - MODULUS);
    }
  }
}
