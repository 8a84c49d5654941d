/** Machine words of the stack, and the few arithmetic operations that respect their width. */
module Words {

  const U16_MAX: nat := 0xFFFF
  const U64_MAX: nat := 0xFFFF_FFFF_FFFF_FFFF

  type byte = x: int | 0 <= x < 0x100
  type u16 = x: int | 0 <= x < 0x1_0000
  type u32 = x: int | 0 <= x < 0x1_0000_0000
  type u64 = x: int | 0 <= x <= U64_MAX

  datatype Option<+T> = None | Some(value: T)

  function Min(a: int, b: int): (least: int) {
    if a <= b then a else b
  }

  function Max(a: int, b: int): (greatest: int) {
    if a <= b then b else a
  }

  /** Distance between two positions, whichever is larger. */
  function AbsDiff(a: int, b: int): (distance: nat) {
    if a <= b then b - a else a - b
  }

  /** The saturating addition of 64-bit counters. */
  function SaturatingAdd(a: nat, b: nat): (sum: u64) {
    Min(a + b, U64_MAX)
  }

  function Pow2(n: nat): (power: nat) {
    if n == 0 then 1 else 2 * Pow2(n - 1)
  }

  predicate Within(lo: int, i: int, hi: int) {
    lo <= i < hi
  }

  /** The numbers from `lo` up to, but not including, `hi`. */
  function Interval(lo: nat, hi: nat): (s: set<nat>)
    ensures forall i: nat :: i in s <==> lo <= i < hi
  {
    set i: nat | i < hi && Within(lo, i, hi)
  }

  lemma {:induction false} IntervalSize(lo: nat, hi: nat)
    ensures |Interval(lo, hi)| == Max(hi - lo, 0)
    decreases hi - lo
  {
    if lo < hi {
      IntervalSize(lo + 1, hi);
      assert Interval(lo, hi) == {lo} + Interval(lo + 1, hi);
    } else {
      assert Interval(lo, hi) == {};
    }
  }
}
