/** The reassembler as the program keeps it: an output stream and a sorted map of pending
    fragments, proved to refine the index-to-byte `Store`. */
module Reassemblers {
  import opened Words
  import opened ByteStreams
  import opened Stores

  /** The program's errors. Where the store only judges that known bytes lie beyond a received end, the
      program also says how far one of them reaches, which depends on how they are split. */
  datatype ReassemblerError =
    | IndexOverflow
    | InconsistentEof(existing: nat, received: nat)
    | SegmentBeyondEof(eof: nat, segmentStart: nat, segmentEnd: nat)
    | BufferedDataBeyondEof(eof: nat, bufferedEnd: nat)

  /** Pending fragments are non-empty and do not overlap. */
  ghost predicate Separate(pending: map<nat, seq<byte>>) {
    && (forall k :: k in pending ==> pending[k] != [])
    && (forall j, k :: j in pending && k in pending && j < k ==> j + |pending[j]| <= k)
  }

  ghost predicate Inside(pending: map<nat, seq<byte>>, k: nat, i: nat) {
    k in pending && k <= i < k + |pending[k]|
  }

  /** `held` is the byte map the pending fragments spell out. */
  ghost predicate Spells(pending: map<nat, seq<byte>>, held: map<nat, byte>) {
    && (forall k: nat, i: nat :: Inside(pending, k, i) ==> i in held && held[i] == pending[k][i - k])
    && (forall i: nat :: i in held ==> exists k: nat :: Inside(pending, k, i))
  }

  function Indices(start: nat, data: seq<byte>): (indices: set<nat>) {
    Interval(start, start + |data|)
  }

  /** The bytes of one fragment placed at an index. */
  function Placed(start: nat, data: seq<byte>): (bytes: map<nat, byte>) {
    map i | i in Indices(start, data) :: data[i - start]
  }

  /** The pending fragments, and the bytes they hold. */
  ghost predicate Holds(pending: map<nat, seq<byte>>, held: map<nat, byte>) {
    Separate(pending) && Spells(pending, held)
  }

  /** No fragment starts below `cut` and reaches past it. */
  ghost predicate CleanCut(pending: map<nat, seq<byte>>, cut: nat) {
    forall k :: k in pending && k < cut ==> k + |pending[k]| <= cut
  }

  lemma InsideHeld(pending: map<nat, seq<byte>>, held: map<nat, byte>, k: nat)
    requires Holds(pending, held) && k in pending
    ensures forall i :: k <= i < k + |pending[k]| ==> i in held && held[i] == pending[k][i - k]
  {
    assert forall i: nat :: k <= i < k + |pending[k]| ==> Inside(pending, k, i);
  }

  /** Filling a gap extends the part of a fragment that has been taken in. */
  lemma MissingExtend(before: map<nat, byte>, held: map<nat, byte>, start: nat, data: seq<byte>, c: nat, n: nat)
    requires start <= c <= n <= start + |data|
    requires held == before + Missing(before, start, data[..c - start])
    requires forall i :: c <= i < n ==> i !in held
    ensures held + Placed(c, data[c - start..n - start]) == before + Missing(before, start, data[..n - start])
  {
  }

  /** Passing over indices that were already held takes nothing in. */
  lemma MissingSkip(before: map<nat, byte>, held: map<nat, byte>, start: nat, data: seq<byte>, c: nat, n: nat)
    requires start <= c <= n <= start + |data|
    requires held == before + Missing(before, start, data[..c - start])
    requires forall i :: c <= i < n ==> i in held
    ensures held == before + Missing(before, start, data[..n - start])
  {
    assert forall i :: c <= i < n ==> i in before;
  }

  /** Between fragments nothing is held. */
  lemma GapFree(pending: map<nat, seq<byte>>, held: map<nat, byte>, lo: nat, hi: nat)
    requires Holds(pending, held) && CleanCut(pending, lo)
    requires forall k :: k in pending ==> k < lo || k >= hi
    ensures forall i :: lo <= i < hi ==> i !in held
  {
    forall i: nat | lo <= i < hi ensures i !in held {
      assert forall k: nat :: !Inside(pending, k, i);
    }
  }

  lemma CutAfter(pending: map<nat, seq<byte>>, held: map<nat, byte>, k: nat)
    requires Holds(pending, held) && k in pending
    ensures pending[k] != [] && CleanCut(pending, k + |pending[k]|)
  {
  }

  lemma AddFragment(pending: map<nat, seq<byte>>, held: map<nat, byte>, start: nat, data: seq<byte>)
    requires Holds(pending, held) && data != []
    requires CleanCut(pending, start)
    requires start !in pending
    requires forall k :: k in pending ==> k < start || k >= start + |data|
    ensures Holds(pending[start := data], held + Placed(start, data))
  {
    var p := pending[start := data];
    assert Separate(p);
    AddSpells(pending, held, start, data);
  }

  lemma AddSpells(pending: map<nat, seq<byte>>, held: map<nat, byte>, start: nat, data: seq<byte>)
    requires Spells(pending, held) && start !in pending
    requires forall k: nat, i: nat :: Inside(pending, k, i) ==> i < start || i >= start + |data|
    ensures Spells(pending[start := data], held + Placed(start, data))
  {
    var p, h := pending[start := data], held + Placed(start, data);
    forall i: nat | i in h ensures exists k: nat :: Inside(p, k, i) {
      if i in Placed(start, data) {
        assert Inside(p, start, i);
      } else {
        var k: nat :| Inside(pending, k, i);
        assert Inside(p, k, i);
      }
    }
    forall k: nat, i: nat | Inside(p, k, i) ensures i in h && h[i] == p[k][i - k] {
      if k != start {
        assert Inside(pending, k, i);
      }
    }
  }

  lemma RemoveFragment(pending: map<nat, seq<byte>>, held: map<nat, byte>, start: nat)
    requires Holds(pending, held) && start in pending
    ensures var gone := Indices(start, pending[start]);
            && Separate(pending - {start})
            && Spells(pending - {start}, held - gone)
            && gone <= held.Keys && start in gone
  {
    var gone := Indices(start, pending[start]);
    var p, h := pending - {start}, held - gone;
    forall i: nat | i in gone ensures i in held {
      assert Inside(pending, start, i);
    }
    forall i: nat | i in h ensures exists k: nat :: Inside(p, k, i) {
      var k: nat :| Inside(pending, k, i);
      assert Inside(p, k, i);
    }
    forall k: nat, i: nat | Inside(p, k, i) ensures i in h && h[i] == p[k][i - k] {
      assert Inside(pending, k, i);
    }
  }

  /** `assembled` grew by held bytes, and what is held from there on is as it was. */
  ghost predicate Grown(a0: seq<byte>, h0: map<nat, byte>, a: seq<byte>, h: map<nat, byte>) {
    && a0 <= a
    && (forall i :: |a0| <= i < |a| ==> i in h0 && a[i] == h0[i])
    && (forall i :: i in h && i >= |a| ==> i in h0 && h[i] == h0[i])
    && (forall i :: i in h0 && i >= |a| ==> i in h)
  }

  /** Dropping a fragment that lies wholly below an index. */
  lemma DropFragment(pending: map<nat, seq<byte>>, held: map<nat, byte>, start: nat)
    requires Holds(pending, held) && start in pending
    ensures Holds(pending - {start}, held - Indices(start, pending[start]))
    ensures |held - Indices(start, pending[start])| < |held|
  {
    RemoveFragment(pending, held, start);
    assert start in Indices(start, pending[start]) * held.Keys;
    SmallerWithout(held, Indices(start, pending[start]));
  }

  /** Where a suffix of a removed fragment goes back, nothing else is in the way. */
  lemma RoomForSuffix(pending: map<nat, seq<byte>>, held: map<nat, byte>, start: nat, cut: nat)
    requires Holds(pending, held) && start in pending
    requires start < cut < start + |pending[start]|
    ensures CleanCut(pending - {start}, cut)
    ensures forall k :: k in pending - {start} ==> k < cut || k >= start + |pending[start]|
    ensures held - Indices(start, pending[start]) + Placed(cut, pending[start][cut - start..])
         == held - Interval(start, cut)
  {
    InsideHeld(pending, held, start);
  }

  /** Cutting off the part of a fragment that lies below an index. */
  lemma CutFragment(pending: map<nat, seq<byte>>, held: map<nat, byte>, start: nat, cut: nat)
    requires Holds(pending, held) && start in pending
    requires start < cut < start + |pending[start]|
    ensures Holds((pending - {start})[cut := pending[start][cut - start..]], held - Interval(start, cut))
    ensures |held - Interval(start, cut)| < |held|
  {
    var suffix := pending[start][cut - start..];
    RoomForSuffix(pending, held, start, cut);
    RemoveFragment(pending, held, start);
    assert start in Interval(start, cut) * held.Keys;
    SmallerWithout(held, Interval(start, cut));
    AddFragment(pending - {start}, held - Indices(start, pending[start]), cut, suffix);
  }

  /** Moving the fragment that starts where the assembled prefix ends. */
  lemma MoveFragment(assembled: seq<byte>, pending: map<nat, seq<byte>>, held: map<nat, byte>)
    requires Holds(pending, held) && |assembled| in pending
    ensures var data := pending[|assembled|];
            var left := held - Indices(|assembled|, data);
            && Holds(pending - {|assembled|}, left)
            && |left| < |held|
            && |assembled| + |data| - 1 in held
            && Grown(assembled, held, assembled + data, left)
  {
    hide Holds;
    var start, data := |assembled|, pending[|assembled|];
    DropFragment(pending, held, start);
    CutAfter(pending, held, start);
    InsideHeld(pending, held, start);
    var left := held - Indices(start, data);
    assert start + |data| - 1 in held;
    assert Grown(assembled, held, assembled + data, left);
  }

  lemma {:induction false} LeastExists(keys: set<nat>) returns (least: nat)
    requires keys != {}
    ensures least in keys && forall j :: j in keys ==> least <= j
    decreases |keys|
  {
    least :| least in keys;
    var rest := keys - {least};
    assert forall j :: j in keys ==> j == least || j in rest;
    if rest != {} {
      var lo := LeastExists(rest);
      least := Min(least, lo);
    }
  }

  lemma {:induction false} GreatestExists(keys: set<nat>) returns (greatest: nat)
    requires keys != {}
    ensures greatest in keys && forall j :: j in keys ==> j <= greatest
    decreases |keys|
  {
    greatest :| greatest in keys;
    var rest := keys - {greatest};
    assert forall j :: j in keys ==> j == greatest || j in rest;
    if rest != {} {
      var hi := GreatestExists(rest);
      greatest := Max(greatest, hi);
    }
  }

  /** When every fragment starts beyond an index, so does every held byte. */
  lemma HeldFromLeast(pending: map<nat, seq<byte>>, held: map<nat, byte>, bound: nat)
    requires Holds(pending, held)
    requires forall k :: k in pending ==> k > bound
    ensures forall i :: i in held ==> i > bound
  {
    forall i: nat | i in held ensures i > bound {
      var k: nat :| Inside(pending, k, i);
    }
  }

  /** When every fragment ends by an index, every held byte lies below it. */
  lemma HeldBelow(pending: map<nat, seq<byte>>, held: map<nat, byte>, bound: nat)
    requires Holds(pending, held)
    requires forall k :: k in pending ==> k + |pending[k]| <= bound
    ensures forall i :: i in held ==> i < bound
  {
    forall i: nat | i in held ensures i < bound {
      var k: nat :| Inside(pending, k, i);
    }
  }

  /** The least key of an ordered map, restricted to the given keys. */
  method Least(keys: set<nat>) returns (k: Option<nat>)
    ensures k.None? <==> keys == {}
    ensures k.Some? ==> k.value in keys && forall j :: j in keys ==> k.value <= j
  {
    if keys == {} {
      return None;
    }
    ghost var known := LeastExists(keys);
    var least :| least in keys && forall j :: j in keys ==> least <= j;
    k := Some(least);
  }

  method Greatest(keys: set<nat>) returns (k: Option<nat>)
    ensures k.None? <==> keys == {}
    ensures k.Some? ==> k.value in keys && forall j :: j in keys ==> j <= k.value
  {
    if keys == {} {
      return None;
    }
    ghost var known := GreatestExists(keys);
    var greatest :| greatest in keys && forall j :: j in keys ==> j <= greatest;
    k := Some(greatest);
  }

  /** `end` is where the data that is reported as lying beyond `eof` ends: the assembled stream, or else
      the first fragment that ends beyond it. */
  ghost predicate LateEnd(assembled: seq<byte>, pending: map<nat, seq<byte>>, eof: nat, end: nat) {
    if |assembled| > eof then end == |assembled|
    else exists k: nat :: EndsFirst(pending, eof, k) && end == k + |pending[k]|
  }

  ghost predicate EndsFirst(pending: map<nat, seq<byte>>, eof: nat, k: nat) {
    && k in pending && k + |pending[k]| > eof
    && forall j :: j in pending && j < k ==> j + |pending[j]| <= eof
  }

  /** What an error result says about the store that gave it, and its fragments. */
  ghost predicate Reports(
    result: Option<ReassemblerError>, s: Store, pending: map<nat, seq<byte>>, f: Fragment)
  {
    match s.Judge(f)
    case Accepted => result == None
    case IndexOverflow => result == Some(ReassemblerError.IndexOverflow)
    case InconsistentEof(e, r) => result == Some(ReassemblerError.InconsistentEof(e, r))
    case SegmentBeyondEof(e, a, b) => result == Some(ReassemblerError.SegmentBeyondEof(e, a, b))
    case DataBeyondEof(e) =>
      && result.Some? && result.value.BufferedDataBeyondEof?
      && result.value.eof == e < result.value.bufferedEnd
      && s.Knows(result.value.bufferedEnd - 1)
      && LateEnd(s.assembled, pending, e, result.value.bufferedEnd)
  }

  lemma GrownWithout(a: seq<byte>, h: map<nat, byte>, stale: set<nat>)
    requires forall i :: i in stale ==> i < |a|
    ensures Grown(a, h, a, h - stale)
  {
  }

  lemma GrownTransitive(a0: seq<byte>, h0: map<nat, byte>, a1: seq<byte>, h1: map<nat, byte>,
                        a2: seq<byte>, h2: map<nat, byte>)
    requires Grown(a0, h0, a1, h1) && Grown(a1, h1, a2, h2)
    ensures Grown(a0, h0, a2, h2)
  {
    forall i | |a0| <= i < |a2| ensures i in h0 && a2[i] == h0[i] {
      if i < |a1| {
        assert a2[i] == a1[i];
      }
    }
  }

  /** Nothing moves while the next index is missing. */
  lemma GrownIdle(a0: seq<byte>, h0: map<nat, byte>, a: seq<byte>, h: map<nat, byte>)
    requires Grown(a0, h0, a, h)
    requires forall i :: i in h0 ==> i > |a0|
    requires forall i :: i in h ==> i > |a|
    ensures a == a0 && h == h0
  {
    assert |a| > |a0| ==> |a0| in h0;
  }

  /** Growth that stops at a missing index is what settling gives. */
  lemma GrownSettled(a0: seq<byte>, h0: map<nat, byte>, a: seq<byte>, h: map<nat, byte>)
    requires Grown(a0, h0, a, h)
    requires forall i :: i in h ==> i > |a|
    ensures Settle(a0, h0) == (a, h)
  {
    SettleUnique(a0, h0, a);
    assert From(h0, |a|) == h;
  }

  class Reassembler {
    const output: ByteStream
    var pending: map<nat, seq<byte>>
    var eofIndex: Option<nat>
    ghost var held: map<nat, byte>

    ghost function Model(): (model: Store)
      reads this, output
    {
      Store(output.capacity, output.written, output.bytesPopped, held, eofIndex,
            output.closed, output.error)
    }

    ghost predicate Sound()
      reads this, output
    {
      output.Valid() && Holds(pending, held)
    }

    ghost predicate Valid()
      reads this, output
    {
      Sound() && Model().Valid()
    }

    constructor (capacity: nat)
      requires capacity <= U64_MAX
      ensures Valid() && fresh(output)
      ensures Model() == EmptyStore(capacity)
    {
      output := new ByteStream(capacity);
      pending, eofIndex, held := map[], None, map[];
    }

    method TryInsert(firstIndex: nat, data: seq<byte>, isLastSubstring: bool)
      returns (result: Option<ReassemblerError>)
      requires Valid()
      modifies this, output
      ensures Valid()
      ensures Model() == old(Model()).Insert(Fragment(firstIndex, data, isLastSubstring))
      ensures Reports(result, old(Model()), old(pending), Fragment(firstIndex, data, isLastSubstring))
    {
      hide Holds, Store.Absorb;
      ghost var s, f := Model(), Fragment(firstIndex, data, isLastSubstring);
      InsertValid(s, f);
      var originalEnd := firstIndex + |data|;
      if originalEnd > U64_MAX {
        return Some(ReassemblerError.IndexOverflow);
      }
      result := RecordAndValidateEof(originalEnd, isLastSubstring);
      if result.Some? {
        return;
      }
      if eofIndex.Some? && originalEnd > eofIndex.value {
        return Some(ReassemblerError.SegmentBeyondEof(eofIndex.value, firstIndex, originalEnd));
      }
      Absorb(firstIndex, data);
      CloseIfComplete();
    }

    /** The reader takes the next bytes of the output. */
    method Read(len: nat) returns (taken: seq<byte>)
      requires Valid()
      modifies output
      ensures Valid()
      ensures Model() == old(Model()).Read(|taken|)
      ensures old(output.bytesPopped) + |taken| <= |output.written|
      ensures taken == output.written[old(output.bytesPopped)..old(output.bytesPopped) + |taken|]
      ensures |taken| <= len && (taken == [] <==> len == 0 || old(output.bytesBuffered) == 0)
    {
      hide Holds, Stream.Front, Stream.Pop;
      PopTakesNext(output.Model(), len);
      ReadValid(Model(), |output.Model().Front(len)|);
      taken := output.Pop(len);
    }

    /** Clips a fragment to the window and takes it in. */
    method Absorb(firstIndex: nat, data: seq<byte>)
      requires Sound() && Framed(Model())
      requires output.closed ==> firstIndex + |data| <= |output.written|
      modifies this`pending, this`held, output
      ensures Sound() && SameReader()
      ensures Model() == old(Model()).Absorb(firstIndex, data)
    {
      hide Holds, Store.Take;
      var firstUnassembled := output.bytesPushed;
      var firstUnacceptable := SaturatingAdd(output.bytesPopped, output.capacity);
      var clippedStart := Max(firstIndex, firstUnassembled);
      var clippedEnd := Min(firstIndex + |data|, firstUnacceptable);
      if clippedStart < clippedEnd {
        Take(clippedStart, data[clippedStart - firstIndex..clippedEnd - firstIndex]);
      }
    }

    /** Stores a clipped fragment and moves what became contiguous to the output. */
    method Take(start: nat, clipped: seq<byte>)
      requires Sound() && Framed(Model()) && clipped != [] && !output.closed
      requires |output.written| <= start && start + |clipped| <= Model().Limit()
      modifies this`pending, this`held, output
      ensures Sound() && SameReader()
      ensures Model() == old(Model()).Take(start, clipped)
    {
      hide Holds, Settle, Missing;
      if start == output.bytesPushed {
        PushAppends(output.Model(), clipped);
        var accepted := output.Push(clipped);
        assert clipped[..|clipped|] == clipped;
        ghost var base := output.written;
        FlushContiguous();
        if old(output.error) {
          GrownIdle(base, old(held), output.written, held);
        } else {
          GrownSettled(base, old(held), output.written, held);
        }
      } else {
        InsertMissingGaps(start, clipped);
        ghost var filled := held;
        MissingKeys(old(held), start, clipped);
        FlushContiguous();
        GrownIdle(old(output.written), filled, output.written, held);
      }
    }

    method InsertMissingGaps(start: nat, data: seq<byte>)
      requires Holds(pending, held)
      modifies this`pending, this`held
      ensures Holds(pending, held)
      ensures held == old(held) + Missing(old(held), start, data)
    {
      hide Holds;
      if data == [] {
        return;
      }
      var end := start + |data|;
      var cursor := SkipPrevious(start, end);
      ghost var before := held;
      MissingSkip(before, held, start, data, start, cursor);
      while cursor < end
        invariant start <= cursor <= end
        invariant Holds(pending, held)
        invariant held == before + Missing(before, start, data[..cursor - start])
        invariant cursor < end ==> CleanCut(pending, cursor)
        decreases end - cursor
      {
        cursor := FillNext(before, start, data, cursor);
      }
    }

    /** Where a fragment that begins at or before `start` lets the rest go on. */
    method SkipPrevious(start: nat, end: nat) returns (cursor: nat)
      requires Holds(pending, held) && start < end
      ensures start <= cursor <= end
      ensures forall i :: start <= i < cursor ==> i in held
      ensures cursor < end ==> CleanCut(pending, cursor)
    {
      cursor := start;
      var below := set k | k in pending && k <= start;
      var previous := Greatest(below);
      assert forall k :: k in pending && k <= start ==> k in below;
      if previous.Some? {
        var previousEnd := previous.value + |pending[previous.value]|;
        if previousEnd > cursor {
          InsideHeld(pending, held, previous.value);
          cursor := Min(previousEnd, end);
        }
      }
    }

    /** One turn of the gap-filling loop: fills the gap up to the next fragment and passes it. */
    method FillNext(ghost before: map<nat, byte>, start: nat, data: seq<byte>, cursor: nat)
      returns (next: nat)
      requires start <= cursor < start + |data|
      requires Holds(pending, held) && CleanCut(pending, cursor)
      requires held == before + Missing(before, start, data[..cursor - start])
      modifies this`pending, this`held
      ensures cursor < next <= start + |data|
      ensures Holds(pending, held)
      ensures held == before + Missing(before, start, data[..next - start])
      ensures next < start + |data| ==> CleanCut(pending, next)
    {
      hide Holds, Missing, Placed;
      var end := start + |data|;
      var keys := set k | k in pending && cursor <= k < end;
      var nextStart := Least(keys);
      assert forall k :: k in pending && cursor <= k < end ==> k in keys;
      if nextStart == None {
        GapFree(pending, held, cursor, end);
        MissingExtend(before, held, start, data, cursor, end);
        InsertGap(start, data, cursor, end);
        return end;
      }
      var gapEnd, nextEnd := nextStart.value, nextStart.value + |pending[nextStart.value]|;
      GapFree(pending, held, cursor, gapEnd);
      MissingExtend(before, held, start, data, cursor, gapEnd);
      InsertGap(start, data, cursor, gapEnd);
      next := Min(nextEnd, end);
      CutAfter(pending, held, gapEnd);
      InsideHeld(pending, held, gapEnd);
      MissingSkip(before, held, start, data, gapEnd, next);
    }

    method InsertGap(originalStart: nat, originalData: seq<byte>, gapStart: nat, gapEnd: nat)
      requires originalStart <= gapStart <= gapEnd <= originalStart + |originalData|
      requires Holds(pending, held) && CleanCut(pending, gapStart)
      requires forall k :: k in pending ==> k < gapStart || k >= gapEnd
      modifies this`pending, this`held
      ensures Holds(pending, held)
      ensures var gap := originalData[gapStart - originalStart..gapEnd - originalStart];
              && held == old(held) + Placed(gapStart, gap)
              && pending == if gap == [] then old(pending) else old(pending)[gapStart := gap]
    {
      if gapStart >= gapEnd {
        return;
      }
      var gap := originalData[gapStart - originalStart..gapEnd - originalStart];
      AddFragment(pending, held, gapStart, gap);
      pending := pending[gapStart := gap];
      held := held + Placed(gapStart, gap);
    }

    method FlushContiguous()
      requires Sound() && WindowOpen()
      modifies this`pending, this`held, output
      ensures Sound() && SameReader()
      ensures Grown(old(output.written), old(held), output.written, held)
      ensures forall i :: i in held ==> i > |output.written|
    {
      var done := false;
      while !done
        invariant Sound() && WindowOpen() && SameReader()
        invariant Grown(old(output.written), old(held), output.written, held)
        invariant done ==> forall i :: i in held ==> i > |output.written|
        decreases !done, |held|
      {
        ghost var a1, h1 := output.written, held;
        done := FlushStep();
        GrownTransitive(old(output.written), old(held), a1, h1, output.written, held);
      }
    }

    /** One turn of the flushing loop. */
    method FlushStep() returns (done: bool)
      requires Sound() && WindowOpen()
      modifies this`pending, this`held, output
      ensures Sound() && WindowOpen() && SameReader()
      ensures Grown(old(output.written), old(held), output.written, held)
      ensures !done ==> |held| < |old(held)|
      ensures done ==> forall i :: i in held ==> i > |output.written|
    {
      hide Holds;
      var nextRequired := output.bytesPushed;
      var start := Least(pending.Keys);
      if start.Some? && start.value < nextRequired {
        GrownWithout(output.written, held,
                     Interval(start.value, Min(start.value + |pending[start.value]|, nextRequired)));
        TrimStalePrefix(start.value, nextRequired);
        return false;
      }
      if start == Some(nextRequired) {
        CutAfter(pending, held, nextRequired);
        InsideHeld(pending, held, nextRequired);
        assert nextRequired in held;
        PushFragment(nextRequired);
        return false;
      }
      HeldFromLeast(pending, held, nextRequired);
      done := true;
    }

    /** Held bytes fit the window, and a stream that takes no more has none waiting to go in. */
    ghost predicate WindowOpen()
      reads this, output
    {
      && (forall i :: i in held ==> i < output.bytesPopped + output.capacity)
      && (output.closed || output.error ==> forall i :: i in held ==> i > |output.written|)
    }

    /** The parts of the output a flush leaves alone. */
    twostate predicate SameReader()
      reads output
    {
      && output.bytesPopped == old(output.bytesPopped)
      && output.closed == old(output.closed)
      && output.error == old(output.error)
    }

    /** Moves the first pending fragment, which starts where the output ends, to the output.
        There is always room for it, so no remainder is ever put back. */
    method PushFragment(start: nat)
      requires Sound() && start in pending && start == |output.written|
      requires !output.closed && !output.error
      requires forall i :: i in held ==> i < output.bytesPopped + output.capacity
      modifies this`pending, this`held, output
      ensures Sound()
      ensures SameReader()
      ensures Grown(old(output.written), old(held), output.written, held)
      ensures |held| < |old(held)| && held.Keys <= old(held).Keys
    {
      hide Holds;
      MoveFragment(output.written, pending, held);
      PushAppends(output.Model(), pending[start]);
      var data := pending[start];
      pending := pending - {start};
      held := held - Indices(start, data);
      var accepted := output.Push(data);
      assert accepted == |data|;
      assert data[..accepted] == data;
    }

    method TrimStalePrefix(start: nat, nextRequired: nat)
      requires Holds(pending, held) && start in pending && start < nextRequired
      modifies this`pending, this`held
      ensures Holds(pending, held)
      ensures |held| < |old(held)|
      ensures held == old(held) - Interval(start, Min(start + |old(pending)[start]|, nextRequired))
    {
      hide Holds;
      var data := pending[start];
      if start + |data| <= nextRequired {
        DropFragment(pending, held, start);
        pending := pending - {start};
      } else {
        CutFragment(pending, held, start, nextRequired);
        pending := (pending - {start})[nextRequired := data[nextRequired - start..]];
      }
      held := held - Interval(start, Min(start + |data|, nextRequired));
    }

    method RecordAndValidateEof(receivedEof: nat, isLastSubstring: bool)
      returns (result: Option<ReassemblerError>)
      requires Valid()
      modifies this
      ensures output.Valid() && pending == old(pending) && held == old(held)
      ensures result.Some? ==> eofIndex == old(eofIndex)
      ensures result == None ==>
        eofIndex == if isLastSubstring then Some(receivedEof) else old(eofIndex)
      ensures result == None <==>
        !isLastSubstring
        || eofIndex == old(eofIndex) == Some(receivedEof)
        || (old(eofIndex) == None && |output.written| <= receivedEof
            && forall i :: i in held ==> i < receivedEof)
      ensures result.Some? && old(eofIndex).Some? ==>
        result.value == ReassemblerError.InconsistentEof(old(eofIndex).value, receivedEof)
      ensures result.Some? && old(eofIndex) == None ==>
        && result.value.BufferedDataBeyondEof?
        && result.value.eof == receivedEof < result.value.bufferedEnd
        && Model().Knows(result.value.bufferedEnd - 1)
        && LateEnd(output.written, pending, receivedEof, result.value.bufferedEnd)
    {
      hide Holds;
      if !isLastSubstring {
        return None;
      }
      if eofIndex.Some? {
        if eofIndex.value != receivedEof {
          return Some(ReassemblerError.InconsistentEof(eofIndex.value, receivedEof));
        }
        return None;
      }
      if output.bytesPushed > receivedEof {
        return Some(ReassemblerError.BufferedDataBeyondEof(receivedEof, output.bytesPushed));
      }
      var late := set k | k in pending && k + |pending[k]| > receivedEof;
      var beyond := Least(late);
      assert forall k :: k in pending && k + |pending[k]| > receivedEof ==> k in late;
      if beyond.Some? {
        var end := beyond.value + |pending[beyond.value]|;
        CutAfter(pending, held, beyond.value);
        InsideHeld(pending, held, beyond.value);
        assert end - 1 in held;
        assert EndsFirst(pending, receivedEof, beyond.value);
        return Some(ReassemblerError.BufferedDataBeyondEof(receivedEof, end));
      }
      HeldBelow(pending, held, receivedEof);
      eofIndex := Some(receivedEof);
      result := None;
    }

    method CloseIfComplete()
      requires Sound()
      modifies this, output
      ensures Sound()
      ensures Model() == old(Model()).CloseIfComplete()
    {
      if eofIndex.Some? && output.bytesPushed == eofIndex.value {
        output.Close();
      }
    }
  }
}
