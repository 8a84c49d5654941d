/** What a reassembler knows, as a map from stream indices to bytes: the assembled prefix of the
    stream, and isolated bytes beyond the first gap. */
module Stores {
  import opened Words

  datatype Verdict =
    | Accepted
    | IndexOverflow
    | InconsistentEof(existing: nat, received: nat)
    | SegmentBeyondEof(eof: nat, start: nat, end: nat)
    | DataBeyondEof(eof: nat)

  datatype Fragment = Fragment(first: nat, data: seq<byte>, last: bool) {
    function End(): (end: nat) {
      first + |data|
    }
  }

  /** The part of a byte map at or beyond an index. */
  function From(held: map<nat, byte>, start: nat): (rest: map<nat, byte>) {
    map i | i in held && start <= i :: held[i]
  }

  /** The bytes of a fragment at indices where none is held yet. */
  function Missing(held: map<nat, byte>, start: nat, data: seq<byte>): (added: map<nat, byte>) {
    map i | start <= i < start + |data| && i !in held :: data[i - start]
  }

  /** Moves held bytes onto the end of the assembled prefix for as long as the next one is there. */
  function Flush(assembled: seq<byte>, held: map<nat, byte>): (result: (seq<byte>, map<nat, byte>))
    decreases |held|
  {
    var next := |assembled|;
    if next in held then
      assert next in {next} * held.Keys;
      SmallerWithout(held, {next});
      Flush(assembled + [held[next]], held - {next})
    else
      (assembled, held)
  }

  lemma SmallerWithout(held: map<nat, byte>, gone: set<nat>)
    requires gone * held.Keys != {}
    ensures |held - gone| < |held|
  {
    var i :| i in gone * held.Keys;
    var rest := held - gone;
    assert rest.Keys <= held.Keys - {i};
    SubsetSize(rest.Keys, held.Keys - {i});
    assert |rest| == |rest.Keys| && |held| == |held.Keys|;
  }

  lemma {:induction false} SubsetSize(a: set<nat>, b: set<nat>)
    requires a <= b
    ensures |a| <= |b|
  {
    assert |b| == |a| + |b - a| by {
      assert b == a + (b - a);
    }
  }

  /** Forgets held bytes the assembled prefix has overtaken, then flushes. */
  function Settle(assembled: seq<byte>, held: map<nat, byte>): (result: (seq<byte>, map<nat, byte>)) {
    Flush(assembled, From(held, |assembled|))
  }

  datatype Store = Store(
    capacity: nat,
    assembled: seq<byte>,
    popped: nat,
    held: map<nat, byte>,
    eof: Option<nat>,
    closed: bool,
    error: bool)
  {
    /** First index beyond the receive window. */
    function Limit(): (limit: u64) {
      SaturatingAdd(popped, capacity)
    }

    ghost predicate Valid() {
      && popped <= |assembled| <= Limit()
      && (forall i :: i in held ==> |assembled| < i < Limit())
      && (eof.Some? ==> |assembled| <= eof.value && forall i :: i in held ==> i < eof.value)
      && (closed <==> eof == Some(|assembled|))
    }

    /** Whether the byte at a stream index is known. */
    predicate Knows(i: nat) {
      i < |assembled| || i in held
    }

    function At(i: nat): (value: byte)
      requires Knows(i)
    {
      if i < |assembled| then assembled[i] else held[i]
    }

    /** Every known byte, and the end of the stream if known, is that of the stream `w`. */
    ghost predicate Agrees(w: seq<byte>) {
      && assembled <= w
      && (forall i :: i in held ==> i < |w| && held[i] == w[i])
      && (eof.Some? ==> eof.value == |w|)
    }

    /** Takes in data that lies in the window: onto the assembled prefix when it continues it,
        beside what is held otherwise. */
    function Take(start: nat, clipped: seq<byte>): (after: Store) {
      if start != |assembled| then
        this.(held := held + Missing(held, start, clipped))
      else if error then this
      else
        var (a, h) := Settle(assembled + clipped, held);
        this.(assembled := a, held := h)
    }

    /** Takes in the part of the data that lies in the window. */
    function Absorb(first: nat, data: seq<byte>): (after: Store) {
      var lo := Max(first, |assembled|);
      var hi := Min(first + |data|, Limit());
      if lo < hi then Take(lo, data[lo - first..hi - first]) else this
    }

    function CloseIfComplete(): (after: Store) {
      if eof == Some(|assembled|) then this.(closed := true) else this
    }

    /** Whether a fragment may enter, judged before any state changes. */
    function Judge(f: Fragment): (verdict: Verdict) {
      if f.End() > U64_MAX then IndexOverflow
      else if f.last && eof.Some? && eof.value != f.End() then InconsistentEof(eof.value, f.End())
      else if f.last && eof.None? && (|assembled| > f.End() || exists i :: i in held && i >= f.End())
      then DataBeyondEof(f.End())
      else if !f.last && eof.Some? && f.End() > eof.value then SegmentBeyondEof(eof.value, f.first, f.End())
      else Accepted
    }

    function Insert(f: Fragment): (after: Store) {
      if !Judge(f).Accepted? then this
      else this.(eof := if f.last then Some(f.End()) else eof).Absorb(f.first, f.data).CloseIfComplete()
    }

    /** The reader takes `n` assembled bytes. */
    function Read(n: nat): (after: Store) {
      this.(popped := popped + n)
    }

    function SetError(): (after: Store) {
      this.(error := true)
    }
  }

  function EmptyStore(capacity: nat): (s: Store) {
    Store(capacity, [], 0, map[], None, false, false)
  }

  /** Flushing stops at the least missing index and loses nothing. */
  lemma {:induction false} FlushFacts(assembled: seq<byte>, held: map<nat, byte>)
    requires forall i :: i in held ==> |assembled| <= i
    ensures var (a, h) := Flush(assembled, held);
            && assembled <= a
            && (forall i :: |assembled| <= i < |a| ==> i in held && a[i] == held[i])
            && |a| !in held
            && h == From(held, |a|)
    decreases |held|
  {
    var next := |assembled|;
    var (a, h) := Flush(assembled, held);
    if next in held {
      assert next in {next} * held.Keys;
      SmallerWithout(held, {next});
      var assembled' := assembled + [held[next]];
      var held' := held - {next};
      FlushFacts(assembled', held');
      assert Flush(assembled', held') == (a, h);
      assert a[next] == assembled'[next];
      forall i | |assembled| <= i < |a| ensures i in held && a[i] == held[i] {
        if i > next {
          assert i in held';
        }
      }
      assert |a| !in held;
      assert From(held', |a|) == From(held, |a|);
    } else {
      assert From(held, |assembled|) == held;
    }
  }

  lemma SettleFacts(assembled: seq<byte>, held: map<nat, byte>)
    ensures var (a, h) := Settle(assembled, held);
            && assembled <= a
            && (forall i :: |assembled| <= i < |a| ==> i in held && a[i] == held[i])
            && |a| !in held
            && h == From(held, |a|)
  {
    hide Flush;
    var later := From(held, |assembled|);
    FlushFacts(assembled, later);
    var (a, h) := Flush(assembled, later);
    assert From(later, |a|) == From(held, |a|);
    assert forall i :: i >= |assembled| ==> (i in later <==> i in held);
  }

  /** Which result a settled pair must be: the facts above have one solution. */
  lemma SettleUnique(assembled: seq<byte>, held: map<nat, byte>, a: seq<byte>)
    requires assembled <= a
    requires forall i :: |assembled| <= i < |a| ==> i in held && a[i] == held[i]
    requires |a| !in held
    ensures Settle(assembled, held) == (a, From(held, |a|))
  {
    hide Flush;
    var (b, h) := Settle(assembled, held);
    SettleFacts(assembled, held);
    assert |a| > |b| ==> |b| in held;
    assert |b| > |a| ==> |a| in held;
    forall i | 0 <= i < |a| ensures a[i] == b[i] {
      if i < |assembled| {
        assert a[i] == assembled[i] && b[i] == assembled[i];
      }
    }
    assert a == b;
  }

  /** The positions a fragment covers below `limit`. */
  predicate Covers(f: Fragment, limit: nat, i: nat) {
    f.first <= i < f.End() && i < limit
  }

  /** The store before an insert has closed or forgotten anything: its shape without the EOF part. */
  ghost predicate Framed(s: Store) {
    && s.popped <= |s.assembled| <= s.Limit()
    && forall i :: i in s.held ==> |s.assembled| < i < s.Limit()
  }

  /** Whether an index takes the fragment's byte: one that was missing does, and so does every index
      from the end of the assembled prefix on when the fragment continues that prefix. */
  predicate Supplies(f: Fragment, s: Store, i: nat) {
    Covers(f, s.Limit(), i) && (!s.Knows(i) || f.first <= |s.assembled| <= i)
  }

  /** `t` knows what `s` knows plus the fragment's part of the window, with the right bytes. */
  ghost predicate Absorbed(s: Store, t: Store, f: Fragment) {
    && s.assembled <= t.assembled
    && t == s.(assembled := t.assembled, held := t.held)
    && Framed(t)
    && (forall i: nat :: t.Knows(i) <==> s.Knows(i) || Covers(f, s.Limit(), i))
    && (forall i: nat :: t.Knows(i) ==>
          if Supplies(f, s, i) then t.At(i) == f.data[i - f.first] else s.Knows(i) && t.At(i) == s.At(i))
  }

  lemma AbsorbInOrder(s: Store, f: Fragment)
    requires Framed(s) && !s.error
    requires f.first <= |s.assembled| < Min(f.End(), s.Limit())
    ensures Absorbed(s, s.Absorb(f.first, f.data), f)
  {
    hide Settle;
    var t := s.Absorb(f.first, f.data);
    var lo := |s.assembled|;
    var hi := Min(f.End(), s.Limit());
    var base := s.assembled + f.data[lo - f.first..hi - f.first];
    SettleFacts(base, s.held);
    assert |base| == hi;
    assert Framed(t) by {
      if |t.assembled| > hi {
        assert |t.assembled| - 1 in s.held;
      }
    }
    forall i: nat
      ensures t.Knows(i) <==> s.Knows(i) || Covers(f, s.Limit(), i)
    {
      if hi <= i < |t.assembled| {
        assert i in s.held;
      }
    }
    forall i: nat | t.Knows(i)
      ensures if Supplies(f, s, i) then t.At(i) == f.data[i - f.first] else s.Knows(i) && t.At(i) == s.At(i)
    {
      if i < hi {
        assert t.assembled[i] == base[i];
      }
    }
    assert s.assembled <= base;
  }

  lemma AbsorbGap(s: Store, f: Fragment)
    requires Framed(s) && !s.error
    requires |s.assembled| < f.first < Min(f.End(), s.Limit())
    ensures Absorbed(s, s.Absorb(f.first, f.data), f)
  {
    var t := s.Absorb(f.first, f.data);
    var clipped := f.data[..Min(f.End(), s.Limit()) - f.first];
    assert f.data[f.first - f.first..Min(f.End(), s.Limit()) - f.first] == clipped;
    assert t.held == s.held + Missing(s.held, f.first, clipped);
  }

  lemma AbsorbFacts(s: Store, f: Fragment)
    requires Framed(s) && !s.error
    ensures Absorbed(s, s.Absorb(f.first, f.data), f)
  {
    var lo := Max(f.first, |s.assembled|);
    var hi := Min(f.End(), s.Limit());
    if lo < hi {
      if f.first <= |s.assembled| {
        AbsorbInOrder(s, f);
      } else {
        AbsorbGap(s, f);
      }
    }
  }

  /** Every operation keeps the shape of the store, whatever arrives. */
  lemma InsertValid(s: Store, f: Fragment)
    requires s.Valid()
    ensures s.Insert(f).Valid()
  {
    hide Store.Absorb;
    if s.Judge(f).Accepted? {
      var s1 := s.(eof := if f.last then Some(f.End()) else s.eof);
      EofBoundsAll(s, f);
      AbsorbWithinEof(s1, f);
      if s.closed {
        ClosedAbsorbsNothing(s1, f);
      }
    }
  }

  /** After a fragment is accepted the end of the stream, if known, bounds old and new bytes alike. */
  lemma EofBoundsAll(s: Store, f: Fragment)
    requires s.Valid() && s.Judge(f).Accepted?
    ensures var s1 := s.(eof := if f.last then Some(f.End()) else s.eof);
            && (s1.eof.Some? ==> f.End() <= s1.eof.value && |s.assembled| <= s1.eof.value)
            && (s1.eof.Some? ==> forall i :: i in s.held ==> i < s1.eof.value)
            && (s.closed ==> s1.eof == s.eof)
  {
  }

  lemma ClosedAbsorbsNothing(s: Store, f: Fragment)
    requires f.End() <= |s.assembled|
    ensures s.Absorb(f.first, f.data) == s
  {
    hide Store.Take;
  }

  lemma AbsorbWithinEof(s: Store, f: Fragment)
    requires Framed(s)
    requires s.eof.Some? ==> f.End() <= s.eof.value && |s.assembled| <= s.eof.value
    requires s.eof.Some? ==> forall i :: i in s.held ==> i < s.eof.value
    ensures var t := s.Absorb(f.first, f.data);
            && Framed(t)
            && t == s.(assembled := t.assembled, held := t.held)
            && (t.eof.Some? ==> |t.assembled| <= t.eof.value)
            && (t.eof.Some? ==> forall i :: i in t.held ==> i < t.eof.value)
  {
    hide Store.Absorb;
    var t := s.Absorb(f.first, f.data);
    if s.error {
      AbsorbInError(s, f);
    } else {
      AbsorbFacts(s, f);
      assert |t.assembled| > 0 ==> t.Knows(|t.assembled| - 1);
      assert forall i: nat :: i in t.held ==> t.Knows(i);
    }
  }

  /** In error nothing is assembled any more; only gaps still fill. */
  lemma AbsorbInError(s: Store, f: Fragment)
    requires Framed(s) && s.error
    ensures var t := s.Absorb(f.first, f.data);
            && t == s.(held := t.held)
            && forall i: nat :: i in t.held <==> i in s.held || (f.first > |s.assembled| && Covers(f, s.Limit(), i))
  {
    hide Settle, Missing;
    var lo, hi := Max(f.first, |s.assembled|), Min(f.End(), s.Limit());
    if |s.assembled| < lo < hi {
      MissingKeys(s.held, lo, f.data[lo - f.first..hi - f.first]);
    }
  }

  lemma MissingKeys(held: map<nat, byte>, start: nat, data: seq<byte>)
    ensures forall i :: i in held + Missing(held, start, data) <==> i in held || start <= i < start + |data|
  {
  }

  lemma ReadValid(s: Store, n: nat)
    requires s.Valid()
    requires s.popped + n <= |s.assembled|
    ensures s.Read(n).Valid()
  {
  }

  /** An end of the stream that contradicts neither what is known nor the fragment. */
  predicate PossibleEnd(s: Store, f: Fragment, end: nat) {
    && (s.eof.Some? ==> end == s.eof.value)
    && |s.assembled| <= end && (forall i :: i in s.held ==> i < end)
    && f.End() <= end && (f.last ==> f.End() == end)
  }

  /** A fragment is accepted exactly when its range fits 64 bits and the stream may have some end that
      contradicts neither what is known nor the fragment. */
  lemma AcceptedExactly(s: Store, f: Fragment)
    requires s.Valid()
    ensures s.Judge(f).Accepted? <==> f.End() <= U64_MAX && exists end: nat :: PossibleEnd(s, f, end)
  {
    if s.Judge(f).Accepted? {
      var end := if s.eof.Some? then s.eof.value else if f.last then f.End() else U64_MAX;
      assert PossibleEnd(s, f, end);
    }
  }

  /** Which contradiction is reported: a range beyond 64 bits before anything else; then, of a last
      fragment, an end other than the known one, or else known bytes at or beyond its end; of any other
      fragment, that it reaches beyond the known end. */
  lemma RejectedBecause(s: Store, f: Fragment)
    requires s.Valid()
    ensures s.Judge(f) == IndexOverflow <==> f.End() > U64_MAX
    ensures f.End() <= U64_MAX ==>
              && (s.Judge(f).InconsistentEof? <==> f.last && s.eof.Some? && s.eof.value != f.End())
              && (s.Judge(f).SegmentBeyondEof? <==> !f.last && s.eof.Some? && f.End() > s.eof.value)
              && (s.Judge(f).DataBeyondEof? <==>
                    f.last && s.eof.None? && exists i: nat :: s.Knows(i) && i >= f.End())
    ensures match s.Judge(f)
            case InconsistentEof(existing, received) => s.eof == Some(existing) && received == f.End()
            case SegmentBeyondEof(eof, start, end) => s.eof == Some(eof) && start == f.first && end == f.End()
            case DataBeyondEof(eof) => eof == f.End()
            case _ => true
  {
    if f.last && s.eof.None? && f.End() < |s.assembled| {
      assert s.Knows(f.End());
    }
    if i :| i in s.held && i >= f.End() {
      assert s.Knows(i);
    }
  }

  /** A rejected fragment changes nothing; an accepted one adds to what is known exactly its own
      indices inside the window, and the assembled prefix ends at the least index still missing. */
  lemma InsertCoverage(s: Store, f: Fragment)
    requires s.Valid() && !s.error
    ensures !s.Judge(f).Accepted? ==> s.Insert(f) == s
    ensures s.Judge(f).Accepted? ==>
      var t := s.Insert(f);
      && (forall i: nat :: t.Knows(i) <==> s.Knows(i) || Covers(f, s.Limit(), i))
      && !t.Knows(|t.assembled|)
      && (forall i: nat :: i < |t.assembled| ==> t.Knows(i))
      && t.popped == s.popped && t.capacity == s.capacity
  {
    if s.Judge(f).Accepted? {
      var s1 := s.(eof := if f.last then Some(f.End()) else s.eof);
      AbsorbFacts(s1, f);
      var t1 := s1.Absorb(f.first, f.data);
      var t := s.Insert(f);
      assert t == t1.CloseIfComplete();
      assert forall i: nat :: (t.Knows(i) <==> t1.Knows(i)) && (s.Knows(i) <==> s1.Knows(i));
    }
  }

  /** Exactly which byte stands at every known index after an accepted insert: bytes that continue the
      assembled prefix are the fragment's, also over held ones; elsewhere known bytes stay and the
      fragment fills the gaps. */
  lemma InsertContents(s: Store, f: Fragment)
    requires s.Valid() && !s.error && s.Judge(f).Accepted?
    ensures forall i: nat :: s.Insert(f).Knows(i) ==>
              if Supplies(f, s, i) then s.Insert(f).At(i) == f.data[i - f.first]
              else s.Knows(i) && s.Insert(f).At(i) == s.At(i)
  {
    hide Store.Absorb;
    var s1 := s.(eof := if f.last then Some(f.End()) else s.eof);
    AbsorbFacts(s1, f);
    var t1 := s1.Absorb(f.first, f.data);
    assert s.Insert(f) == t1.CloseIfComplete();
    forall i: nat | s.Insert(f).Knows(i)
      ensures if Supplies(f, s, i) then s.Insert(f).At(i) == f.data[i - f.first]
              else s.Knows(i) && s.Insert(f).At(i) == s.At(i)
    {
      assert t1.Knows(i) && t1.At(i) == s.Insert(f).At(i);
      assert Supplies(f, s1, i) <==> Supplies(f, s, i);
    }
  }

  /** A store in error still fills gaps, but a fragment that would continue the prefix adds nothing. */
  lemma InsertCoverageInError(s: Store, f: Fragment)
    requires s.Valid() && s.error && s.Judge(f).Accepted?
    ensures s.Insert(f).assembled == s.assembled
    ensures forall i: nat ::
              s.Insert(f).Knows(i) <==> s.Knows(i) || (f.first > |s.assembled| && Covers(f, s.Limit(), i))
  {
    hide Store.Absorb;
    var s1 := s.(eof := if f.last then Some(f.End()) else s.eof);
    AbsorbInError(s1, f);
    assert s.Insert(f) == s1.Absorb(f.first, f.data).CloseIfComplete();
  }

  /** Whatever arrives, what was assembled stays, and a complete stream stays complete. */
  lemma InsertGrows(s: Store, f: Fragment)
    requires s.Valid()
    ensures var t := s.Insert(f);
            && s.assembled <= t.assembled
            && t.popped == s.popped && t.capacity == s.capacity && t.error == s.error
            && (s.closed ==> t == s)
  {
    hide Store.Absorb;
    if s.Judge(f).Accepted? {
      var s1 := s.(eof := if f.last then Some(f.End()) else s.eof);
      if s.error {
        AbsorbInError(s1, f);
      } else {
        AbsorbFacts(s1, f);
      }
      if s.closed {
        ClosedAbsorbsNothing(s1, f);
      }
    }
  }

  /** A fragment of the stream `w`. */
  ghost predicate Honest(f: Fragment, w: seq<byte>) {
    && f.End() <= |w|
    && f.data == w[f.first..f.End()]
    && (f.last ==> f.End() == |w|)
  }

  lemma HonestAccepted(s: Store, f: Fragment, w: seq<byte>)
    requires s.Valid() && s.Agrees(w) && Honest(f, w) && |w| <= U64_MAX
    ensures s.Judge(f) == Accepted
  {
  }

  /** Fragments of one true stream are never rejected, and what is known stays true. */
  lemma HonestInsert(s: Store, f: Fragment, w: seq<byte>)
    requires s.Valid() && s.Agrees(w) && Honest(f, w) && |w| <= U64_MAX && !s.error
    ensures s.Judge(f) == Accepted
    ensures s.Insert(f).Agrees(w)
    ensures s.Insert(f).eof == if f.last then Some(|w|) else s.eof
    ensures !s.Insert(f).error
    ensures s.assembled <= s.Insert(f).assembled
  {
    hide Store.Absorb;
    HonestAccepted(s, f, w);
    var s1 := s.(eof := if f.last then Some(f.End()) else s.eof);
    AbsorbFacts(s1, f);
    var t := s1.Absorb(f.first, f.data);
    forall i: nat | t.Knows(i) ensures i < |w| && t.At(i) == w[i] {
      if f.first <= i < f.End() && t.At(i) == f.data[i - f.first] {
        assert f.data[i - f.first] == w[i];
      } else {
        assert s1.Knows(i) && t.At(i) == s1.At(i);
      }
    }
    AgreesPointwise(t, w);
    assert s.Insert(f) == t.CloseIfComplete();
  }

  lemma AgreesPointwise(t: Store, w: seq<byte>)
    requires forall i: nat :: t.Knows(i) ==> i < |w| && t.At(i) == w[i]
    requires forall i :: i in t.held ==> |t.assembled| <= i
    requires t.eof.Some? ==> t.eof.value == |w|
    ensures t.Agrees(w)
  {
    var n := |t.assembled|;
    if n > 0 {
      assert t.Knows(n - 1);
    }
    assert forall i: nat :: i < n ==> t.Knows(i) && t.assembled[i] == t.At(i);
    assert t.assembled == w[..n];
    assert forall i :: i in t.held ==> t.Knows(i) && t.held[i] == t.At(i);
  }

  /** A store that agrees with a stream is determined by which indices are known. */
  lemma DeterminedByKnown(s: Store, t: Store, w: seq<byte>)
    requires s.Valid() && t.Valid() && s.Agrees(w) && t.Agrees(w)
    requires forall i: nat :: s.Knows(i) <==> t.Knows(i)
    requires s.capacity == t.capacity && s.popped == t.popped && s.eof == t.eof && s.error == t.error
    ensures s == t
  {
    assert !t.Knows(|s.assembled|) && !s.Knows(|t.assembled|);
    assert |s.assembled| == |t.assembled|;
    assert s.assembled == w[..|s.assembled|] == t.assembled;
    assert forall i: nat :: i in s.held <==> s.Knows(i) && i >= |s.assembled|;
    assert forall i: nat :: i in t.held <==> t.Knows(i) && i >= |t.assembled|;
    assert s.held == t.held;
  }

  function InsertAll(s: Store, fs: seq<Fragment>): (t: Store)
    requires s.Valid()
    ensures t.Valid()
    decreases |fs|
  {
    if fs == [] then s
    else
      InsertValid(s, fs[0]);
      InsertAll(s.Insert(fs[0]), fs[1..])
  }

  /** Some fragment of a batch covers the position. */
  ghost predicate CoveredBy(fs: seq<Fragment>, limit: nat, i: nat) {
    exists k :: 0 <= k < |fs| && Covers(fs[k], limit, i)
  }

  ghost predicate SomeLast(fs: seq<Fragment>) {
    exists k :: 0 <= k < |fs| && fs[k].last
  }

  lemma CoveredSplit(fs: seq<Fragment>, limit: nat, i: nat)
    requires fs != []
    ensures CoveredBy(fs, limit, i) <==> Covers(fs[0], limit, i) || CoveredBy(fs[1..], limit, i)
  {
    var rest := fs[1..];
    if CoveredBy(rest, limit, i) {
      var k :| 0 <= k < |rest| && Covers(rest[k], limit, i);
      assert fs[k + 1] == rest[k];
    }
    if CoveredBy(fs, limit, i) && !Covers(fs[0], limit, i) {
      var k :| 0 <= k < |fs| && Covers(fs[k], limit, i);
      assert rest[k - 1] == fs[k];
    }
  }

  lemma SomeLastSplit(fs: seq<Fragment>)
    requires fs != []
    ensures SomeLast(fs) <==> fs[0].last || SomeLast(fs[1..])
  {
    if SomeLast(fs) && !fs[0].last {
      var k :| 0 <= k < |fs| && fs[k].last;
      assert fs[1..][k - 1].last;
    }
    if SomeLast(fs[1..]) {
      var k :| 0 <= k < |fs[1..]| && fs[1..][k].last;
      assert fs[k + 1].last;
    }
  }

  lemma {:induction false} InsertAllCoverage(s: Store, fs: seq<Fragment>, w: seq<byte>)
    requires s.Valid() && s.Agrees(w) && !s.error && |w| <= U64_MAX
    requires forall k :: 0 <= k < |fs| ==> Honest(fs[k], w)
    ensures InsertAll(s, fs).Agrees(w)
    ensures forall i: nat ::
      InsertAll(s, fs).Knows(i) <==> s.Knows(i) || CoveredBy(fs, s.Limit(), i)
    ensures InsertAll(s, fs).eof == if SomeLast(fs) then Some(|w|) else s.eof
    ensures var t := InsertAll(s, fs);
            t.capacity == s.capacity && t.popped == s.popped && t.error == s.error
    decreases |fs|
  {
    if fs != [] {
      var s1, rest := s.Insert(fs[0]), fs[1..];
      InsertValid(s, fs[0]);
      HonestInsert(s, fs[0], w);
      InsertCoverage(s, fs[0]);
      InsertAllCoverage(s1, rest, w);
      SomeLastSplit(fs);
      forall i: nat
        ensures InsertAll(s, fs).Knows(i) <==> s.Knows(i) || CoveredBy(fs, s.Limit(), i)
      {
        CoveredSplit(fs, s.Limit(), i);
        assert s1.Knows(i) <==> s.Knows(i) || Covers(fs[0], s.Limit(), i);
      }
    }
  }

  /** The order, and the number of times, in which the fragments of one stream arrive does not
      matter: batches with the same members lead to the same store, even when the window clips them. */
  lemma ArrivalOrderIrrelevant(s: Store, fs: seq<Fragment>, gs: seq<Fragment>, w: seq<byte>)
    requires s.Valid() && s.Agrees(w) && !s.error && |w| <= U64_MAX
    requires forall f :: f in fs ==> Honest(f, w)
    requires forall f :: f in fs <==> f in gs
    ensures InsertAll(s, fs) == InsertAll(s, gs)
  {
    assert forall k :: 0 <= k < |fs| ==> fs[k] in fs;
    assert forall k :: 0 <= k < |gs| ==> gs[k] in fs;
    InsertAllCoverage(s, fs, w);
    InsertAllCoverage(s, gs, w);
    forall i: nat
      ensures InsertAll(s, fs).Knows(i) <==> InsertAll(s, gs).Knows(i)
    {
      if CoveredBy(fs, s.Limit(), i) { SameMembersCarry(fs, gs, s.Limit(), i); }
      if CoveredBy(gs, s.Limit(), i) { SameMembersCarry(gs, fs, s.Limit(), i); }
    }
    SameMembersLast(fs, gs);
    SameMembersLast(gs, fs);
    DeterminedByKnown(InsertAll(s, fs), InsertAll(s, gs), w);
  }

  lemma SameMembersCarry(fs: seq<Fragment>, gs: seq<Fragment>, limit: nat, i: nat)
    requires forall f :: f in fs ==> f in gs
    requires CoveredBy(fs, limit, i)
    ensures CoveredBy(gs, limit, i)
  {
    var k :| 0 <= k < |fs| && Covers(fs[k], limit, i);
    assert fs[k] in gs;
  }

  lemma SameMembersLast(fs: seq<Fragment>, gs: seq<Fragment>)
    requires forall f :: f in fs ==> f in gs
    ensures SomeLast(fs) ==> SomeLast(gs)
  {
    if SomeLast(fs) {
      var k :| 0 <= k < |fs| && fs[k].last;
      assert fs[k] in gs;
    }
  }

  /** Buffered and held bytes together never exceed the capacity. */
  lemma JointCapacity(s: Store)
    requires s.Valid()
    ensures |s.assembled| - s.popped + |s.held| <= s.capacity
  {
    var room := Interval(|s.assembled|, s.Limit());
    assert s.held.Keys <= room;
    SubsetSize(s.held.Keys, room);
    IntervalSize(|s.assembled|, s.Limit());
  }
}
