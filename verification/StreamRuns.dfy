/** Every run of a stream: what its reads return, up to where each write ended. */
module StreamRuns {
  import opened Words
  import opened ByteStreams

  /** `e` is where one of the chunks ends, when the first of them starts at `base`. */
  predicate EndsChunk(chunks: seq<seq<byte>>, base: nat, e: nat) {
    chunks != [] && (e == base + |chunks[0]| || EndsChunk(chunks[1..], base + |chunks[0]|, e))
  }

  lemma {:induction false} EndsAppend(chunks: seq<seq<byte>>, chunk: seq<byte>, base: nat, e: nat)
    ensures EndsChunk(chunks + [chunk], base, e)
       <==> EndsChunk(chunks, base, e) || e == base + |Flatten(chunks)| + |chunk|
  {
    if chunks == [] {
      assert (chunks + [chunk])[1..] == [];
    } else {
      assert (chunks + [chunk])[1..] == chunks[1..] + [chunk];
      EndsAppend(chunks[1..], chunk, base + |chunks[0]|, e);
    }
  }

  /** Chunks are not empty, so each ends beyond where the first starts, and none before the first. */
  lemma {:induction false} EndsBeyond(chunks: seq<seq<byte>>, base: nat, e: nat)
    requires forall k :: 0 <= k < |chunks| ==> chunks[k] != []
    requires EndsChunk(chunks, base, e)
    ensures base + |chunks[0]| <= e <= base + |Flatten(chunks)|
  {
    if e != base + |chunks[0]| {
      EndsBeyond(chunks[1..], base + |chunks[0]|, e);
    }
  }

  /** A read stops where it was asked to, or at the end of the first chunk, whichever comes first. */
  lemma ReadStops(s: Stream, len: nat)
    requires s.Valid()
    ensures var stop := s.popped + |s.Front(len)|;
            && (stop < s.popped + len && s.Buffered() > 0 ==> EndsChunk(s.chunks, s.popped, stop))
            && (forall e :: EndsChunk(s.chunks, s.popped, e) ==> stop <= e)
  {
    forall e | EndsChunk(s.chunks, s.popped, e)
      ensures s.popped + |s.Front(len)| <= e
    {
      EndsBeyond(s.chunks, s.popped, e);
    }
  }

  /** A read leaves the ends of the chunks beyond it where they are. */
  lemma ReadKeepsEnds(s: Stream, len: nat, e: nat)
    requires s.Valid()
    ensures EndsChunk(s.Pop(len).chunks, s.Pop(len).popped, e)
       <==> EndsChunk(s.chunks, s.popped, e) && e > s.Pop(len).popped
  {
    hide Flatten;
    if EndsChunk(s.chunks, s.popped, e) {
      EndsBeyond(s.chunks, s.popped, e);
    }
    if s.chunks != [] {
      var rest := s.chunks[1..];
      var front := s.Front(len);
      if EndsChunk(rest, s.popped + |s.chunks[0]|, e) {
        EndsBeyond(rest, s.popped + |s.chunks[0]|, e);
      }
      if front != [] && |front| < |s.chunks[0]| {
        assert ([s.chunks[0][|front|..]] + rest)[1..] == rest;
      } else {
        assert [] + rest == rest;
      }
    }
  }

  lemma WriteAddsEnd(s: Stream, data: seq<byte>, e: nat)
    requires s.Valid()
    ensures EndsChunk(s.Push(data).chunks, s.popped, e)
       <==> EndsChunk(s.chunks, s.popped, e) || (s.Accepts(data) > 0 && e == |s.written| + s.Accepts(data))
  {
    EndsAppend(s.chunks, data[..s.Accepts(data)], s.popped, e);
  }

  datatype StreamEvent =
    | Write(data: seq<byte>)
    | Read(len: nat)
    | Close
    | Fail

  /** What a user of a stream can note down: the bytes taken from its writes and where each of those
      writes ended, how many bytes came back, and whether it closed the stream or saw it fail. */
  datatype Diary = Diary(accepted: seq<byte>, ends: set<nat>, returned: nat, closed: bool, failed: bool)

  /** How much a write takes. */
  function Taken(d: Diary, capacity: nat, data: seq<byte>): (count: nat) {
    if d.closed || d.failed then 0 else Max(0, Min(|data|, capacity - (|d.accepted| - d.returned)))
  }

  /** Where a read stops: as far as was asked for, but not beyond the end of the write it reads from. */
  ghost predicate StopsAt(d: Diary, len: nat, stop: nat) {
    && d.returned <= stop <= Min(d.returned + len, |d.accepted|)
    && (stop < Min(d.returned + len, |d.accepted|) ==> stop in d.ends && stop > d.returned)
    && forall e :: e in d.ends && d.returned < e ==> stop <= e
  }

  ghost predicate Noted(d: Diary, e: StreamEvent, capacity: nat, after: Diary) {
    match e
    case Write(data) =>
      var n := Taken(d, capacity, data);
      && n <= |data|
      && after == d.(accepted := d.accepted + data[..n],
                     ends := if n == 0 then d.ends else d.ends + {|d.accepted| + n})
    case Read(len) => StopsAt(d, len, after.returned) && after == d.(returned := after.returned)
    case Close => after == d.(closed := true)
    case Fail => after == d.(failed := true)
  }

  function StepStream(s: Stream, e: StreamEvent): (t: Stream)
    requires s.Valid()
    ensures t.Valid()
  {
    match e
    case Write(data) => PushAppends(s, data); s.Push(data)
    case Read(len) => PopTakesNext(s, len); s.Pop(len)
    case Close => s.Close()
    case Fail => s.SetError()
  }

  function RunStream(s: Stream, events: seq<StreamEvent>): (t: Stream)
    requires s.Valid()
    ensures t.Valid()
    decreases |events|
  {
    if events == [] then s else RunStream(StepStream(s, events[0]), events[1..])
  }

  /** The diary agrees with the stream. */
  ghost predicate Tells(d: Diary, s: Stream) {
    && d.accepted == s.written && d.returned == s.popped
    && d.closed == s.closed && d.failed == s.error
    && forall e: nat :: EndsChunk(s.chunks, s.popped, e) <==> e in d.ends && e > s.popped
  }

  lemma WriteTold(d: Diary, s: Stream, data: seq<byte>) returns (after: Diary)
    requires s.Valid() && Tells(d, s)
    ensures Noted(d, Write(data), s.capacity, after) && Tells(after, s.Push(data))
  {
    hide Flatten, EndsChunk;
    PushAppends(s, data);
    var n := s.Accepts(data);
    after := d.(accepted := d.accepted + data[..n], ends := if n == 0 then d.ends else d.ends + {|d.accepted| + n});
    forall x: nat
      ensures EndsChunk(s.Push(data).chunks, s.popped, x) <==> x in after.ends && x > s.popped
    {
      WriteAddsEnd(s, data, x);
    }
  }

  lemma ReadTold(d: Diary, s: Stream, len: nat) returns (after: Diary)
    requires s.Valid() && Tells(d, s)
    ensures Noted(d, Read(len), s.capacity, after) && Tells(after, s.Pop(len))
  {
    hide Flatten, EndsChunk, Stream.Pop, Stream.Front;
    PopTakesNext(s, len);
    ReadStops(s, len);
    after := d.(returned := s.Pop(len).popped);
    forall x: nat
      ensures EndsChunk(s.Pop(len).chunks, s.Pop(len).popped, x) <==> x in after.ends && x > s.Pop(len).popped
    {
      ReadKeepsEnds(s, len, x);
    }
  }

  /** What a stream does next, as its diary says it must. */
  lemma StepTold(d: Diary, s: Stream, e: StreamEvent) returns (after: Diary)
    requires s.Valid() && Tells(d, s)
    ensures Noted(d, e, s.capacity, after) && Tells(after, StepStream(s, e))
    ensures StepStream(s, e).capacity == s.capacity
  {
    hide Stream.Valid, StopsAt, EndsChunk, Stream.Front;
    match e
    case Write(data) => after := WriteTold(d, s, data);
    case Read(len) => after := ReadTold(d, s, len);
    case Close => after := d.(closed := true);
    case Fail => after := d.(failed := true);
  }

  /** A sequence of diaries, each noting one event. */
  ghost predicate Kept(diaries: seq<Diary>, events: seq<StreamEvent>, capacity: nat) {
    && |diaries| == |events| + 1
    && forall k :: 0 <= k < |events| ==> Noted(diaries[k], events[k], capacity, diaries[k + 1])
  }

  /** In every run: a write is taken as far as there is room and nothing at all after closing or a
      failure, every read returns all that was asked for or stops at the end of the write it reads
      from, and the bytes come back in order. */
  lemma {:induction false} RunIsTold(s: Stream, d: Diary, events: seq<StreamEvent>) returns (diaries: seq<Diary>)
    requires s.Valid() && Tells(d, s)
    ensures Kept(diaries, events, s.capacity) && diaries[0] == d
    ensures Tells(diaries[|events|], RunStream(s, events))
    decreases |events|
  {
    hide Tells, Noted;
    diaries := [d];
    if events != [] {
      var next := StepTold(d, s, events[0]);
      var rest := RunIsTold(StepStream(s, events[0]), next, events[1..]);
      diaries := [d] + rest;
      forall k | 0 <= k < |events|
        ensures Noted(diaries[k], events[k], s.capacity, diaries[k + 1])
      {
        if k > 0 {
          assert Noted(rest[k - 1], events[1..][k - 1], s.capacity, rest[k]);
        }
      }
    }
  }

  lemma ReachableStream(capacity: nat, events: seq<StreamEvent>) returns (diaries: seq<Diary>)
    ensures Empty(capacity).Valid()
    ensures Kept(diaries, events, capacity) && diaries[0] == Diary([], {}, 0, false, false)
    ensures Tells(diaries[|events|], RunStream(Empty(capacity), events))
  {
    hide Kept;
    diaries := RunIsTold(Empty(capacity), Diary([], {}, 0, false, false), events);
  }
}
