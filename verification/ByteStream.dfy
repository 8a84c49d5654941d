/** A bounded first-in first-out stream of bytes, held as a queue of chunks. */
module ByteStreams {
  import opened Words

  /** The bytes of the chunks, in order. */
  function Flatten(chunks: seq<seq<byte>>): (bytes: seq<byte>) {
    if chunks == [] then [] else chunks[0] + Flatten(chunks[1..])
  }

  /** The value of a stream. `written` is everything ever accepted, of which the reader has
      taken the first `popped` bytes. */
  datatype Stream = Stream(
    capacity: nat,
    written: seq<byte>,
    chunks: seq<seq<byte>>,
    popped: nat,
    closed: bool,
    error: bool)
  {
    /** The chunks hold exactly the bytes that were written and not yet read. */
    ghost predicate Valid() {
      && popped <= |written| <= popped + capacity
      && (forall k :: 0 <= k < |chunks| ==> chunks[k] != [])
      && Flatten(chunks) == written[popped..]
    }

    function Buffered(): (count: int) {
      |written| - popped
    }

    function Available(): (room: int) {
      capacity - Buffered()
    }

    /** How many bytes of `data` a write takes. */
    function Accepts(data: seq<byte>): (count: nat)
      requires Available() >= 0
    {
      if closed || error then 0 else Min(|data|, Available())
    }

    function Push(data: seq<byte>): (after: Stream)
      requires Available() >= 0
    {
      var accepted := data[..Accepts(data)];
      if accepted == [] then this
      else this.(written := written + accepted, chunks := chunks + [accepted])
    }

    /** The bytes one read takes: at most the front chunk. */
    function Front(len: nat): (taken: seq<byte>) {
      if chunks == [] then [] else chunks[0][..Min(len, |chunks[0]|)]
    }

    function Pop(len: nat): (after: Stream) {
      var taken := Front(len);
      if taken == [] then this
      else this.(popped := popped + |taken|,
                 chunks := (if |taken| == |chunks[0]| then [] else [chunks[0][|taken|..]]) + chunks[1..])
    }

    function Close(): (after: Stream) {
      this.(closed := true)
    }

    function SetError(): (after: Stream) {
      this.(error := true)
    }
  }

  function Empty(capacity: nat): (stream: Stream) {
    Stream(capacity, [], [], 0, false, false)
  }

  lemma {:induction false} FlattenAppend(chunks: seq<seq<byte>>, chunk: seq<byte>)
    ensures Flatten(chunks + [chunk]) == Flatten(chunks) + chunk
  {
    if chunks == [] {
      assert chunks + [chunk] == [chunk];
    } else {
      assert (chunks + [chunk])[1..] == chunks[1..] + [chunk];
      FlattenAppend(chunks[1..], chunk);
    }
  }

  /** A write keeps what was readable, appends the longest prefix there is room for, and takes
      nothing when the stream is closed or in error. */
  lemma PushAppends(s: Stream, data: seq<byte>)
    requires s.Valid()
    ensures s.Push(data).Valid()
    ensures var n := s.Accepts(data);
            && n <= |data|
            && s.Push(data).written == s.written + data[..n]
            && (s.closed || s.error ==> n == 0)
            && (n < |data| ==> s.closed || s.error || s.Push(data).Buffered() == s.capacity)
    ensures Flatten(s.Push(data).chunks) == Flatten(s.chunks) + data[..s.Accepts(data)]
  {
    var accepted := data[..s.Accepts(data)];
    if accepted != [] {
      FlattenAppend(s.chunks, accepted);
      assert (s.written + accepted)[s.popped..] == s.written[s.popped..] + accepted;
    }
  }

  /** Taking the front of a queue of chunks takes the front of what it spells. */
  lemma FrontOfFlatten(s: Stream, len: nat)
    requires s.chunks != []
    ensures var n := |s.Front(len)|;
            && n <= |Flatten(s.chunks)|
            && s.Front(len) == Flatten(s.chunks)[..n]
            && Flatten(s.Pop(len).chunks) == Flatten(s.chunks)[n..]
  {
    var taken := s.Front(len);
    var rest := s.chunks[1..];
    var whole := s.chunks[0] + Flatten(rest);
    assert whole[|taken|..] == s.chunks[0][|taken|..] + Flatten(rest);
    if taken != [] && |taken| < |s.chunks[0]| {
      var left := [s.chunks[0][|taken|..]] + rest;
      assert left[1..] == rest;
      assert s.Pop(len).chunks == left;
    } else if taken != [] {
      assert s.Pop(len).chunks == rest;
    }
  }

  /** A read returns the next unread bytes, in order; it returns nothing only when nothing was
      asked for or nothing is buffered. */
  lemma PopTakesNext(s: Stream, len: nat)
    requires s.Valid()
    ensures s.Pop(len).Valid()
    ensures var n := |s.Front(len)|;
            && n <= len
            && s.popped + n <= |s.written|
            && s.Front(len) == s.written[s.popped..s.popped + n]
            && s.Pop(len) == s.(popped := s.popped + n, chunks := s.Pop(len).chunks)
            && (n == 0 <==> len == 0 || s.Buffered() == 0)
            && (n == 0 ==> s.Pop(len) == s)
  {
    if s.chunks != [] {
      FrontOfFlatten(s, len);
      hide Flatten;
      var n := |s.Front(len)|;
      var unread := s.written[s.popped..];
      assert unread[n..] == s.written[s.popped + n..];
      assert unread[..n] == s.written[s.popped..s.popped + n];
    }
  }

  /** The stream as the program keeps it: a queue of chunks and running counters. */
  class ByteStream {
    const capacity: nat
    var chunks: seq<seq<byte>>
    var bytesBuffered: nat
    var bytesPushed: nat
    var bytesPopped: nat
    var closed: bool
    var error: bool
    ghost var written: seq<byte>

    ghost function Model(): (model: Stream)
      reads this
    {
      Stream(capacity, written, chunks, bytesPopped, closed, error)
    }

    ghost predicate Valid()
      reads this
    {
      && Model().Valid()
      && bytesPushed == |written|
      && bytesBuffered == bytesPushed - bytesPopped
    }

    constructor (capacity: nat)
      ensures Valid()
      ensures Model() == Empty(capacity)
    {
      this.capacity := capacity;
      chunks, bytesBuffered, bytesPushed, bytesPopped := [], 0, 0, 0;
      closed, error := false, false;
      written := [];
    }

    method Push(data: seq<byte>) returns (accepted: nat)
      requires Valid()
      modifies this
      ensures Valid()
      ensures Model() == old(Model()).Push(data)
      ensures accepted == old(Model()).Accepts(data)
    {
      PushAppends(Model(), data);
      if closed || error {
        return 0;
      }
      accepted := Min(|data|, capacity - bytesBuffered);
      if accepted > 0 {
        var chunk := if accepted == |data| then data else data[..accepted];
        assert chunk == data[..accepted];
        chunks := chunks + [chunk];
        bytesBuffered := bytesBuffered + accepted;
        bytesPushed := bytesPushed + accepted;
        written := written + chunk;
      }
    }

    method Pop(len: nat) returns (taken: seq<byte>)
      requires Valid()
      modifies this
      ensures Valid()
      ensures Model() == old(Model()).Pop(len)
      ensures taken == old(Model()).Front(len)
    {
      PopTakesNext(Model(), len);
      if chunks == [] {
        return [];
      }
      var front := chunks[0];
      var rest := chunks[1..];
      var popped := Min(len, |front|);
      if popped == 0 {
        return [];
      }
      bytesBuffered := bytesBuffered - popped;
      bytesPopped := bytesPopped + popped;
      if popped == |front| {
        chunks := rest;
        taken := front;
      } else {
        chunks := [front[popped..]] + rest;
        taken := front[..popped];
      }
    }

    method Close()
      requires Valid()
      modifies this
      ensures Valid()
      ensures Model() == old(Model()).Close()
    {
      closed := true;
    }

    method SetError()
      requires Valid()
      modifies this
      ensures Valid()
      ensures Model() == old(Model()).SetError()
    {
      error := true;
    }
  }
}
