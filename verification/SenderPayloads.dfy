/** How large the segments are that a sender builds, and how they are marked. */
module SenderPayloads {
  import opened Words
  import opened ByteStreams
  import opened StreamRuns
  import opened SenderSpecs
  import opened SenderFacts

  /** The position of sequence space just beyond a segment's payload. */
  function PayloadEnd(o: Outstanding): (position: nat) {
    o.start + (if o.message.syn then 1 else 0) + |o.message.payload|
  }

  /** A segment that a sender may build: never over the payload limit, and under it only if its payload
      reaches the end of the window, of all that was written, or of one of the chunks written. */
  ghost predicate WellSized(s: Sender, o: Outstanding) {
    && |o.message.payload| <= s.config.maxPayload
    && (|o.message.payload| < s.config.maxPayload ==>
          || PayloadEnd(o) == s.una + s.Effective()
          || PayloadEnd(o) == |s.outbound.written| + 1
          || (PayloadEnd(o) > 0 && EndsChunk(s.outbound.chunks, s.outbound.popped, PayloadEnd(o) - 1)))
  }

  lemma NextIsWellSized(s: Sender)
    requires s.outbound.Valid() && s.Counted() && s.InFlight() < s.Effective()
    requires s.NextMessage().SequenceLength() > 0
    ensures WellSized(s, Outstanding(s.nxt, s.NextMessage()))
    ensures s.NextMessage().rst == s.outbound.error
  {
    hide Flatten, EndsChunk, Stream.Front;
    RequestBounds(s);
    PopTakesNext(s.outbound, s.Request());
    ReadStops(s.outbound, s.Request());
  }

  /** What is well sized after one segment has been sent was so before. */
  lemma WellSizedBefore(s: Sender, o: Outstanding)
    requires s.outbound.Valid() && s.InFlight() < s.Effective() && WellSized(s.Transmit(), o)
    ensures WellSized(s, o)
  {
    hide Flatten, EndsChunk, Stream.Front, Stream.Pop, Sender.NextMessage;
    TransmitMoves(s);
    PopTakesNext(s.outbound, s.Request());
    if PayloadEnd(o) > 0 {
      ReadKeepsEnds(s.outbound, s.Request(), PayloadEnd(o) - 1);
    }
  }

  lemma TransmitKeepsStream(s: Sender)
    requires s.outbound.Valid() && s.InFlight() < s.Effective()
    ensures s.Transmit().outbound.error == s.outbound.error
    ensures s.Transmit().outstanding == s.outstanding + [Outstanding(s.nxt, s.NextMessage())]
  {
    hide Flatten, Sender.NextMessage;
    PopTakesNext(s.outbound, s.Request());
  }

  /** Every segment a flush sends is well sized, and marked as a reset exactly when the stream is in
      error. */
  lemma {:induction false} PushIsWellSized(s: Sender) returns (added: seq<Outstanding>)
    requires s.Valid()
    ensures s.Push().0.outstanding == s.outstanding + added && |added| == |s.Push().1|
    ensures forall k :: 0 <= k < |added| ==>
              && s.Push().1[k] == added[k].message
              && WellSized(s, added[k]) && added[k].message.rst == s.outbound.error
    decreases s.Effective() - s.InFlight()
  {
    hide Sender.NextMessage, Sender.Counted, Tiles, Flatten, Sender.IntervalsCoherent, Sender.TimerCoherent,
         Sender.Transmit, WellSized;
    added := [];
    if s.InFlight() < s.Effective() && s.NextMessage().SequenceLength() > 0 {
      TransmitValid(s);
      TransmitMoves(s);
      NextIsWellSized(s);
      TransmitKeepsStream(s);
      var rest := PushIsWellSized(s.Transmit());
      added := [Outstanding(s.nxt, s.NextMessage())] + rest;
      forall k | 0 <= k < |rest|
        ensures WellSized(s, rest[k])
      {
        WellSizedBefore(s, rest[k]);
      }
    }
  }

  /** No outstanding segment is over the limit. */
  predicate Capped(s: Sender) {
    forall k :: 0 <= k < |s.outstanding| ==> |s.outstanding[k].message.payload| <= s.config.maxPayload
  }

  lemma {:induction false} DiscardKeepsCap(queue: seq<Outstanding>, una: nat, isn: u32, cap: nat)
    requires forall k :: 0 <= k < |queue| ==> |queue[k].message.payload| <= cap
    ensures forall k :: 0 <= k < |Discard(queue, una, isn)| ==> |Discard(queue, una, isn)[k].message.payload| <= cap
  {
    if queue != [] && queue[0].End() <= una {
      DiscardKeepsCap(queue[1..], una, isn, cap);
    }
  }

  lemma PushKeepsCap(s: Sender)
    requires s.Valid() && Capped(s)
    ensures Capped(s.Push().0)
    ensures forall k :: 0 <= k < |s.Push().1| ==> |s.Push().1[k].payload| <= s.config.maxPayload
    ensures s.Push().0.config == s.config
  {
    var added := PushIsWellSized(s);
    OutboundValid(s);
    PushKeepsRest(s);
  }
}
