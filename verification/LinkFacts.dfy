/** Each thing an endpoint can do keeps the invariant of both directions of the conversation. */
module LinkFacts {
  import opened Words
  import opened Wrap32
  import opened ByteStreams
  import opened Stores
  import opened TcpMessages
  import opened TcpSegments
  import opened SenderSpecs
  import opened SenderFacts
  import opened TcpReceivers
  import opened ConnectionSpecs
  import opened TwoParty

  /** How a sender may change without disturbing what it has transmitted. */
  ghost predicate Grows(s: Sender, t: Sender) {
    && t.isn == s.isn
    && s.outbound.written <= t.outbound.written
    && s.outbound.popped <= t.outbound.popped
    && s.nxt <= t.nxt
    && (s.synSent ==> t.synSent)
    && (s.finSent ==> t.finSent && t.outbound.written == s.outbound.written)
    && (s.outbound.closed ==> t.outbound.closed && t.outbound.written == s.outbound.written)
    && t.outbound.error == s.outbound.error
  }

  lemma InStreamPersists(m: SenderMessage, una: nat, s: Sender, t: Sender, start: nat)
    requires s.Valid() && Grows(s, t) && InStream(m, una, s, start)
    ensures InStream(m, una, t, start)
  {
    hide Carries, Tiles, Flatten, Sender.TimerCoherent, Sender.IntervalsCoherent;
    if !s.finSent {
      var more := t.outbound.written[|s.outbound.written|..];
      assert t.outbound.written == s.outbound.written + more;
      CarriesLonger(m, start, s.isn, s.outbound.written, more);
    }
  }

  lemma DataPersists(p: Packet, s: Sender, t: Sender)
    requires s.Valid() && Grows(s, t) && DataHonest(p, s)
    ensures DataHonest(p, t)
  {
    hide InStream, Grows, Sender.Valid;
    var m := p.segment.ToSenderMessage();
    if m.SequenceLength() > 0 {
      var start: nat :| InStream(m, p.una, s, start);
      InStreamPersists(m, p.una, s, t, start);
    }
  }

  /** The receiver's part of the stream stays a part of it. */
  lemma SegmentedGrows(s: Sender, t: Sender, r: Receiver)
    requires s.Valid() && t.Valid() && Grows(s, t) && Received(s, r)
    ensures r.store.Agrees(Segmented(t))
  {
    hide Flatten, Tiles, Sender.TimerCoherent, Sender.IntervalsCoherent;
    assert Segmented(s) <= Segmented(t);
    assert s.finSent ==> Segmented(s) == Segmented(t);
  }

  /** The sender's side of a link may grow. */
  lemma LinkSenderGrows(s: Sender, t: Sender, data: set<Packet>, r: Receiver, feedback: set<Packet>)
    requires s.Valid() && t.Valid() && Grows(s, t) && Link(s, data, r, feedback)
    requires t.una <= r.Acknowledged() && |t.outbound.written| <= U64_MAX - 2
    requires forall k :: 0 <= k < |t.outstanding| ==> !t.outstanding[k].message.rst
    ensures Link(t, data, r, feedback)
  {
    hide Store.Agrees, DataHonest, Tiles, Flatten, Sender.TimerCoherent, Sender.IntervalsCoherent, Sender.Counted;
    SegmentedGrows(s, t, r);
    forall p | p in data ensures DataHonest(p, t) {
      DataPersists(p, s, t);
    }
  }

  lemma AckWithinSent(s: Sender, r: Receiver)
    requires s.Valid() && r.Valid() && Received(s, r)
    ensures r.Acknowledged() <= s.nxt
    ensures r.isn.Some? ==> s.nxt > 0
  {
    hide Flatten, Tiles, Sender.TimerCoherent, Sender.IntervalsCoherent;
  }

  /** What an endpoint says about its receive side is honest. */
  lemma FeedbackOfWrapped(c: Connection, m: SenderMessage, now: nat, isn: u32)
    requires c.Valid() && !c.receiver.store.error && !m.rst
    requires c.receiver.isn.Some? ==> c.receiver.isn.value == isn
    requires |c.receiver.store.assembled| <= U64_MAX - 2
    ensures FeedbackHonest(Packet(c.Wrapped(m), c.sender.una, c.receiver.Acknowledged(), now), c.receiver, isn)
    ensures c.Wrapped(m).ToSenderMessage() == m
  {
    hide Wrap, Sender.Valid, Store.Valid;
  }

  lemma {:induction false} PushNoReset(s: Sender)
    requires s.outbound.Valid() && !s.outbound.error
    requires forall k :: 0 <= k < |s.outstanding| ==> !s.outstanding[k].message.rst
    ensures !s.Push().0.outbound.error
    ensures forall k :: 0 <= k < |s.Push().0.outstanding| ==> !s.Push().0.outstanding[k].message.rst
    ensures forall k :: 0 <= k < |s.Push().1| ==> !s.Push().1[k].rst
    decreases s.Effective() - s.InFlight()
  {
    hide Flatten;
    if s.InFlight() < s.Effective() && s.NextMessage().SequenceLength() > 0 {
      PopTakesNext(s.outbound, s.Request());
      assert !s.NextMessage().rst;
      PushNoReset(s.Transmit());
    }
  }

  lemma {:induction false} DiscardNoReset(queue: seq<Outstanding>, una: nat, isn: u32)
    requires forall k :: 0 <= k < |queue| ==> !queue[k].message.rst
    ensures forall k :: 0 <= k < |Discard(queue, una, isn)| ==> !Discard(queue, una, isn)[k].message.rst
  {
    hide Outstanding.Trim;
    if queue != [] {
      if queue[0].End() <= una {
        DiscardNoReset(queue[1..], una, isn);
      } else if queue[0].start < una {
        TrimReset(queue[0], una - queue[0].start, isn);
      }
    }
  }

  lemma TrimReset(o: Outstanding, n: nat, isn: u32)
    ensures o.Trim(n, isn).message.rst == o.message.rst
  {
  }

  lemma GrowsTransitive(s: Sender, t: Sender, u: Sender)
    requires Grows(s, t) && Grows(t, u)
    ensures Grows(s, u)
  {
  }

  lemma TransmitGrows(s: Sender)
    requires s.outbound.Valid() && s.Counted() && s.InFlight() < s.Effective()
    ensures Grows(s, s.Transmit())
  {
    hide Stream.Pop, Stream.Front, Flatten;
    PopTakesNext(s.outbound, s.Request());
  }

  lemma {:induction false} PushGrows(s: Sender)
    requires s.Valid()
    ensures Grows(s, s.Push().0)
    decreases s.Effective() - s.InFlight()
  {
    hide Sender.NextMessage, Sender.Counted, Tiles, Flatten, Sender.IntervalsCoherent, Sender.TimerCoherent, Grows;
    if s.InFlight() < s.Effective() && s.NextMessage().SequenceLength() > 0 {
      TransmitValid(s);
      TransmitGrows(s);
      PushGrows(s.Transmit());
      GrowsTransitive(s, s.Transmit(), s.Push().0);
    } else {
      GrowsReflexive(s);
    }
  }

  lemma GrowsReflexive(s: Sender)
    ensures Grows(s, s)
  {
  }

  /** Every message a flush emits is a part of the stream at or after SND.UNA. */
  lemma PushTransmits(s: Sender, k: nat)
    requires s.Valid() && k < |s.Push().1|
    ensures Transmitted(s.Push().1[k], s.una, s.Push().0)
  {
    hide Sender.NextMessage, Sender.Counted, Tiles, Flatten, Sender.IntervalsCoherent, Sender.TimerCoherent,
         Sender.Push, Carries;
    var added := PushQueuesWhatItSends(s);
    PushValid(s);
    var t := s.Push().0;
    var j := |s.outstanding| + k;
    TilesMember(t.outstanding, t.una, t.nxt, t.isn, t.outbound.written, j);
    assert t.outstanding[j] == added[k];
    assert InStream(added[k].message, s.una, t, added[k].start);
  }

  lemma TickTransmits(s: Sender, ms: u64)
    requires s.Valid()
    requires forall k :: 0 <= k < |s.outstanding| ==> !s.outstanding[k].message.rst
    ensures Grows(s, s.Tick(ms).0)
    ensures s.Tick(ms).0.una == s.una && s.Tick(ms).0.outstanding == s.outstanding
    ensures forall k :: 0 <= k < |s.Tick(ms).1| ==>
      !s.Tick(ms).1[k].rst && Transmitted(s.Tick(ms).1[k], s.una, s.Tick(ms).0)
  {
    hide Sender.Counted, Flatten, Sender.IntervalsCoherent, Sender.TimerCoherent, Carries;
    if s.outstanding != [] {
      assert Carries(s.outstanding[0].message, s.outstanding[0].start, s.isn, s.outbound.written);
      TilesOrdered(s.outstanding[1..], s.outstanding[0].End(), s.nxt, s.isn, s.outbound.written);
      assert InStream(s.outstanding[0].message, s.una, s.Tick(ms).0, s.outstanding[0].start);
    }
  }

  /** Packets stamped by an endpoint are honest in both directions. */
  lemma StampHonest(c: Connection, ms: seq<SenderMessage>, out: seq<TcpSegment>, now: nat, isn: u32)
    requires c.Valid() && out == c.WrapAll(ms)
    requires !c.receiver.store.error && |c.receiver.store.assembled| <= U64_MAX - 2
    requires c.receiver.isn.Some? ==> c.receiver.isn.value == isn
    requires forall k :: 0 <= k < |ms| ==> !ms[k].rst && Transmitted(ms[k], c.sender.una, c.sender)
    ensures forall p :: p in Stamp(c, out, now) ==>
      DataHonest(p, c.sender) && FeedbackHonest(p, c.receiver, isn)
    ensures Addressed(c, Stamp(c, out, now))
  {
    hide Connection.Valid, Transmitted, FeedbackHonest;
    forall p | p in Stamp(c, out, now)
      ensures DataHonest(p, c.sender) && FeedbackHonest(p, c.receiver, isn)
      ensures p.segment.header.srcPort == c.localPort && p.segment.header.dstPort == c.peerPort
    {
      var k :| 0 <= k < |out| && p == Packet(out[k], c.sender.una, c.receiver.Acknowledged(), now);
      FeedbackOfWrapped(c, ms[k], now, isn);
    }
  }

  /** Feedback that is honest and timely moves the sender's left edge no further than the receiver
      has got, and is never taken for anything else. */
  lemma LinkTakesFeedback(s: Sender, data: set<Packet>, r: Receiver, feedback: set<Packet>, p: Packet)
    requires s.Valid() && r.Valid() && Link(s, data, r, feedback)
    requires p in feedback && s.nxt < p.ack + STALENESS
    ensures var t := s.Receive(p.segment.ToReceiverMessage());
            && t.Valid() && Link(t, data, r, feedback) && Grows(s, t)
            && t.una == (if p.segment.header.ackno.Some? then Max(s.una, p.ack) else s.una)
            && t.window == p.segment.header.window
  {
    hide Sender.Valid, Discard, Unwrap, Wrap, DataHonest, Store.Agrees;
    var m := p.segment.ToReceiverMessage();
    var t := s.Receive(m);
    ReceiveKeepsValid(s, m);
    AckWithinSent(s, r);
    NxtFits(s);
    if m.ackno.Some? {
      UnwrapInvertsWrap(p.ack, s.isn, s.nxt);
      DiscardNoReset(s.outstanding, p.ack, s.isn);
    }
    assert Grows(s, t);
    hide Sender.Receive;
    LinkSenderGrows(s, t, data, r, feedback);
  }

  lemma NxtFits(s: Sender)
    requires s.Valid() && |s.outbound.written| <= U64_MAX - 2
    ensures s.nxt <= |s.outbound.written| + 2 <= U64_MAX
  {
    hide Flatten, Tiles, Sender.IntervalsCoherent, Sender.TimerCoherent;
  }

  /** The fragment that a transmitted message contributes is a part of what has been segmented. */
  lemma TransmittedIsHonest(m: SenderMessage, una: nat, s: Sender, start: nat, index: nat)
    requires s.Valid() && InStream(m, una, s, start) && m.SequenceLength() > 0
    requires index == if m.syn then 0 else start - 1
    ensures Honest(Fragment(index, m.payload, m.fin), Segmented(s))
    ensures m.syn <==> start == 0
    ensures m.fin ==> s.finSent
  {
    hide Carries, Flatten, Tiles, Sender.IntervalsCoherent, Sender.TimerCoherent;
    var w := s.outbound.written;
    CarriesFields(m, start, s.isn, w);
    var end := index + |m.payload|;
    assert m.fin ==> s.finSent;
    assert end <= s.outbound.popped;
    SliceOfPrefix(w, s.outbound.popped, index, end);
  }

  lemma SliceOfPrefix(w: seq<byte>, n: nat, lo: nat, hi: nat)
    requires lo <= hi <= n <= |w|
    ensures w[..n][lo..hi] == w[lo..hi]
  {
  }

  /** A timely message is put exactly where its sender meant it. */
  lemma TransmittedIsPlaced(m: SenderMessage, una: nat, s: Sender, r: Receiver, start: nat)
    requires s.Valid() && r.Valid() && Received(s, r)
    requires InStream(m, una, s, start) && m.SequenceLength() > 0 && s.nxt < una + STALENESS
    requires m.syn <==> start == 0
    requires r.isn.Some? || m.syn
    ensures r.ZeroPoint(m) == Some(s.isn)
    ensures r.StreamIndex(m, s.isn) == Some(if m.syn then 0 else start - 1)
  {
    hide Unwrap, Flatten, Tiles, Sender.IntervalsCoherent, Sender.TimerCoherent, Marks, Space, Store.Agrees;
    AckWithinSent(s, r);
    NxtFits(s);
    var checkpoint := |r.store.assembled| + 1;
    assert AbsDiff(start, checkpoint) < STALENESS;
    UnwrapInvertsWrap(start, s.isn, checkpoint);
  }

  /** An honest message is accepted, and what the receiver knows grows inside the stream. */
  lemma ReceivedTakes(s: Sender, r: Receiver, m: SenderMessage, una: nat)
    requires s.Valid() && r.Valid() && Received(s, r)
    requires Transmitted(m, una, s) && m.SequenceLength() > 0 && !m.rst && s.nxt < una + STALENESS
    ensures r.Judge(m).Accepted?
    ensures r.Receive(m).Valid() && Received(s, r.Receive(m))
    ensures r.Acknowledged() <= r.Receive(m).Acknowledged()
    ensures r.store.assembled <= r.Receive(m).store.assembled
    ensures r.isn.Some? ==> r.Receive(m).isn == r.isn
  {
    hide InStream, Store.Insert, Store.Judge, Sender.Valid, Receiver.StreamIndex;
    ReceiveValid(r, m);
    var start: nat :| InStream(m, una, s, start);
    SynAtStart(m, una, s, start);
    if r.isn.Some? || m.syn {
      var index := if m.syn then 0 else start - 1;
      var f := Fragment(index, m.payload, m.fin);
      TransmittedIsPlaced(m, una, s, r, start);
      TransmittedIsHonest(m, una, s, start, index);
      HonestInsert(r.store, f, Segmented(s));
      SynWasSent(m, una, s, start);
      ClosedStays(r.store, f);
    }
  }

  lemma SynAtStart(m: SenderMessage, una: nat, s: Sender, start: nat)
    requires InStream(m, una, s, start) && m.SequenceLength() > 0
    ensures m.syn <==> start == 0
  {
    hide Carries;
    CarriesFields(m, start, s.isn, s.outbound.written);
  }

  lemma SynWasSent(m: SenderMessage, una: nat, s: Sender, start: nat)
    requires s.Valid() && InStream(m, una, s, start) && m.SequenceLength() > 0
    ensures s.synSent
  {
    hide Carries, Flatten, Tiles, Sender.IntervalsCoherent, Sender.TimerCoherent;
  }

  /** Once the stream is complete it stays complete. */
  lemma ClosedStays(s: Store, f: Fragment)
    requires s.Valid() && s.assembled <= s.Insert(f).assembled
    ensures s.closed ==> s.Insert(f).closed
    ensures s.Insert(f).popped == s.popped
  {
    hide Store.Absorb;
    AbsorbKeeps(s.(eof := if f.last then Some(f.End()) else s.eof), f);
  }

  lemma AbsorbKeeps(s: Store, f: Fragment)
    ensures var t := s.Absorb(f.first, f.data);
            t == s.(assembled := t.assembled, held := t.held)
  {
    hide Settle;
  }

  lemma LinkTakesData(s: Sender, data: set<Packet>, r: Receiver, feedback: set<Packet>, p: Packet)
    requires s.Valid() && r.Valid() && Link(s, data, r, feedback)
    requires p in data && s.nxt < p.una + STALENESS
    requires p.segment.ToSenderMessage().SequenceLength() > 0
    ensures var m := p.segment.ToSenderMessage();
            && r.Judge(m).Accepted?
            && r.Receive(m).Valid() && Link(s, data, r.Receive(m), feedback)
            && r.Acknowledged() <= r.Receive(m).Acknowledged()
            && r.store.assembled <= r.Receive(m).store.assembled
            && (r.isn.Some? ==> r.Receive(m).isn == r.isn)
  {
    hide Sender.Valid, Receiver.Valid, Received, Receiver.Receive, Receiver.Judge, Receiver.Acknowledged, Transmitted;
    ReceivedTakes(s, r, p.segment.ToSenderMessage(), p.una);
  }
}
