/** Whole-run safety of two endpoints over a network that loses, duplicates and reorders. */
module Safety {
  import opened Words
  import opened ByteStreams
  import opened Stores
  import opened TcpMessages
  import opened TcpSegments
  import opened SenderSpecs
  import opened SenderFacts
  import opened TcpReceivers
  import opened ConnectionSpecs
  import opened TwoParty
  import opened LinkFacts

  /** The invariant, seen from an endpoint `c` that has sent `sent` to the peer `y`. */
  ghost predicate Joined(c: Connection, sent: set<Packet>, y: Half) {
    && c.Valid() && y.end.Valid()
    && c.localPort == y.end.peerPort && c.peerPort == y.end.localPort
    && Addressed(c, sent) && Addressed(y.end, y.sent)
    && Link(c.sender, sent, y.end.receiver, y.sent)
    && Link(y.end.sender, y.sent, c.receiver, sent)
  }

  lemma InvIsJoined(sys: System)
    ensures Inv(sys) <==> Joined(sys.here.end, sys.here.sent, sys.there)
  {
    hide Link, Connection.Valid, Addressed;
  }

  /** Adding honest packets to what an endpoint has sent. */
  lemma JoinedEmits(c: Connection, sent: set<Packet>, y: Half, ms: seq<SenderMessage>, out: seq<TcpSegment>, now: nat)
    requires Joined(c, sent, y) && out == c.WrapAll(ms)
    requires forall k :: 0 <= k < |ms| ==> !ms[k].rst && Transmitted(ms[k], c.sender.una, c.sender)
    ensures Joined(c, sent + Stamp(c, out, now), y)
  {
    hide Connection.Valid, Transmitted, DataHonest, FeedbackHonest;
    StreamsShort(c, sent, y);
    StampHonest(c, ms, out, now, y.end.sender.isn);
  }

  lemma StreamsShort(c: Connection, sent: set<Packet>, y: Half)
    requires Joined(c, sent, y)
    ensures |c.receiver.store.assembled| <= U64_MAX - 2
    ensures !c.receiver.store.error
    ensures c.receiver.isn.Some? ==> c.receiver.isn.value == y.end.sender.isn
    ensures !c.sender.outbound.error
    ensures forall k :: 0 <= k < |c.sender.outstanding| ==> !c.sender.outstanding[k].message.rst
  {
    hide Sender.Valid, Receiver.Valid, DataHonest, FeedbackHonest, Addressed;
  }

  /** An endpoint whose sender has grown, as far as the peer's receiver is concerned. */
  lemma JoinedSenderGrows(c: Connection, sent: set<Packet>, y: Half, t: Sender)
    requires Joined(c, sent, y)
    requires t.Valid() && Grows(c.sender, t) && t.una <= y.end.receiver.Acknowledged()
    requires |t.outbound.written| <= U64_MAX - 2
    requires forall k :: 0 <= k < |t.outstanding| ==> !t.outstanding[k].message.rst
    ensures Joined(c.(sender := t), sent, y)
  {
    hide Sender.Valid, Receiver.Valid, Link, Grows;
    LinkSenderGrows(c.sender, t, sent, y.end.receiver, y.sent);
  }

  lemma LinkBounds(s: Sender, data: set<Packet>, r: Receiver, feedback: set<Packet>)
    requires Link(s, data, r, feedback)
    ensures s.una <= r.Acknowledged() && |s.outbound.written| <= U64_MAX - 2
  {
    hide DataHonest, FeedbackHonest, Store.Agrees, Receiver.Acknowledged;
  }

  lemma JoinedFlush(c: Connection, sent: set<Packet>, y: Half, now: nat)
    requires Joined(c, sent, y)
    ensures var (c', out) := c.Flush();
            Joined(c', sent + Stamp(c', out, now), y)
  {
    hide Sender.Valid, Store.Valid, Link, Grows, Sender.Push, Addressed, Transmitted, Stamp;
    OutboundValid(c.sender);
    var (c', out) := c.Flush();
    var (t, ms) := c.sender.Push();
    StreamsShort(c, sent, y);
    LinkBounds(c.sender, sent, y.end.receiver, y.sent);
    PushValid(c.sender);
    PushGrows(c.sender);
    PushNoReset(c.sender);
    JoinedSenderGrows(c, sent, y, t);
    forall k | 0 <= k < |ms| ensures Transmitted(ms[k], t.una, t) {
      PushTransmits(c.sender, k);
    }
    assert out == c'.WrapAll(ms);
    JoinedEmits(c', sent, y, ms, out, now);
  }

  lemma JoinedWrite(c: Connection, sent: set<Packet>, y: Half, data: seq<byte>)
    requires Joined(c, sent, y) && |c.sender.outbound.written| + |data| + 2 <= U64_MAX
    ensures Joined(c.(sender := c.sender.(outbound := c.sender.outbound.Push(data))), sent, y)
  {
    hide Sender.Valid, Receiver.Valid, Link, Addressed, Stream.Push, Stream.Accepts, Flatten;
    OutboundValid(c.sender);
    var t := c.sender.(outbound := c.sender.outbound.Push(data));
    StreamsShort(c, sent, y);
    LinkBounds(c.sender, sent, y.end.receiver, y.sent);
    WriteKeepsValid(c.sender, data);
    PushAppends(c.sender.outbound, data);
    PushOnly(c.sender.outbound, data);
    FinMeansClosed(c.sender);
    JoinedSenderGrows(c, sent, y, t);
  }

  lemma FinMeansClosed(s: Sender)
    requires s.Valid()
    ensures s.finSent ==> s.outbound.closed && s.synSent && s.outbound.popped == |s.outbound.written|
  {
    hide Tiles, Flatten;
  }

  lemma JoinedClose(c: Connection, sent: set<Packet>, y: Half)
    requires Joined(c, sent, y)
    ensures Joined(c.(sender := c.sender.(outbound := c.sender.outbound.Close())), sent, y)
  {
    hide Sender.Valid, Receiver.Valid, Link, Addressed;
    var t := c.sender.(outbound := c.sender.outbound.Close());
    StreamsShort(c, sent, y);
    LinkBounds(c.sender, sent, y.end.receiver, y.sent);
    CloseKeepsValid(c.sender);
    JoinedSenderGrows(c, sent, y, t);
  }

  lemma JoinedTick(c: Connection, sent: set<Packet>, y: Half, ms: u64, now: nat)
    requires Joined(c, sent, y)
    ensures var (c', out) := c.Tick(ms);
            Joined(c', sent + Stamp(c', out, now), y)
  {
    hide Sender.Valid, Store.Valid, Link, Grows, Sender.Tick, Addressed, Transmitted, Stamp;
    var (c', out) := c.Tick(ms);
    var (t, emitted) := c.sender.Tick(ms);
    StreamsShort(c, sent, y);
    LinkBounds(c.sender, sent, y.end.receiver, y.sent);
    TickKeepsValid(c.sender, ms);
    TickTransmits(c.sender, ms);
    TickKeepsWritten(c.sender, ms);
    JoinedSenderGrows(c, sent, y, t);
    assert out == c'.WrapAll(emitted);
    JoinedEmits(c', sent, y, emitted, out, now);
  }

  lemma TickKeepsWritten(s: Sender, ms: u64)
    ensures s.Tick(ms).0.outbound == s.outbound
  {
  }

  lemma JoinedRead(c: Connection, sent: set<Packet>, y: Half, n: nat)
    requires Joined(c, sent, y)
    requires c.receiver.store.popped + n <= |c.receiver.store.assembled|
    ensures Joined(c.Read(n), sent, y)
  {
    hide Sender.Valid, DataHonest, Store.Valid;
    ReadValid(c.receiver.store, n);
  }

  /** Taking in a timely packet of the peer, before answering. */
  lemma JoinedAbsorb(c: Connection, sent: set<Packet>, y: Half, p: Packet)
    requires Joined(c, sent, y) && p in y.sent
    requires y.end.sender.nxt < p.una + STALENESS && c.sender.nxt < p.ack + STALENESS
    ensures Joined(c.Absorb(p.segment), sent, y)
    ensures var m := p.segment.ToSenderMessage();
            m.SequenceLength() > 0 ==> c.receiver.Judge(m).Accepted?
    ensures p.segment.header.srcPort == c.peerPort && p.segment.header.dstPort == c.localPort
    ensures c.receiver.store.assembled <= c.Absorb(p.segment).receiver.store.assembled
    ensures c.receiver.isn.Some? ==> c.Absorb(p.segment).receiver.isn == c.receiver.isn
    ensures c.receiver.Acknowledged() <= c.Absorb(p.segment).receiver.Acknowledged()
  {
    hide Sender.Valid, Receiver.Valid, Received, DataHonest, FeedbackHonest,
         Receiver.Judge, Receiver.Receive, Sender.Receive, Receiver.Acknowledged;
    NoReset(y.end.sender, p);
    LinkTakesFeedback(c.sender, sent, y.end.receiver, y.sent, p);
    if p.segment.ToSenderMessage().SequenceLength() > 0 {
      LinkTakesData(y.end.sender, y.sent, c.receiver, sent, p);
    }
  }

  lemma NoReset(s: Sender, p: Packet)
    requires DataHonest(p, s)
    ensures !p.segment.header.rst
  {
    hide Transmitted;
  }

  lemma JoinedPureAck(c: Connection, sent: set<Packet>, y: Half, now: nat)
    requires Joined(c, sent, y)
    ensures Joined(c, sent + Stamp(c, c.PureAck(), now), y)
  {
    hide Sender.Valid, Store.Valid, Link, Addressed, Stamp;
    var m := c.sender.EmptyMessage();
    StreamsShort(c, sent, y);
    var ms := if c.PureAck() == [] then [] else [m];
    assert c.PureAck() == c.WrapAll(ms);
    JoinedEmits(c, sent, y, ms, c.PureAck(), now);
  }

  lemma JoinedDeliver(c: Connection, sent: set<Packet>, y: Half, p: Packet, now: nat)
    requires Joined(c, sent, y) && p in y.sent
    requires y.end.sender.nxt < p.una + STALENESS && c.sender.nxt < p.ack + STALENESS
    ensures var (c', out) := c.ReceiveSegment(p.segment);
            Joined(c', sent + Stamp(c', out, now), y)
  {
    JoinedAbsorb(c, sent, y, p);
    hide Joined, Connection.Absorb, Connection.Flush, Connection.PureAck, Connection.Valid, Stamp, Sender.Valid, Receiver.Valid;
    assert c.Valid() && c.Absorb(p.segment).Valid() by { JoinedValid(c, sent, y); JoinedValid(c.Absorb(p.segment), sent, y); }
    JoinedFlush(c.Absorb(p.segment), sent, y, now);
    var (c1, out1) := c.Absorb(p.segment).Flush();
    if out1 == [] {
      StampNothing(c1, now);
      assert sent + Stamp(c1, out1, now) == sent;
      JoinedValid(c1, sent, y);
      JoinedPureAck(c1, sent, y, now);
    }
  }

  lemma JoinedValid(c: Connection, sent: set<Packet>, y: Half)
    requires Joined(c, sent, y)
    ensures c.Valid()
  {
  }

  lemma StampNothing(c: Connection, now: nat)
    ensures Stamp(c, [], now) == {}
  {
  }

  /** Every allowed action of either endpoint keeps the invariant. */
  lemma ActKeepsInv(sys: System, action: Action)
    requires Inv(sys) && Allowed(sys, action)
    ensures Inv(Act(sys, action))
  {
    var c, sent, y, now := sys.here.end, sys.here.sent, sys.there, sys.now;
    InvIsJoined(sys);
    InvIsJoined(Act(sys, action));
    hide Joined, Connection.Valid, Stamp, Connection.Flush, Connection.Absorb, Inv;
    match action
    case Connect => JoinedFlush(c, sent, y, now);
    case Write(data) => JoinedWrite(c, sent, y, data);
      JoinedFlush(c.(sender := c.sender.(outbound := c.sender.outbound.Push(data))), sent, y, now);
    case Close => JoinedClose(c, sent, y);
      JoinedFlush(c.(sender := c.sender.(outbound := c.sender.outbound.Close())), sent, y, now);
    case Read(count) => JoinedRead(c, sent, y, count);
      StampNothing(c.Read(count), now);
      assert sent + {} == sent;
    case Tick(ms) => JoinedTick(c, sent, y, ms, now);
    case Deliver(p) => JoinedDeliver(c, sent, y, p, now);
  }
}
