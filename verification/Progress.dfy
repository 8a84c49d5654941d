/** Progress: a round in which nothing is lost moves the sender's left edge, so a closed stream
    finishes within as many such rounds as it has positions left. */
module Progress {
  import opened Words
  import opened Wrap32
  import opened ByteStreams
  import opened Stores
  import opened TcpMessages
  import opened TcpSegments
  import opened SenderSpecs
  import opened SenderFacts
  import opened TcpReceivers
  import opened ConnectionSpecs
  import opened TwoParty
  import opened LinkFacts
  import opened Safety
  import opened Runs

  /** A sender that pushes and still has nothing outstanding had nothing left to send. */
  lemma PushLeavesWork(s: Sender)
    requires s.Valid() && s.outbound.closed && !s.Finished()
    ensures s.Push().0.outstanding != []
  {
    hide Sender.Counted, Tiles, Flatten, Sender.IntervalsCoherent, Sender.TimerCoherent, Sender.NextMessage, Sender.Transmit;
    if s.outstanding == [] {
      TilesOrdered(s.outstanding, s.una, s.nxt, s.isn, s.outbound.written);
      if s.NextMessage().SequenceLength() == 0 {
        NothingToSend(s);
      } else {
        TransmitQueues(s);
        TransmitValid(s);
        var added := PushQueuesWhatItSends(s.Transmit());
      }
    } else {
      var added := PushQueuesWhatItSends(s);
    }
  }

  lemma TransmitQueues(s: Sender)
    requires s.outbound.Valid() && s.InFlight() < s.Effective()
    ensures s.Transmit().outstanding == s.outstanding + [Outstanding(s.nxt, s.NextMessage())]
  {
    hide Sender.NextMessage;
  }

  /** Waiting for at least the timeout resends the front segment, which starts at SND.UNA. */
  lemma TimeoutResends(s: Sender, ms: u64)
    requires s.Valid() && s.outstanding != [] && ms >= s.timer.timeout
    ensures s.Tick(ms).1 == [s.outstanding[0].message]
    ensures InStream(s.outstanding[0].message, s.una, s, s.una)
    ensures s.outstanding[0].message.SequenceLength() > 0
  {
    hide Sender.Counted, Flatten, Sender.IntervalsCoherent, Carries;
    TilesOrdered(s.outstanding[1..], s.outstanding[0].End(), s.nxt, s.isn, s.outbound.written);
  }

  /** A receiver with room that is given the very position it needs gets further. */
  lemma NeededPositionAdvances(s: Sender, r: Receiver, m: SenderMessage)
    requires s.Valid() && r.Valid() && Received(s, r)
    requires InStream(m, s.una, s, s.una) && m.SequenceLength() > 0 && !m.rst
    requires r.store.popped == |r.store.assembled| && r.store.capacity > 0
    ensures r.Receive(m).Acknowledged() > s.una
  {
    hide Carries, Sender.Valid, Store.Insert, Store.Judge, Unwrap, Store.Agrees;
    assert Transmitted(m, s.una, s);
    WindowBound(s);
    ReceivedTakes(s, r, m, s.una);
    SynAtStart(m, s.una, s, s.una);
    if r.Acknowledged() == s.una {
      if !m.syn {
        AtTheFront(s, r, m);
      }
    }
  }

  lemma WindowBound(s: Sender)
    requires s.Valid()
    ensures s.una <= s.nxt <= s.una + U16_MAX
  {
  }

  /** The case of a message that starts exactly where the assembled stream ends. */
  lemma AtTheFront(s: Sender, r: Receiver, m: SenderMessage)
    requires s.Valid() && r.Valid() && Received(s, r)
    requires InStream(m, s.una, s, s.una) && m.SequenceLength() > 0 && !m.rst && !m.syn && s.una > 0
    requires r.store.popped == |r.store.assembled| && r.store.capacity > 0
    requires r.Acknowledged() == s.una
    ensures r.Receive(m).Acknowledged() > s.una
  {
    hide Carries, Sender.Valid, Store.Judge, Store.Insert, Unwrap, Receiver.StreamIndex;
    WindowBound(s);
    NotYetClosed(s, r, m);
    SynAtStart(m, s.una, s, s.una);
    TransmittedIsPlaced(m, s.una, s, r, s.una);
    TransmittedIsHonest(m, s.una, s, s.una, s.una - 1);
    var f := Fragment(s.una - 1, m.payload, m.fin);
    HonestInsert(r.store, f, Segmented(s));
    FrontInsert(r.store, f, Segmented(s));
  }

  /** While a position is outstanding that the receiver needs, its stream is not complete. */
  lemma NotYetClosed(s: Sender, r: Receiver, m: SenderMessage)
    requires s.Valid() && r.Valid() && Received(s, r)
    requires InStream(m, s.una, s, s.una) && m.SequenceLength() > 0
    requires r.Acknowledged() == s.una
    ensures !r.store.closed
    ensures |r.store.assembled| < U64_MAX
  {
    hide Carries, Flatten, Tiles, Sender.IntervalsCoherent, Sender.TimerCoherent;
  }

  /** Inserting at the front of a drained store assembles something or completes the stream. */
  lemma FrontInsert(s: Store, f: Fragment, w: seq<byte>)
    requires s.Valid() && !s.error && !s.closed && s.Judge(f).Accepted?
    requires f.first == |s.assembled| == s.popped < U64_MAX && s.capacity > 0
    requires f.data != [] || f.last
    requires s.assembled <= s.Insert(f).assembled
    ensures |s.Insert(f).assembled| > |s.assembled| || s.Insert(f).closed
  {
    hide Store.Absorb;
    var t := s.Insert(f);
    if f.data != [] {
      InsertCoverage(s, f);
      assert Covers(f, s.Limit(), |s.assembled|);
      assert t.Knows(|s.assembled|);
    } else {
      EmptyAbsorb(s.(eof := Some(f.End())), f);
    }
  }

  lemma EmptyAbsorb(s: Store, f: Fragment)
    requires f.data == []
    ensures s.Absorb(f.first, f.data) == s
  {
    hide Store.Take;
  }

  /** A delivered message with content is answered, and every answer carries an acknowledgement. */
  lemma DeliveryIsAnswered(c: Connection, sent: set<Packet>, y: Half, p: Packet)
    requires Joined(c, sent, y) && p in y.sent
    requires y.end.sender.nxt < p.una + STALENESS && c.sender.nxt < p.ack + STALENESS
    requires p.segment.ToSenderMessage().SequenceLength() > 0
    requires c.receiver.Receive(p.segment.ToSenderMessage()).Acknowledged() > 0
    ensures var (c', out) := c.ReceiveSegment(p.segment);
            && out != []
            && c'.receiver == c.receiver.Receive(p.segment.ToSenderMessage())
            && forall k :: 0 <= k < |out| ==> out[k].header.ackno.Some?
  {
    JoinedAbsorb(c, sent, y, p);
    JoinedValid(c, sent, y);
    hide Joined, Sender.Valid, Sender.Receive, Receiver.Receive, Receiver.Judge, Store.Valid, Connection.Flush,
         Connection.ReceiveSegment;
    var r := c.Absorb(p.segment).receiver;
    assert r == c.receiver.Receive(p.segment.ToSenderMessage());
    assert r.isn.Some?;
    AnswerShape(c, p.segment);
  }

  lemma AnswerShape(c: Connection, segment: TcpSegment)
    requires c.Valid() && c.Absorb(segment).receiver.isn.Some?
    requires segment.header.srcPort == c.peerPort && segment.header.dstPort == c.localPort
    requires segment.ToSenderMessage().SequenceLength() > 0
    ensures var (c', out) := c.ReceiveSegment(segment);
            && out != []
            && c'.receiver == c.Absorb(segment).receiver
            && forall k :: 0 <= k < |out| ==> out[k].header.ackno.Some?
  {
    AbsorbValid(c, segment);
    hide Sender.Valid, Store.Valid, Connection.Absorb, Sender.Push;
    FlushValid(c.Absorb(segment));
    FlushAcks(c.Absorb(segment));
  }

  lemma FlushAcks(c: Connection)
    requires c.Valid() && c.receiver.isn.Some?
    ensures forall k :: 0 <= k < |c.Flush().1| ==> c.Flush().1[k].header.ackno.Some?
  {
    hide Sender.Valid, Store.Valid, Sender.Push;
  }

  /** A delivered acknowledgement of something new moves the left edge there. */
  lemma DeliveryAdvances(c: Connection, sent: set<Packet>, y: Half, q: Packet)
    requires Joined(c, sent, y) && q in y.sent
    requires y.end.sender.nxt < q.una + STALENESS && c.sender.nxt < q.ack + STALENESS
    requires q.segment.header.ackno.Some?
    ensures var s, t := c.sender, c.ReceiveSegment(q.segment).0.sender;
            && t.una == Max(s.una, q.ack)
            && Grows(s, t)
  {
    JoinedAbsorb(c, sent, y, q);
    JoinedValid(c, sent, y);
    JoinedValid(c.Absorb(q.segment), sent, y);
    hide Sender.Valid, Sender.Receive, Receiver.Valid, Link, Grows, Addressed;
    LinkTakesFeedback(c.sender, sent, y.end.receiver, y.sent, q);
    FlushValid(c.Absorb(q.segment));
    PushValid(c.Absorb(q.segment).sender);
    PushGrows(c.Absorb(q.segment).sender);
    GrowsTransitive(c.sender, c.Absorb(q.segment).sender, c.ReceiveSegment(q.segment).0.sender);
  }

  /** A round in which nothing is lost: how long the sender waits, the segment it resends, and the
      answer to it. */
  datatype Round = Round(ms: u64, resent: Packet, answer: Packet)

  /** The sender has closed its stream but not finished, and its peer has room for something. */
  ghost predicate Working(sys: System) {
    && Inv(sys)
    && sys.here.end.sender.outbound.closed && !sys.here.end.sender.Finished()
    && sys.there.end.receiver.store.capacity > 0
  }

  ghost function After(sys: System, e: Event): (t: System)
    requires Inv(sys) && CanStep(sys, e)
    ensures Inv(t)
  {
    InvReady(sys);
    StepKeepsInv(sys, e);
    Step(sys, e)
  }

  /** The packets an action of `here` puts on the network. */
  ghost function Emitted(sys: System, action: Action): (packets: set<Packet>)
    requires Inv(sys)
  {
    InvReady(sys);
    var (c, out) := Respond(sys.here.end, action);
    Stamp(c, out, sys.now)
  }

  /** The peer's reader takes everything it can. */
  function Drain(sys: System): (event: Event) {
    var store := sys.there.end.receiver.store;
    Event(false, Read(Max(|store.assembled| - store.popped, 0)))
  }

  lemma DrainAllowed(sys: System)
    requires Inv(sys)
    ensures CanStep(sys, Drain(sys))
    ensures sys.there.end.receiver.store.popped <= |sys.there.end.receiver.store.assembled|
  {
    hide Paired, Sender.Valid;
  }

  /** The peer's reader has drained its stream and the sender has sent what it may. */
  ghost function Prepared(sys: System): (t: System)
    requires Inv(sys)
    ensures Inv(t)
  {
    DrainAllowed(sys);
    After(After(sys, Drain(sys)), Event(true, Connect))
  }

  /** The sender waited for its timer, the network delivered what it resent, and then what the peer
      answered. */
  ghost predicate Lossless(sys: System, r: Round)
    requires Inv(sys)
  {
    var t := Prepared(sys);
    var waited := After(t, Event(true, Tick(r.ms)));
    && r.ms >= t.here.end.sender.timer.timeout
    && r.resent in Emitted(t, Tick(r.ms))
    && r.answer in Emitted(Swapped(waited), Deliver(r.resent))
  }

  ghost function Swapped(sys: System): (t: System)
    requires Inv(sys)
    ensures Inv(t) && t == Swap(sys)
  {
    InvSymmetric(sys);
    Swap(sys)
  }

  function Events(sys: System, r: Round): (events: seq<Event>) {
    [Drain(sys), Event(true, Connect), Event(true, Tick(r.ms)),
     Event(false, Deliver(r.resent)), Event(true, Deliver(r.answer))]
  }

  /** Draining and flushing leave the left edge alone, the reader with all its room, and the sender
      with something outstanding. */
  lemma PreparedReady(sys: System)
    requires Working(sys)
    ensures var x, y := sys, Prepared(sys);
            && y.here.end.sender.outstanding != []
            && y.here.end.sender.una == x.here.end.sender.una
            && Grows(x.here.end.sender, y.here.end.sender)
            && y.there.end.receiver.store.popped == |y.there.end.receiver.store.assembled|
            && y.there.end.receiver.store.capacity == x.there.end.receiver.store.capacity
  {
    hide Paired, Sender.Valid, Receiver.Valid, Grows, Sender.Push;
    DrainAllowed(sys);
    var s := sys.here.end.sender;
    assert sys.here.end.Valid();
    FlushValid(sys.here.end);
    PushValid(s);
    PushGrows(s);
    PushLeavesWork(s);
    var drained := After(sys, Drain(sys));
    assert drained.here == sys.here;
    assert Prepared(sys).here.end == sys.here.end.Flush().0;
    assert Prepared(sys).there == drained.there;
  }

  /** `p` is a packet of `here` that carries the position at the sender's left edge. */
  ghost predicate CarriesFront(sys: System, p: Packet) {
    var s, m := sys.here.end.sender, p.segment.ToSenderMessage();
    && p in sys.here.sent
    && p.una == s.una && p.ack == sys.here.end.receiver.Acknowledged()
    && m.SequenceLength() > 0 && !m.rst && InStream(m, s.una, s, s.una)
  }

  lemma WaitedReady(t: System, ms: u64, p: Packet)
    requires Inv(t) && t.here.end.sender.outstanding != []
    requires ms >= t.here.end.sender.timer.timeout
    requires p in Emitted(t, Tick(ms))
    ensures var w := After(t, Event(true, Tick(ms)));
            && w.there == t.there
            && w.here.end.sender.una == t.here.end.sender.una
            && Grows(t.here.end.sender, w.here.end.sender)
            && CarriesFront(w, p)
  {
    InvIsJoined(t);
    var c, s := t.here.end, t.here.end.sender;
    JoinedValid(c, t.here.sent, t.there);
    StreamsShort(c, t.here.sent, t.there);
    StreamsShortPeer(t);
    hide Inv, Sender.Valid, Store.Valid, Joined, Grows, InStream, Sender.Tick;
    TickTransmits(s, ms);
    TickKeepsWritten(s, ms);
    TimeoutResends(s, ms);
    TickKeepsEdges(s, ms);
    var m := s.outstanding[0].message;
    assert c.Tick(ms).1 == c.WrapAll([m]);
    WrappedMessage(c, m);
    InStreamSame(m, s, c.Tick(ms).0.sender);
  }

  lemma StreamsShortPeer(t: System)
    requires Inv(t)
    ensures !t.here.end.receiver.store.error
  {
    hide Connection.Valid, DataHonest, FeedbackHonest, Addressed, Store.Agrees;
  }

  lemma TickKeepsEdges(s: Sender, ms: u64)
    ensures s.Tick(ms).0.nxt == s.nxt && s.Tick(ms).0.isn == s.isn
  {
  }

  lemma InStreamSame(m: SenderMessage, s: Sender, t: Sender)
    requires InStream(m, s.una, s, s.una)
    requires t.una == s.una && t.nxt == s.nxt && t.isn == s.isn && t.outbound.written == s.outbound.written
    ensures InStream(m, t.una, t, t.una)
  {
    hide Carries;
  }

  lemma WrappedMessage(c: Connection, m: SenderMessage)
    requires c.receiver.store.Valid() && !c.receiver.store.error && !m.rst
    ensures c.Wrapped(m).ToSenderMessage() == m
  {
  }

  /** The network may deliver at once what was just sent: it is far from stale. */
  lemma FreshIsTimely(sys: System, p: Packet)
    requires Inv(sys) && p in sys.here.sent
    requires p.una == sys.here.end.sender.una && p.ack == sys.here.end.receiver.Acknowledged()
    ensures CanStep(sys, Event(false, Deliver(p)))
  {
    hide Sender.Counted, Tiles, Sender.TimerCoherent, Sender.IntervalsCoherent, Stream.Valid, DataHonest,
         FeedbackHonest, Addressed, Store.Agrees, Receiver.Valid;
  }

  /** `q` is an answer of the peer that acknowledges all its receiver has. */
  ghost predicate AnswersFully(sys: System, q: Packet) {
    && q in sys.there.sent
    && q.una == sys.there.end.sender.una && q.ack == sys.there.end.receiver.Acknowledged()
    && q.segment.header.ackno.Some?
  }

  lemma ResentDelivered(w: System, p: Packet)
    requires Inv(w) && CarriesFront(w, p) && CanStep(w, Event(false, Deliver(p)))
    requires w.there.end.receiver.store.popped == |w.there.end.receiver.store.assembled|
    requires w.there.end.receiver.store.capacity > 0
    ensures var d := After(w, Event(false, Deliver(p)));
            && d.here == w.here
            && d.there.end.receiver.Acknowledged() > w.here.end.sender.una
            && d.there.end.receiver.store.capacity == w.there.end.receiver.store.capacity
            && Emitted(Swapped(w), Deliver(p)) != {}
            && forall q :: q in Emitted(Swapped(w), Deliver(p)) ==> AnswersFully(d, q)
  {
    var v := Swapped(w);
    InvIsJoined(v);
    var c, y := v.here.end, v.there;
    var m := p.segment.ToSenderMessage();
    InvReceived(w);
    hide Inv, Sender.Valid, Store.Valid, Joined, InStream, Received, Connection.ReceiveSegment, Receiver.Receive;
    NeededPositionAdvances(y.end.sender, c.receiver, m);
    DeliveryIsAnswered(c, v.here.sent, y, p);
    ReceiveKeepsCapacity(c.receiver, m);
    var (c', out) := c.ReceiveSegment(p.segment);
    assert Packet(out[0], c'.sender.una, c'.receiver.Acknowledged(), v.now) in Emitted(v, Deliver(p));
  }

  lemma InvReceived(w: System)
    requires Inv(w)
    ensures w.here.end.sender.Valid() && w.there.end.receiver.Valid()
    ensures Received(w.here.end.sender, w.there.end.receiver)
  {
    InvParts(w);
  }

  lemma ReceiveKeepsCapacity(r: Receiver, m: SenderMessage)
    ensures r.Receive(m).store.capacity == r.store.capacity
  {
    hide Store.Absorb, Store.Judge, Receiver.StreamIndex;
    var f := r.Contribution(m);
    if f.Some? {
      AbsorbKeeps(r.store.(eof := if f.value.last then Some(f.value.End()) else r.store.eof), f.value);
    }
  }

  lemma AnswerDelivered(d: System, q: Packet)
    requires Inv(d) && AnswersFully(d, q) && CanStep(d, Event(true, Deliver(q)))
    ensures var z := After(d, Event(true, Deliver(q)));
            && z.there == d.there
            && z.here.end.sender.una == Max(d.here.end.sender.una, d.there.end.receiver.Acknowledged())
            && Grows(d.here.end.sender, z.here.end.sender)
  {
    InvIsJoined(d);
    hide Inv, Joined, Connection.ReceiveSegment, Grows;
    DeliveryAdvances(d.here.end, d.here.sent, d.there, q);
  }

  /** Putting one event before a run. */
  lemma RunCons(sys: System, e: Event, rest: seq<Event>)
    requires Inv(sys) && CanStep(sys, e) && Possible(After(sys, e), rest)
    ensures Possible(sys, [e] + rest) && Run(sys, [e] + rest) == Run(After(sys, e), rest)
  {
    hide Inv, CanStep, Step;
    InvReady(sys);
    assert ([e] + rest)[1..] == rest;
  }

  lemma RunNil(sys: System)
    ensures Possible(sys, []) && Run(sys, []) == sys
  {
  }

  /** What a lossless round comes to, state by state. */
  lemma RoundStates(sys: System, r: Round)
    requires Working(sys) && Lossless(sys, r)
    ensures Possible(sys, Events(sys, r))
    ensures var z := Run(sys, Events(sys, r));
            && Inv(z)
            && z.here.end.sender.una > sys.here.end.sender.una
            && Grows(sys.here.end.sender, z.here.end.sender)
            && z.there.end.receiver.store.capacity == sys.there.end.receiver.store.capacity
  {
    hide Inv, CanStep, Step, Grows, Emitted, CarriesFront, AnswersFully, Possible, Run;
    var e0, e1, e2 := Drain(sys), Event(true, Connect), Event(true, Tick(r.ms));
    var e3, e4 := Event(false, Deliver(r.resent)), Event(true, Deliver(r.answer));
    AlwaysAllowed(sys, r.ms);
    AlwaysAllowed(After(sys, e0), r.ms);
    PreparedReady(sys);
    var t := Prepared(sys);
    AlwaysAllowed(t, r.ms);
    WaitedReady(t, r.ms, r.resent);
    var w := After(t, e2);
    FrontIsFresh(w, r.resent);
    ResentDelivered(w, r.resent);
    var d := After(w, e3);
    AnswerIsFresh(d, r.answer);
    AnswerDelivered(d, r.answer);
    var z := After(d, e4);
    GrowsTransitive(sys.here.end.sender, t.here.end.sender, w.here.end.sender);
    GrowsTransitive(sys.here.end.sender, w.here.end.sender, z.here.end.sender);
    RunNil(z);
    RunCons(d, e4, []);
    assert [e4] + [] == [e4];
    RunCons(w, e3, [e4]);
    assert [e3] + [e4] == [e3, e4];
    RunCons(t, e2, [e3, e4]);
    assert [e2] + [e3, e4] == [e2, e3, e4];
    RunCons(After(sys, e0), e1, [e2, e3, e4]);
    assert [e1] + [e2, e3, e4] == [e1, e2, e3, e4];
    RunCons(sys, e0, [e1, e2, e3, e4]);
    assert [e0] + [e1, e2, e3, e4] == Events(sys, r);
  }

  lemma AlwaysAllowed(sys: System, ms: u64)
    ensures CanStep(sys, Event(true, Connect)) && CanStep(sys, Event(true, Tick(ms)))
    ensures Inv(sys) ==> CanStep(sys, Drain(sys))
  {
    if Inv(sys) {
      DrainAllowed(sys);
    }
  }

  lemma FrontIsFresh(sys: System, p: Packet)
    requires Inv(sys) && CarriesFront(sys, p)
    ensures CanStep(sys, Event(false, Deliver(p)))
  {
    hide Inv, CanStep;
    FreshIsTimely(sys, p);
  }

  lemma AnswerIsFresh(sys: System, q: Packet)
    requires Inv(sys) && AnswersFully(sys, q)
    ensures CanStep(sys, Event(true, Deliver(q)))
  {
    hide Inv;
    FreshIsTimely(Swapped(sys), q);
    assert Swap(Swap(sys)) == sys;
  }

  /** A round in which nothing is lost strictly raises SND.UNA, and leaves a conversation in which
      the next round can begin unless the sender has finished. */
  lemma RoundRaisesUna(sys: System, r: Round)
    requires Working(sys) && Lossless(sys, r)
    ensures Possible(sys, Events(sys, r))
    ensures var z := Run(sys, Events(sys, r));
            && z.here.end.sender.una > sys.here.end.sender.una
            && z.here.end.sender.outbound.written == sys.here.end.sender.outbound.written
            && (z.here.end.sender.Finished() || Working(z))
            && Inv(z)
  {
    hide Inv, Possible, Run, Events, Lossless;
    RoundStates(sys, r);
  }

  /** Such a round exists from every state in which there is work to do. */
  lemma RoundExists(sys: System) returns (r: Round)
    requires Working(sys)
    ensures Lossless(sys, r)
  {
    hide Inv, CanStep, Step, Grows, CarriesFront, AnswersFully;
    PreparedReady(sys);
    var t := Prepared(sys);
    var ms := t.here.end.sender.timer.timeout;
    AlwaysAllowed(t, ms);
    var p := TimeoutEmits(t, ms);
    WaitedReady(t, ms, p);
    var w := After(t, Event(true, Tick(ms)));
    FrontIsFresh(w, p);
    ResentDelivered(w, p);
    var q :| q in Emitted(Swapped(w), Deliver(p));
    r := Round(ms, p, q);
  }

  lemma TimeoutEmits(t: System, ms: u64) returns (p: Packet)
    requires Inv(t) && t.here.end.sender.outstanding != [] && ms >= t.here.end.sender.timer.timeout
    ensures p in Emitted(t, Tick(ms))
  {
    InvReady(t);
    hide Inv, Sender.Valid, Receiver.Valid, Sender.Tick;
    TimeoutResends(t.here.end.sender, ms);
    var (c, out) := Respond(t.here.end, Tick(ms));
    assert |out| == 1;
    p := Packet(out[0], c.sender.una, c.receiver.Acknowledged(), t.now);
  }

  /** How many positions of its stream a sender has yet to see acknowledged. */
  function Remaining(sys: System): (count: int) {
    |sys.here.end.sender.outbound.written| + 2 - sys.here.end.sender.una
  }

  /** How far events can take a conversation: the sender's left edge never moves back, and what it
      has written and closed, and the peer's capacity, stay. */
  ghost predicate Ahead(sys: System, t: System) {
    && sys.here.end.sender.una <= t.here.end.sender.una
    && Grows(sys.here.end.sender, t.here.end.sender)
    && t.there.end.receiver.store.capacity == sys.there.end.receiver.store.capacity
  }

  lemma AheadTransitive(sys: System, t: System, u: System)
    requires Ahead(sys, t) && Ahead(t, u)
    ensures Ahead(sys, u)
  {
    hide Grows;
    GrowsTransitive(sys.here.end.sender, t.here.end.sender, u.here.end.sender);
  }

  lemma WriteGrows(s: Sender, data: seq<byte>)
    requires s.Valid()
    ensures Grows(s, s.(outbound := s.outbound.Push(data)))
    ensures Grows(s, s.(outbound := s.outbound.Close()))
  {
    hide Sender.Valid, Stream.Push, Flatten;
    OutboundValid(s);
    PushAppends(s.outbound, data);
    PushOnly(s.outbound, data);
    FinMeansClosed(s);
  }

  /** A flush of an endpoint whose sender has grown. */
  lemma FlushGrows(c: Connection, s: Sender)
    requires c.Valid() && Grows(s, c.sender)
    ensures Grows(s, c.Flush().0.sender)
    ensures c.Flush().0.sender.una == c.sender.una
    ensures c.Flush().0.receiver == c.receiver
  {
    hide Sender.Valid, Receiver.Valid, Grows, Sender.Push;
    FlushValid(c);
    PushValid(c.sender);
    PushGrows(c.sender);
    GrowsTransitive(s, c.sender, c.Flush().0.sender);
  }

  lemma DeliveryGrows(c: Connection, sent: set<Packet>, y: Half, p: Packet)
    requires Joined(c, sent, y) && p in y.sent
    requires y.end.sender.nxt < p.una + STALENESS && c.sender.nxt < p.ack + STALENESS
    ensures c.Valid()
    ensures c.sender.una <= c.ReceiveSegment(p.segment).0.sender.una
    ensures Grows(c.sender, c.ReceiveSegment(p.segment).0.sender)
  {
    JoinedAbsorb(c, sent, y, p);
    JoinedValid(c, sent, y);
    JoinedValid(c.Absorb(p.segment), sent, y);
    hide Sender.Valid, Sender.Receive, Receiver.Valid, Link, Grows, Addressed, Connection.Flush;
    LinkTakesFeedback(c.sender, sent, y.end.receiver, y.sent, p);
    FlushGrows(c.Absorb(p.segment), c.sender);
  }

  lemma HereAhead(sys: System, action: Action)
    requires Inv(sys) && Allowed(sys, action)
    ensures Ready(sys) && Ahead(sys, Act(sys, action))
  {
    InvReady(sys);
    InvIsJoined(sys);
    var c := sys.here.end;
    hide Inv, Joined, Sender.Valid, Receiver.Valid, Grows, Stream.Push, Stream.Close, Connection.Flush,
         Connection.ReceiveSegment;
    GrowsReflexive(c.sender);
    match action
    case Connect => FlushGrows(c, c.sender);
    case Write(data) =>
      WriteKeepsValid(c.sender, data);
      WriteGrows(c.sender, data);
      FlushGrows(c.(sender := c.sender.(outbound := c.sender.outbound.Push(data))), c.sender);
    case Close =>
      CloseKeepsValid(c.sender);
      WriteGrows(c.sender, []);
      FlushGrows(c.(sender := c.sender.(outbound := c.sender.outbound.Close())), c.sender);
    case Read(_) =>
    case Tick(ms) =>
      StreamsShort(c, sys.here.sent, sys.there);
      TickTransmits(c.sender, ms);
    case Deliver(p) => DeliveryGrows(c, sys.here.sent, sys.there, p);
  }

  lemma RespondKeepsCapacity(c: Connection, action: Action)
    requires c.Valid()
    ensures Respond(c, action).0.receiver.store.capacity == c.receiver.store.capacity
  {
    hide Sender.Valid, Receiver.Valid, Connection.Flush, Connection.Write, Connection.Close, Connection.Tick,
         Receiver.Receive, Sender.Receive, Receiver.Judge;
    match action
    case Connect => FlushValid(c);
    case Write(data) => WriteValid(c, data);
    case Close => CloseValid(c);
    case Read(_) =>
    case Tick(ms) => TickValid(c, ms);
    case Deliver(p) =>
      AbsorbValid(c, p.segment);
      FlushValid(c.Absorb(p.segment));
      ReceiveKeepsCapacity(c.receiver, p.segment.ToSenderMessage());
  }

  lemma StepAhead(sys: System, e: Event)
    requires Inv(sys) && CanStep(sys, e)
    ensures Ready(sys) && Ahead(sys, Step(sys, e))
  {
    hide Inv, Respond, Grows, Connection.Valid;
    InvReady(sys);
    if e.atHere {
      HereAhead(sys, e.action);
      assert Step(sys, e) == Act(sys, e.action);
    } else {
      RespondKeepsCapacity(sys.there.end, e.action);
      GrowsReflexive(sys.here.end.sender);
    }
  }

  lemma {:induction false} RunAhead(sys: System, events: seq<Event>)
    requires Inv(sys) && Possible(sys, events)
    ensures Ahead(sys, Run(sys, events)) && Inv(Run(sys, events))
    decreases |events|
  {
    hide Inv, Step, CanStep, Ahead;
    if events != [] {
      StepAhead(sys, events[0]);
      StepKeepsInv(sys, events[0]);
      RunAhead(Step(sys, events[0]), events[1..]);
      AheadTransitive(sys, Step(sys, events[0]), Run(sys, events));
    } else {
      AheadReflexive(sys);
    }
  }

  lemma AheadReflexive(sys: System)
    ensures Ahead(sys, sys)
  {
  }

  lemma InvSender(sys: System)
    requires Inv(sys)
    ensures sys.here.end.sender.Valid()
  {
    hide Paired, Sender.Valid;
  }

  /** A closed stream on its way to a peer that has room for something. */
  ghost predicate Closing(sys: System) {
    && Inv(sys)
    && sys.here.end.sender.outbound.closed
    && sys.there.end.receiver.store.capacity > 0
  }

  /** Any possible events keep it so, and leave no more to acknowledge than before. */
  lemma RunKeepsClosing(sys: System, events: seq<Event>)
    requires Closing(sys) && Possible(sys, events)
    ensures var t := Run(sys, events);
            && Closing(t) && Remaining(t) <= Remaining(sys)
            && t.here.end.sender.outbound.written == sys.here.end.sender.outbound.written
            && (sys.here.end.sender.Finished() ==> t.here.end.sender.Finished())
  {
    hide Inv, Run, Possible, Sender.Valid, Sender.Finished;
    RunAhead(sys, events);
    var t := Run(sys, events);
    InvSender(sys);
    InvSender(t);
    FinishedMeansAllAcknowledged(sys.here.end.sender);
    FinishedMeansAllAcknowledged(t.here.end.sender);
  }

  /** Whatever happens in between, and then a round in which nothing is lost. */
  datatype Stretch = Stretch(between: seq<Event>, round: Round)

  /** A run in which each stretch is possible when its turn comes, until the sender has finished or
      all stretches have passed; it leads from `sys` to `z`. */
  ghost predicate Rounds(sys: System, stretches: seq<Stretch>, z: System)
    decreases |stretches|
  {
    if stretches == [] then z == sys
    else
      && Possible(sys, stretches[0].between)
      && var t := Run(sys, stretches[0].between);
         if t.here.end.sender.Finished() then z == t
         else
           && Inv(t) && Lossless(t, stretches[0].round)
           && Possible(t, Events(t, stretches[0].round))
           && Rounds(Run(t, Events(t, stretches[0].round)), stretches[1..], z)
  }

  /** A closed stream finishes within as many lossless rounds as it has positions left, from any state
      of any run, whichever rounds they are and whatever else happens between them. */
  lemma {:induction false} FinishesInTime(sys: System, stretches: seq<Stretch>, z: System)
    requires Closing(sys) && Rounds(sys, stretches, z) && |stretches| >= Remaining(sys)
    ensures Closing(z) && z.here.end.sender.Finished()
    ensures z.here.end.sender.outbound.written == sys.here.end.sender.outbound.written
    decreases |stretches|
  {
    hide Inv, Possible, Run, Events, Lossless, Sender.Valid, Sender.Finished;
    if stretches == [] {
      InvSender(sys);
      FinishedMeansAllAcknowledged(sys.here.end.sender);
    } else {
      RunKeepsClosing(sys, stretches[0].between);
      var t := Run(sys, stretches[0].between);
      if !t.here.end.sender.Finished() {
        RoundRaisesUna(t, stretches[0].round);
        RunKeepsClosing(t, Events(t, stretches[0].round));
        FinishesInTime(Run(t, Events(t, stretches[0].round)), stretches[1..], z);
      }
    }
  }

  /** Rounds without loss can always go on until the sender has finished. */
  lemma {:induction false} RoundsExist(sys: System, n: nat) returns (stretches: seq<Stretch>, z: System)
    requires Closing(sys)
    ensures Rounds(sys, stretches, z)
    ensures |stretches| == n || (|stretches| < n && z.here.end.sender.Finished())
    ensures Closing(z) && z.here.end.sender.outbound.written == sys.here.end.sender.outbound.written
    decreases n
  {
    hide Inv, Possible, Run, Events, Lossless, Sender.Finished;
    stretches, z := [], sys;
    if n > 0 && !sys.here.end.sender.Finished() {
      RunNil(sys);
      var round := RoundExists(sys);
      RoundRaisesUna(sys, round);
      RunKeepsClosing(sys, Events(sys, round));
      var rest;
      rest, z := RoundsExist(Run(sys, Events(sys, round)), n - 1);
      stretches := [Stretch([], round)] + rest;
      assert stretches[1..] == rest;
    }
  }

  /** From every state of every run, a closed stream can be carried through to its end: rounds
      without loss exist, and after them the peer holds everything that was written. */
  lemma ClosedStreamIsDelivered(sys: System, events: seq<Event>) returns (stretches: seq<Stretch>, z: System)
    requires Initial(sys) && Possible(sys, events)
    requires Run(sys, events).here.end.sender.outbound.closed
    requires Run(sys, events).there.end.receiver.store.capacity > 0
    ensures |stretches| <= Max(Remaining(Run(sys, events)), 0)
    ensures Rounds(Run(sys, events), stretches, z)
    ensures z.there.end.receiver.store.closed
    ensures z.there.end.receiver.store.assembled == Run(sys, events).here.end.sender.outbound.written
  {
    hide Inv, Initial, Run, Possible, Rounds, Sender.Finished;
    InitialInv(sys);
    RunKeepsInv(sys, events);
    var t := Run(sys, events);
    stretches, z := RoundsExist(t, Max(Remaining(t), 0));
    if |stretches| == Max(Remaining(t), 0) {
      FinishesInTime(t, stretches, z);
    }
    InvReceived(z);
    WholeStreamReceived(z.here.end.sender, z.there.end.receiver);
  }

  /** Once established, an endpoint stays so, whatever happens. */
  lemma EstablishedStays(sys: System, events: seq<Event>)
    requires Inv(sys) && Possible(sys, events) && sys.here.end.Established()
    ensures Run(sys, events).here.end.Established()
  {
    hide Inv, Run, Possible;
    RunAhead(sys, events);
    RunMonotone(sys, events);
  }
}
