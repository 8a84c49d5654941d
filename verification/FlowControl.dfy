/** Flow control: exactly when a sender stays within what its receiver offers, and that it does when
    feedback arrives in the order it was sent (section 3.8.6 of RFC 9293). */
module FlowControl {
  import opened Words
  import opened Wrap32
  import opened ByteStreams
  import opened Stores
  import opened TcpMessages
  import opened TcpSegments
  import opened SenderSpecs
  import opened SenderFacts
  import opened TcpReceivers
  import opened ConnectionSpecs
  import opened TwoParty
  import opened LinkFacts
  import opened Safety
  import opened Runs

  /** The endpoint `here` is given nothing older than what it was given last. */
  ghost predicate InOrder(sys: System, events: seq<Event>)
    requires Possible(sys, events)
    decreases |events|
  {
    if events == [] then true else
    && (events[0].atHere && events[0].action.Deliver? ==> sys.here.heard <= events[0].action.packet.sentAt)
    && InOrder(Step(sys, events[0]), events[1..])
  }

  /** Feedback packets are stamped in the past, say no more than the receiver offers, and later ones
      acknowledge no less than earlier ones. */
  ghost predicate FeedbackOrdered(feedback: set<Packet>, r: Receiver, now: nat)
    requires r.store.Valid()
  {
    && (forall p :: p in feedback ==> p.sentAt < now)
    && (forall p :: p in feedback ==> p.ack + p.segment.header.window <= RightEdge(r))
    && (forall p :: p in feedback && p.segment.header.ackno == None ==> p.ack == 0)
    && (forall p, q :: p in feedback && q in feedback && p.sentAt <= q.sentAt ==> p.ack <= q.ack)
  }

  /** The invariant of every run that flow control builds on. */
  ghost predicate Stated(sys: System) {
    && Inv(sys)
    && sys.there.end.receiver.store.Valid()
    && FeedbackOrdered(sys.there.sent, sys.there.end.receiver, sys.now)
  }

  /** The sender believes in no more room than the receiver offers. */
  ghost predicate Within(sys: System)
    requires sys.there.end.receiver.store.Valid()
  {
    sys.here.end.sender.una + sys.here.end.sender.window <= RightEdge(sys.there.end.receiver)
  }

  /** What was sent passes the receiver's edge by at most one probed position. */
  ghost predicate Bounded(sys: System)
    requires sys.there.end.receiver.store.Valid()
  {
    sys.here.end.sender.nxt <= RightEdge(sys.there.end.receiver) + 1
  }

  /** How far the window in a packet reaches, counted from the left edge that the sender will have. */
  function Reach(s: Sender, p: Packet): (edge: nat) {
    Max(s.una, p.ack) + p.segment.header.window
  }

  /** The event gives the sender no window that reaches beyond what the receiver offers. */
  ghost predicate Fits(sys: System, e: Event)
    requires sys.there.end.receiver.store.Valid()
  {
    e.atHere && e.action.Deliver? ==>
      Reach(sys.here.end.sender, e.action.packet) <= RightEdge(sys.there.end.receiver)
  }

  lemma AckedWithinEdge(s: Sender, r: Receiver)
    requires r.Valid() && Received(s, r)
    ensures s.una <= r.Acknowledged() <= RightEdge(r)
    ensures r.Acknowledged() + r.Window() <= RightEdge(r)
  {
    hide Store.Agrees;
  }

  lemma ReceiveKeepsNxt(s: Sender, m: ReceiverMessage)
    ensures s.Receive(m).nxt == s.nxt
  {
    hide Unwrap, Discard;
  }

  lemma OrderedLater(feedback: set<Packet>, r: Receiver, now: nat)
    requires r.store.Valid() && FeedbackOrdered(feedback, r, now)
    ensures FeedbackOrdered(feedback, r, now + 1)
  {
    hide RightEdge;
  }

  lemma TickKeepsWindow(s: Sender, ms: u64)
    ensures var t := s.Tick(ms).0;
            t.una == s.una && t.nxt == s.nxt && t.window == s.window
  {
  }

  lemma AbsorbedSender(c: Connection, segment: TcpSegment)
    ensures c.Absorb(segment).sender == c.sender.Receive(segment.ToReceiverMessage())
  {
  }

  /** A segment whose feedback is what the receiver says now. */
  ghost predicate SaysNow(segment: TcpSegment, r: Receiver)
    requires r.store.Valid()
  {
    segment.header.window == r.Window() && (segment.header.ackno == None <==> r.isn == None)
  }

  lemma FlushSaysNow(c: Connection)
    requires c.Valid()
    ensures forall k :: 0 <= k < |c.Flush().1| ==> SaysNow(c.Flush().1[k], c.receiver)
  {
    hide Sender.Valid, Store.Valid, Sender.Push, Wrap;
  }

  lemma TickSaysNow(c: Connection, ms: u64)
    requires c.Valid()
    ensures forall k :: 0 <= k < |c.Tick(ms).1| ==> SaysNow(c.Tick(ms).1[k], c.receiver)
  {
    hide Sender.Valid, Store.Valid, Sender.Tick, Wrap;
  }

  /** How the receive side of an endpoint may change in one action. */
  ghost predicate Onward(r: Receiver, r': Receiver)
    requires r.store.Valid() && r'.store.Valid()
  {
    RightEdge(r) <= RightEdge(r') && r.Acknowledged() <= r'.Acknowledged()
  }

  lemma DeliverSaysNow(c: Connection, segment: TcpSegment)
    requires c.Valid()
    requires segment.header.srcPort == c.peerPort && segment.header.dstPort == c.localPort
    ensures var (c', out) := c.ReceiveSegment(segment);
            && c'.Valid() && c'.receiver == c.Absorb(segment).receiver
            && forall k :: 0 <= k < |out| ==> SaysNow(out[k], c'.receiver)
  {
    ReceiveSegmentValid(c, segment);
    AbsorbValid(c, segment);
    hide Sender.Valid, Store.Valid, Sender.Push, Connection.Absorb;
    FlushValid(c.Absorb(segment));
    FlushSaysNow(c.Absorb(segment));
  }

  lemma DeliverOnward(c: Connection, sent: set<Packet>, y: Half, p: Packet)
    requires Joined(c, sent, y) && p in y.sent
    requires y.end.sender.nxt < p.una + STALENESS && c.sender.nxt < p.ack + STALENESS
    ensures c.Valid() && c.Absorb(p.segment).Valid()
    ensures Onward(c.receiver, c.Absorb(p.segment).receiver)
  {
    JoinedAbsorb(c, sent, y, p);
    JoinedValid(c, sent, y);
    JoinedValid(c.Absorb(p.segment), sent, y);
    StreamsShort(c, sent, y);
    StreamsShort(c.Absorb(p.segment), sent, y);
    hide Joined, Sender.Valid, Sender.Receive, Receiver.Receive, Receiver.Judge, RightEdge, Receiver.Acknowledged, Store.Valid;
    var m := p.segment.ToSenderMessage();
    RightEdgeNeverShrinks(c.receiver, m);
    assert c.Absorb(p.segment).receiver in {c.receiver, c.receiver.Receive(m)};
  }

  /** Every action moves an endpoint's receive side onward, and what it then sends says so. */
  lemma RespondSaysNow(v: System, action: Action)
    requires Inv(v) && Allowed(v, action)
    ensures v.here.end.Valid()
    ensures var (c', out) := Respond(v.here.end, action);
            && c'.Valid()
            && Onward(v.here.end.receiver, c'.receiver)
            && forall k :: 0 <= k < |out| ==> SaysNow(out[k], c'.receiver)
  {
    InvIsJoined(v);
    InvParts(v);
    ActKeepsInv(v, action);
    InvReady(Act(v, action));
    var c := v.here.end;
    hide Inv, Joined, Sender.Valid, Store.Valid, RightEdge, Stream.Valid, Connection.Absorb, Connection.Flush,
         Connection.ReceiveSegment, Connection.Tick;
    match action
    case Connect => FlushSaysNow(c);
      FlushValid(c);
    case Write(data) =>
      WriteKeepsValid(c.sender, data);
      var d := c.(sender := c.sender.(outbound := c.sender.outbound.Push(data)));
      FlushSaysNow(d);
      FlushValid(d);
    case Close =>
      CloseKeepsValid(c.sender);
      var d := c.(sender := c.sender.(outbound := c.sender.outbound.Close()));
      FlushSaysNow(d);
      FlushValid(d);
    case Read(count) => ReadNeverShrinksEdge(c.receiver, count);
    case Tick(ms) => TickSaysNow(c, ms);
      TickValid(c, ms);
    case Deliver(p) =>
      JoinedAbsorb(c, v.here.sent, v.there, p);
      DeliverSaysNow(c, p.segment);
      DeliverOnward(c, v.here.sent, v.there, p);
  }

  /** Feedback stays ordered when the receiver moves on and says so. */
  lemma OrderedOnward(feedback: set<Packet>, r: Receiver, c: Connection, out: seq<TcpSegment>, now: nat, isn: u32)
    requires r.Valid() && c.Valid() && Onward(r, c.receiver)
    requires FeedbackOrdered(feedback, r, now)
    requires forall p :: p in feedback ==> p.ack <= r.Acknowledged()
    requires forall k :: 0 <= k < |out| ==> SaysNow(out[k], c.receiver)
    ensures FeedbackOrdered(feedback + Stamp(c, out, now), c.receiver, now + 1)
    ensures forall p :: p in Stamp(c, out, now) ==> p.ack == c.receiver.Acknowledged() && p.sentAt == now
  {
    hide Sender.Valid, Store.Valid;
  }

  lemma FeedbackAcks(s: Sender, data: set<Packet>, r: Receiver, feedback: set<Packet>)
    requires Link(s, data, r, feedback)
    ensures forall p :: p in feedback ==> p.ack <= r.Acknowledged()
  {
    hide Received, DataHonest;
  }

  /** An endpoint whose sender has the same edges, window and validity flushes. */
  lemma FlushBounds(c: Connection, t: Sender)
    requires c.Valid() && t.Valid()
    ensures c.(sender := t).Valid()
    ensures var s := c.(sender := t).Flush().0.sender;
            s.una == t.una && s.window == t.window && s.nxt <= Max(t.nxt, t.una + t.Effective())
  {
    hide Sender.Valid, Store.Valid;
    PushWithinWindow(t);
    FlushValid(c.(sender := t));
  }

  lemma WriteBounds(c: Connection, data: seq<byte>)
    requires c.Valid()
    ensures var s, t := c.sender, c.Write(data).0.sender;
            t.una == s.una && t.window == s.window && t.nxt <= Max(s.nxt, s.una + s.Effective())
  {
    hide Sender.Valid, Receiver.Valid, Stream.Push, Connection.Flush;
    OutboundValid(c.sender);
    WriteKeepsValid(c.sender, data);
    FlushBounds(c, c.sender.(outbound := c.sender.outbound.Push(data)));
  }

  lemma CloseBounds(c: Connection)
    requires c.Valid()
    ensures var s, t := c.sender, c.Close().0.sender;
            t.una == s.una && t.window == s.window && t.nxt <= Max(s.nxt, s.una + s.Effective())
  {
    hide Sender.Valid, Receiver.Valid, Connection.Flush;
    CloseKeepsValid(c.sender);
    FlushBounds(c, c.sender.(outbound := c.sender.outbound.Close()));
  }

  /** What the sender's own actions can do: its edge and window stay, and it sends within them. */
  lemma OwnActionBounds(sys: System, action: Action)
    requires Inv(sys) && Allowed(sys, action) && !action.Deliver?
    ensures sys.here.end.Valid()
    ensures var s, t := sys.here.end.sender, Respond(sys.here.end, action).0.sender;
            && t.una == s.una && t.window == s.window
            && t.nxt <= Max(s.nxt, s.una + s.Effective())
  {
    InvParts(sys);
    var c, s := sys.here.end, sys.here.end.sender;
    hide Inv, Sender.Valid, Receiver.Valid, Store.Valid, Connection.Write, Connection.Close, Connection.Flush,
         Link, Received, Sender.Effective, Max, Sender.Tick;
    match action
    case Connect =>
      FlushBounds(c, s);
      assert c.(sender := s) == c;
    case Write(data) => WriteBounds(c, data);
    case Close => CloseBounds(c);
    case Read(_) =>
    case Tick(ms) => TickKeepsWindow(s, ms);
  }

  /** What any delivery, however stale, does to the sender's edge and window. */
  lemma DeliveryBounds(sys: System, p: Packet)
    requires Stated(sys) && Allowed(sys, Deliver(p))
    ensures sys.here.end.Valid()
    ensures var s, t := sys.here.end.sender, sys.here.end.ReceiveSegment(p.segment).0.sender;
            && t.una == Max(s.una, p.ack) && t.window == p.segment.header.window
            && t.nxt <= Max(s.nxt, t.una + t.Effective())
  {
    InvParts(sys);
    InvIsJoined(sys);
    var c, sent, y := sys.here.end, sys.here.sent, sys.there;
    var s, r := c.sender, y.end.receiver;
    hide Inv, Joined, Sender.Valid, Receiver.Valid, Store.Valid, RightEdge, Stream.Valid, Connection.Absorb,
         Link, Received, Connection.Flush, Sender.Receive;
    LinkTakesFeedback(s, sent, r, y.sent, p);
    JoinedAbsorb(c, sent, y, p);
    AbsorbedSender(c, p.segment);
    JoinedValid(c.Absorb(p.segment), sent, y);
    ReceiveKeepsNxt(s, p.segment.ToReceiverMessage());
    FlushBounds(c.Absorb(p.segment), c.Absorb(p.segment).sender);
    assert c.Absorb(p.segment).(sender := c.Absorb(p.segment).sender) == c.Absorb(p.segment);
  }

  /** After any delivery, stale or not, the sender stays within what the receiver offers if and only
      if the window in the packet reaches no further, counted from the left edge it will then have. */
  lemma DeliveryWithinExactly(sys: System, p: Packet)
    requires Stated(sys) && Allowed(sys, Deliver(p))
    ensures Ready(sys) && Act(sys, Deliver(p)).there == sys.there
    ensures Within(Act(sys, Deliver(p)))
       <==> Reach(sys.here.end.sender, p) <= RightEdge(sys.there.end.receiver)
  {
    hide Inv, RightEdge, Store.Valid, FeedbackOrdered, Connection.ReceiveSegment;
    InvReady(sys);
    DeliveryBounds(sys, p);
  }

  /** An event of the sender's endpoint. */
  lemma HereStep(sys: System, e: Event)
    requires Stated(sys) && CanStep(sys, e) && e.atHere
    ensures Ready(sys) && Stated(Step(sys, e))
    ensures !e.action.Deliver? ==> (Within(Step(sys, e)) <==> Within(sys))
    ensures e.action.Deliver? ==> (Within(Step(sys, e)) <==> Fits(sys, e))
    ensures Bounded(sys) && Within(Step(sys, e)) ==> Bounded(Step(sys, e))
  {
    hide Inv, RightEdge, Store.Valid, FeedbackOrdered, Respond, Connection.ReceiveSegment;
    InvReady(sys);
    StepKeepsInv(sys, e);
    LeftEdgeOffered(Step(sys, e));
    OrderedLater(sys.there.sent, sys.there.end.receiver, sys.now);
    if e.action.Deliver? {
      DeliveryWithinExactly(sys, e.action.packet);
      DeliveryBounds(sys, e.action.packet);
      RespondDelivers(sys.here.end, e.action.packet);
    } else {
      OwnActionBounds(sys, e.action);
    }
  }

  lemma RespondDelivers(c: Connection, p: Packet)
    requires c.Valid()
    ensures Respond(c, Deliver(p)) == c.ReceiveSegment(p.segment)
  {
  }

  lemma LeftEdgeOffered(sys: System)
    requires Inv(sys)
    ensures sys.there.end.receiver.store.Valid()
    ensures sys.here.end.sender.una <= RightEdge(sys.there.end.receiver)
  {
    InvParts(sys);
    hide Inv, RightEdge, Sender.Valid, Link;
    AckedWithinEdge(sys.here.end.sender, sys.there.end.receiver);
  }

  /** An event of the receiver's endpoint, whatever it is given and in whatever order. */
  lemma ThereStep(sys: System, e: Event)
    requires Stated(sys) && CanStep(sys, e) && !e.atHere
    ensures Ready(sys) && Stated(Step(sys, e)) && Step(sys, e).here == sys.here
    ensures RightEdge(sys.there.end.receiver) <= RightEdge(Step(sys, e).there.end.receiver)
    ensures forall p :: p in Step(sys, e).there.sent ==> p in sys.there.sent || sys.here.end.sender.una <= p.ack
  {
    InvReady(sys);
    InvSymmetric(sys);
    InvParts(sys);
    StepKeepsInv(sys, e);
    var v := Swap(sys);
    RespondSaysNow(v, e.action);
    var (c, out) := Respond(v.here.end, e.action);
    var s, r := sys.here.end.sender, sys.there.end.receiver;
    AckedWithinEdge(s, r);
    FeedbackAcks(s, sys.here.sent, r, sys.there.sent);
    hide Inv, Sender.Valid, Store.Valid, RightEdge, Respond, Link, FeedbackOrdered;
    OrderedOnward(sys.there.sent, r, c, out, sys.now, s.isn);
  }

  lemma InitialStated(sys: System)
    requires Initial(sys)
    ensures Stated(sys) && Within(sys) && Bounded(sys)
    ensures forall p :: p !in sys.there.sent
  {
    InitialInv(sys);
    hide Inv;
  }

  /** The sender is within what the receiver offers before and after every event. */
  ghost predicate AlwaysWithin(sys: System, events: seq<Event>)
    requires Stated(sys) && Possible(sys, events)
    decreases |events|
  {
    && Within(sys)
    && (events == [] || (StepStated(sys, events[0]); AlwaysWithin(Step(sys, events[0]), events[1..])))
  }

  /** Every packet that the sender's endpoint is given fits when it is delivered. */
  ghost predicate AllFit(sys: System, events: seq<Event>)
    requires Stated(sys) && Possible(sys, events)
    decreases |events|
  {
    events == []
    || (Fits(sys, events[0]) && (StepStated(sys, events[0]); AllFit(Step(sys, events[0]), events[1..])))
  }

  lemma StepStated(sys: System, e: Event)
    requires Stated(sys) && CanStep(sys, e)
    ensures Ready(sys) && Stated(Step(sys, e))
  {
    hide Stated, Step, CanStep, Fits, Within, Bounded;
    if e.atHere {
      HereStep(sys, e);
    } else {
      ThereStep(sys, e);
    }
  }

  lemma {:induction false} RunWithin(sys: System, events: seq<Event>)
    requires Stated(sys) && Within(sys) && Possible(sys, events)
    ensures AlwaysWithin(sys, events) <==> AllFit(sys, events)
    ensures Stated(Run(sys, events))
    ensures AllFit(sys, events) && Bounded(sys) ==> Within(Run(sys, events)) && Bounded(Run(sys, events))
    decreases |events|
  {
    hide Inv, FeedbackOrdered, Step, CanStep, RightEdge, Store.Valid;
    if events != [] {
      var e := events[0];
      StepStated(sys, e);
      if e.atHere {
        HereStep(sys, e);
      } else {
        ThereStep(sys, e);
      }
      if Within(Step(sys, e)) {
        RunWithin(Step(sys, e), events[1..]);
      } else {
        RunStated(Step(sys, e), events[1..]);
      }
    }
  }

  lemma {:induction false} RunStated(sys: System, events: seq<Event>)
    requires Stated(sys) && Possible(sys, events)
    ensures Stated(Run(sys, events))
    decreases |events|
  {
    hide Stated, Step, CanStep;
    if events != [] {
      StepStated(sys, events[0]);
      RunStated(Step(sys, events[0]), events[1..]);
    }
  }

  /** Over every run from two fresh endpoints: the sender never believes in more room than its receiver
      offers if and only if every packet it is given fits at that moment. */
  lemma WithinExactly(sys: System, events: seq<Event>)
    requires Initial(sys) && Possible(sys, events)
    ensures Stated(sys)
    ensures AlwaysWithin(sys, events) <==> AllFit(sys, events)
  {
    hide Initial, Possible, Stated, Within, Bounded, AlwaysWithin, AllFit;
    InitialStated(sys);
    RunWithin(sys, events);
  }

  /** In every run whose packets fit, whatever happens to data, what has been sent never passes the
      right edge the receiver offers by more than one probed position. */
  lemma FittingNeverOutruns(sys: System, events: seq<Event>)
    requires Initial(sys) && Possible(sys, events)
    requires Stated(sys) && AllFit(sys, events)
    ensures var s, r := Run(sys, events).here.end.sender, Run(sys, events).there.end.receiver;
            && r.store.Valid()
            && s.nxt <= RightEdge(r) + 1
            && s.una + s.window <= RightEdge(r)
  {
    hide Initial, Run, Possible, RightEdge, Inv, FeedbackOrdered, AllFit;
    InitialStated(sys);
    RunWithin(sys, events);
  }

  /** What keeps feedback that arrives in order fitting: nothing the endpoint may still be given
      acknowledges less than it knows. */
  ghost predicate Current(sys: System) {
    forall p :: p in sys.there.sent && sys.here.heard <= p.sentAt ==> sys.here.end.sender.una <= p.ack
  }

  lemma CurrentFits(sys: System, p: Packet)
    requires Stated(sys) && Current(sys) && p in sys.there.sent && sys.here.heard <= p.sentAt
    ensures Reach(sys.here.end.sender, p) <= RightEdge(sys.there.end.receiver)
  {
    hide Inv, Store.Valid, RightEdge;
  }

  lemma StepCurrent(sys: System, e: Event)
    requires Stated(sys) && CanStep(sys, e) && Current(sys)
    requires e.atHere && e.action.Deliver? ==> sys.here.heard <= e.action.packet.sentAt
    ensures Ready(sys) && Current(Step(sys, e))
  {
    hide Inv, Store.Valid, RightEdge, Respond, Connection.ReceiveSegment;
    InvReady(sys);
    if !e.atHere {
      ThereStep(sys, e);
    } else if e.action.Deliver? {
      DeliveryBounds(sys, e.action.packet);
      RespondDelivers(sys.here.end, e.action.packet);
    } else {
      OwnActionBounds(sys, e.action);
    }
  }

  lemma {:induction false} InOrderFits(sys: System, events: seq<Event>)
    requires Stated(sys) && Current(sys) && Possible(sys, events) && InOrder(sys, events)
    ensures AllFit(sys, events)
    decreases |events|
  {
    hide Stated, Current, Step, Allowed, Reach, RightEdge;
    if events != [] {
      var e := events[0];
      StepStated(sys, e);
      StepCurrent(sys, e);
      if e.atHere && e.action.Deliver? {
        DeliversSent(sys, e);
        CurrentFits(sys, e.action.packet);
      }
      InOrderFits(Step(sys, e), events[1..]);
    }
  }

  lemma DeliversSent(sys: System, e: Event)
    requires CanStep(sys, e) && e.atHere && e.action.Deliver?
    ensures e.action.packet in sys.there.sent
  {
  }

  /** In every run that keeps feedback in order, with losses and repeats, every packet fits, and so
      what has been sent never passes the receiver's right edge by more than one probed position. */
  lemma NeverOutrunsReceiver(sys: System, events: seq<Event>)
    requires Initial(sys) && Possible(sys, events) && InOrder(sys, events)
    ensures Stated(sys) && AllFit(sys, events)
    ensures var s, r := Run(sys, events).here.end.sender, Run(sys, events).there.end.receiver;
            && r.store.Valid()
            && s.nxt <= RightEdge(r) + 1
            && s.una + s.window <= RightEdge(r)
  {
    hide Initial, Run, Possible, InOrder, RightEdge, Stated, AllFit;
    InitialStated(sys);
    InOrderFits(sys, events);
    FittingNeverOutruns(sys, events);
  }
}
