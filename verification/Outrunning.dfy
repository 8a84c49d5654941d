/** What happens when a sender believes in more room than its receiver offers: its own application can
    make it outrun the receiver, and only then. */
module Outrunning {
  import opened Words
  import opened ByteStreams
  import opened Stores
  import opened TcpMessages
  import opened SenderSpecs
  import opened SenderFacts
  import opened TcpReceivers
  import opened ConnectionSpecs
  import opened TwoParty
  import opened Safety
  import opened Runs
  import opened FlowControl

  /** Events of the sender's endpoint that deliver nothing. */
  predicate Own(events: seq<Event>) {
    forall k :: 0 <= k < |events| ==> events[k].atHere && !events[k].action.Deliver?
  }

  /** Without deliveries the receiver's edge and the sender's own stay where they are, and the sender
      stays within what it believes. */
  lemma {:induction false} OwnRun(sys: System, events: seq<Event>)
    requires Stated(sys) && Possible(sys, events) && Own(events)
    ensures var t := Run(sys, events);
            && t.there == sys.there
            && t.here.end.sender.nxt
               <= Max(sys.here.end.sender.nxt, sys.here.end.sender.una + sys.here.end.sender.Effective())
    decreases |events|
  {
    hide Stated, Step, Allowed;
    if events != [] {
      OwnStep(sys, events[0]);
      OwnRun(Step(sys, events[0]), events[1..]);
    }
  }

  lemma OwnStep(sys: System, e: Event)
    requires Stated(sys) && CanStep(sys, e) && Own([e])
    ensures Ready(sys) && Stated(Step(sys, e))
    ensures var s, t := sys.here.end.sender, Step(sys, e).here.end.sender;
            && Step(sys, e).there == sys.there
            && t.una == s.una && t.window == s.window
            && t.nxt <= Max(s.nxt, s.una + s.Effective())
  {
    assert [e][0] == e;
    StepStated(sys, e);
    hide Inv, FeedbackOrdered, Respond, RightEdge, Store.Valid;
    InvReady(sys);
    OwnActionBounds(sys, e.action);
  }

  /** A stream its application may still write to. */
  predicate Open(s: Sender) {
    !s.outbound.closed && s.outbound.capacity > 0 && s.una + U16_MAX + 2 <= U64_MAX
  }

  /** Either the window is full, or everything written has been sent. */
  predicate CaughtUp(s: Sender) {
    s.InFlight() >= s.Effective() || (s.synSent && s.outbound.Buffered() == 0)
  }

  /** One more byte written and flushed moves SND.NXT on, unless the window is full. */
  lemma WriteAdvances(s: Sender)
    requires s.Valid() && Open(s) && CaughtUp(s) && s.InFlight() < s.Effective() && !s.outbound.error
    ensures s.(outbound := s.outbound.Push([0])).Valid()
    ensures var t := s.(outbound := s.outbound.Push([0])).Push().0;
            CaughtUp(t) && Open(t) && (t.InFlight() >= t.Effective() || t.nxt > s.nxt)
  {
    OutboundValid(s);
    WriteKeepsValid(s, [0]);
    PushAppends(s.outbound, [0]);
    PushOnly(s.outbound, [0]);
    CountOpen(s);
    var u := s.(outbound := s.outbound.Push([0]));
    PushExhausts(u);
    PushValid(u);
    PushKeepsRest(u);
    if u.Push().0.InFlight() < u.Effective() {
      CountOpen(u.Push().0);
    }
  }

  lemma CountOpen(s: Sender)
    requires s.Valid() && !s.outbound.closed && s.synSent && s.outbound.Buffered() == 0
    ensures s.nxt == |s.outbound.written| + 1
  {
    hide Tiles, Flatten;
  }

  const ONE_BYTE: Action := Write([0])

  lemma WriteStep(sys: System)
    requires Stated(sys) && Open(sys.here.end.sender) && CaughtUp(sys.here.end.sender)
    requires sys.here.end.sender.InFlight() < sys.here.end.sender.Effective()
    ensures CanStep(sys, Event(true, ONE_BYTE)) && Ready(sys)
    ensures var s, t := sys.here.end.sender, Step(sys, Event(true, ONE_BYTE)).here.end.sender;
            CaughtUp(t) && Open(t) && (t.InFlight() >= t.Effective() || t.nxt > s.nxt)
  {
    InvParts(sys);
    var c, s := sys.here.end, sys.here.end.sender;
    hide Inv, FeedbackOrdered, RightEdge, Store.Valid, Sender.Valid, Stream.Push, Link, Sender.Push, Open, CaughtUp;
    WriteAdvances(s);
    RoomToWrite(s);
    FlushValid(c.(sender := s.(outbound := s.outbound.Push([0]))));
  }

  lemma RoomToWrite(s: Sender)
    requires s.Valid() && Open(s) && CaughtUp(s) && s.InFlight() < s.Effective()
    ensures |s.outbound.written| + 3 <= U64_MAX
  {
    hide Flatten, Tiles;
    CountOpen(s);
  }

  /** Writing byte after byte fills the window the sender believes in. */
  lemma {:induction false} WritesFill(sys: System) returns (events: seq<Event>)
    requires Stated(sys) && Open(sys.here.end.sender) && CaughtUp(sys.here.end.sender)
    ensures Own(events) && Possible(sys, events)
    ensures Run(sys, events).here.end.sender.nxt >= sys.here.end.sender.una + sys.here.end.sender.Effective()
    decreases sys.here.end.sender.una + sys.here.end.sender.Effective() - sys.here.end.sender.nxt
  {
    hide Stated, Step, CanStep, Open, CaughtUp, RightEdge;
    StatedReady(sys);
    var s, e := sys.here.end.sender, Event(true, ONE_BYTE);
    if s.InFlight() >= s.Effective() {
      events := [];
    } else {
      WriteStep(sys);
      OwnStep(sys, e);
      var rest := WritesFill(Step(sys, e));
      events := [e] + rest;
      assert events[1..] == rest;
    }
  }

  lemma StatedReady(sys: System)
    requires Stated(sys)
    ensures Inv(sys) && Ready(sys) && sys.there.end.receiver.store.Valid()
  {
    hide Inv, RightEdge;
    InvReady(sys);
  }

  /** Flushing first, an endpoint is caught up. */
  lemma FillWindow(sys: System) returns (events: seq<Event>)
    requires Stated(sys) && Open(sys.here.end.sender)
    ensures Own(events) && Possible(sys, events)
    ensures Run(sys, events).here.end.sender.nxt >= sys.here.end.sender.una + sys.here.end.sender.Effective()
  {
    hide Stated, Open, CaughtUp, RightEdge;
    StatedReady(sys);
    var e := Event(true, Connect);
    FlushCatchesUp(sys);
    OwnStep(sys, e);
    var rest := WritesFill(Step(sys, e));
    events := [e] + rest;
    assert events[1..] == rest;
  }

  lemma FlushCatchesUp(sys: System)
    requires Inv(sys) && Ready(sys) && Open(sys.here.end.sender)
    ensures CaughtUp(Step(sys, Event(true, Connect)).here.end.sender)
    ensures Open(Step(sys, Event(true, Connect)).here.end.sender)
  {
    var s := sys.here.end.sender;
    hide Inv, Receiver.Valid, Sender.Push, Sender.Counted, Tiles, Flatten, Sender.IntervalsCoherent, Sender.TimerCoherent;
    PushExhausts(s);
    PushKeepsRest(s);
    PushValid(s);
    FlushValid(sys.here.end);
  }

  /** Whether the sender's own application can make it pass the receiver's edge by more than a probe. */
  ghost predicate CanOutrun(sys: System)
    requires sys.there.end.receiver.store.Valid()
  {
    exists events: seq<Event> :: Own(events) && Outruns(sys, events)
  }

  ghost predicate Outruns(sys: System, events: seq<Event>)
    requires sys.there.end.receiver.store.Valid()
  {
    Possible(sys, events) && Run(sys, events).here.end.sender.nxt > RightEdge(sys.there.end.receiver) + 1
  }

  /** The application of a sender with an open stream can make it outrun its receiver if and only if
      it has done so already, or the window it believes in reaches beyond the probed position. */
  lemma OutrunsExactly(sys: System)
    requires Stated(sys) && Open(sys.here.end.sender)
    ensures sys.there.end.receiver.store.Valid()
    ensures CanOutrun(sys)
       <==> !Bounded(sys)
            || sys.here.end.sender.una + sys.here.end.sender.window > RightEdge(sys.there.end.receiver) + 1
  {
    hide Stated, Open, RightEdge, Possible, Run;
    StatedReady(sys);
    LeftEdgeOffered(sys);
    var events := FillWindow(sys);
    if !Bounded(sys) {
      NothingDone(sys);
      assert Outruns(sys, []);
    } else if sys.here.end.sender.una + sys.here.end.sender.window > RightEdge(sys.there.end.receiver) + 1 {
      assert Outruns(sys, events);
    } else if CanOutrun(sys) {
      var own: seq<Event> :| Own(own) && Outruns(sys, own);
      OwnRun(sys, own);
      assert false;
    }
  }

  lemma NothingDone(sys: System)
    ensures Possible(sys, []) && Run(sys, []) == sys
  {
  }

  lemma DeliveryKeepsOpen(sys: System, p: Packet)
    requires Stated(sys) && Allowed(sys, Deliver(p)) && Open(sys.here.end.sender)
    requires Reach(sys.here.end.sender, p) + U16_MAX + 2 <= U64_MAX
    ensures Ready(sys) && Open(Act(sys, Deliver(p)).here.end.sender)
  {
    InvParts(sys);
    InvIsJoined(sys);
    DeliveryBounds(sys, p);
    var c, sent, y := sys.here.end, sys.here.sent, sys.there;
    hide Inv, Joined, Sender.Valid, Receiver.Valid, Store.Valid, RightEdge, Stream.Valid, Connection.Absorb,
         Link, Received, Connection.Flush, Sender.Receive;
    JoinedAbsorb(c, sent, y, p);
    AbsorbedSender(c, p.segment);
    JoinedValid(c.Absorb(p.segment), sent, y);
    NoReset(y.end.sender, p);
    ReceiveKeepsOutbound(c.sender, p.segment.ToReceiverMessage());
    OutboundValid(c.Absorb(p.segment).sender);
    PushKeepsRest(c.Absorb(p.segment).sender);
    FlushValid(c.Absorb(p.segment));
    RespondDelivers(c, p);
  }

  lemma ReceiveKeepsOutbound(s: Sender, m: ReceiverMessage)
    requires !m.rst
    ensures s.Receive(m).outbound == s.outbound
  {
    hide Discard;
  }

  /** After any delivery, stale or not, the application can make the sender outrun its receiver if and
      only if the window in the packet reaches beyond the probed position, counted from the left edge
      the sender then has. */
  lemma DeliveryOutrunsExactly(sys: System, p: Packet)
    requires Stated(sys) && Bounded(sys) && Allowed(sys, Deliver(p))
    requires Open(sys.here.end.sender) && Reach(sys.here.end.sender, p) + U16_MAX + 2 <= U64_MAX
    ensures Ready(sys) && Act(sys, Deliver(p)).there.end.receiver.store.Valid()
    ensures CanOutrun(Act(sys, Deliver(p)))
       <==> Reach(sys.here.end.sender, p) > RightEdge(sys.there.end.receiver) + 1
  {
    StatedReady(sys);
    var e := Event(true, Deliver(p));
    var t := Step(sys, e);
    LeftEdgeOffered(sys);
    DeliveryKeepsOpen(sys, p);
    DeliveryBounds(sys, p);
    RespondDelivers(sys.here.end, p);
    StepStated(sys, e);
    LeftEdgeOffered(t);
    hide Stated, Open, RightEdge, CanOutrun, Connection.ReceiveSegment;
    OutrunsExactly(t);
  }
}
