/** Theorems about every run of the two-party system, from two fresh endpoints on. */
module Runs {
  import opened Words
  import opened ByteStreams
  import opened Stores
  import opened TcpMessages
  import opened SenderSpecs
  import opened SenderFacts
  import opened TcpReceivers
  import opened ConnectionSpecs
  import opened TwoParty
  import opened LinkFacts
  import opened Safety

  /** A sequence of events each of which is allowed when its turn comes. */
  ghost predicate Possible(sys: System, events: seq<Event>)
    decreases |events|
  {
    events == [] || (Ready(sys) && CanStep(sys, events[0]) && Possible(Step(sys, events[0]), events[1..]))
  }

  function Run(sys: System, events: seq<Event>): (after: System)
    requires Possible(sys, events)
    decreases |events|
  {
    if events == [] then sys else Run(Step(sys, events[0]), events[1..])
  }

  lemma NewEndsLink(s: Sender, r: Receiver)
    requires s == NewSender(s.outbound.capacity, s.isn, s.config)
    requires r == EmptyReceiver(r.store.capacity)
    ensures Link(s, {}, r, {})
  {
  }

  lemma InitialInv(sys: System)
    requires Initial(sys)
    ensures Inv(sys)
  {
    hide Sender.Valid, Link;
    var x, y := sys.here.end, sys.there.end;
    NewSenderValid(x.sender.outbound.capacity, x.sender.isn, x.sender.config);
    NewSenderValid(y.sender.outbound.capacity, y.sender.isn, y.sender.config);
    NewEndsLink(x.sender, y.receiver);
    NewEndsLink(y.sender, x.receiver);
  }

  lemma InvSymmetric(sys: System)
    ensures Inv(sys) <==> Inv(Swap(sys))
  {
    hide Paired, Connection.Valid;
  }

  lemma StepKeepsInv(sys: System, e: Event)
    requires Inv(sys) && CanStep(sys, e)
    ensures Inv(Step(sys, e))
  {
    hide Inv, Act, Allowed;
    InvReady(sys);
    InvSymmetric(sys);
    if e.atHere {
      ActKeepsInv(sys, e.action);
    } else {
      ActKeepsInv(Swap(sys), e.action);
      InvSymmetric(Act(Swap(sys), e.action));
    }
  }

  lemma InvReady(sys: System)
    requires Inv(sys)
    ensures Ready(sys)
  {
    hide Paired, Connection.Valid;
  }

  /** The invariant holds after every run. */
  lemma {:induction false} RunKeepsInv(sys: System, events: seq<Event>)
    requires Inv(sys) && Possible(sys, events)
    ensures Inv(Run(sys, events))
    decreases |events|
  {
    hide Inv, Step, CanStep;
    if events != [] {
      StepKeepsInv(sys, events[0]);
      RunKeepsInv(Step(sys, events[0]), events[1..]);
    }
  }

  /** What the receiver of one direction has handed to its reader is a prefix of what was written. */
  lemma PrefixDelivered(sys: System)
    requires Inv(sys)
    ensures sys.there.end.receiver.store.assembled <= sys.here.end.sender.outbound.written
    ensures !sys.there.end.receiver.store.error && !sys.here.end.sender.outbound.error
    ensures forall p :: p in sys.here.sent ==> !p.segment.header.rst
  {
    hide Connection.Valid, Transmitted, FeedbackHonest, Addressed;
    var s, r := sys.here.end.sender, sys.there.end.receiver;
    assert Received(s, r);
    assert r.store.assembled <= Segmented(s) <= s.outbound.written;
  }

  /** End-to-end safety: in every run, in both directions, what has been received is a prefix of
      what was written; neither endpoint is ever in error and nobody ever sends a reset. */
  lemma EndToEndSafety(sys: System, events: seq<Event>)
    requires Initial(sys) && Possible(sys, events)
    ensures var t := Run(sys, events);
            && t.there.end.receiver.store.assembled <= t.here.end.sender.outbound.written
            && t.here.end.receiver.store.assembled <= t.there.end.sender.outbound.written
            && !t.here.end.receiver.store.error && !t.there.end.receiver.store.error
            && forall p :: p in t.here.sent + t.there.sent ==> !p.segment.header.rst
  {
    hide Inv, Initial, Run, Possible;
    InitialInv(sys);
    RunKeepsInv(sys, events);
    var t := Run(sys, events);
    InvSymmetric(t);
    PrefixDelivered(t);
    PrefixDelivered(Swap(t));
  }

  /** No timely segment of an honest peer is ever rejected by the reassembler. */
  lemma HonestNeverRejected(sys: System, events: seq<Event>, p: Packet)
    requires Initial(sys) && Possible(sys, events)
    requires Allowed(Run(sys, events), Deliver(p))
    ensures var m := p.segment.ToSenderMessage();
            m.SequenceLength() > 0 ==> Run(sys, events).here.end.receiver.Judge(m).Accepted?
  {
    hide Inv, Initial, Run, Possible, Receiver.Judge, Joined;
    InitialInv(sys);
    RunKeepsInv(sys, events);
    var t := Run(sys, events);
    InvIsJoined(t);
    JoinedAbsorb(t.here.end, t.here.sent, t.there, p);
  }

  /** The receiver acknowledges no less than the sender believes and no more than was sent, and
      every position sent is either assembled at the receiver or still outstanding at the sender. */
  lemma NothingLost(sys: System, events: seq<Event>, position: nat)
    requires Initial(sys) && Possible(sys, events)
    ensures var s, r := Run(sys, events).here.end.sender, Run(sys, events).there.end.receiver;
            && s.una <= r.Acknowledged() <= s.nxt
            && (position < s.nxt ==>
                  || position < r.Acknowledged()
                  || exists k :: 0 <= k < |s.outstanding| && Holds(s, k, position))
  {
    hide Inv, Initial, Run, Possible, Holds, Sender.Valid, Receiver.Valid, Link;
    InitialInv(sys);
    RunKeepsInv(sys, events);
    var t := Run(sys, events);
    var s, r := t.here.end.sender, t.there.end.receiver;
    InvParts(t);
    AckWithinSent(s, r);
    LinkBounds(s, t.here.sent, r, t.there.sent);
    if r.Acknowledged() <= position < s.nxt {
      var k := OutstandingAt(s, position);
    }
  }

  /** An outstanding segment that contains a position, and has there what the stream has. */
  ghost predicate Holds(s: Sender, k: nat, position: nat)
    requires k < |s.outstanding|
  {
    var o := s.outstanding[k];
    && o.start <= position < o.End() && position < |s.outbound.written| + 2
    && Marks(o.message)[position - o.start] == Space(s.outbound.written)[position]
  }

  lemma OutstandingAt(s: Sender, position: nat) returns (k: nat)
    requires s.Valid() && s.una <= position < s.nxt
    ensures k < |s.outstanding| && Holds(s, k, position)
  {
    k := TilesCover(s.outstanding, s.una, s.nxt, s.isn, s.outbound.written, position);
  }

  lemma InvParts(sys: System)
    requires Inv(sys)
    ensures sys.here.end.Valid() && sys.there.end.Valid()
    ensures Link(sys.here.end.sender, sys.here.sent, sys.there.end.receiver, sys.there.sent)
    ensures Received(sys.here.end.sender, sys.there.end.receiver)
  {
    hide Sender.Valid, Receiver.Valid, DataHonest, FeedbackHonest, Addressed;
  }

  /** When a sender reports that it has finished, the peer has received the whole stream: its
      receive side is closed and holds exactly what was written before closing. */
  lemma FinishedMeansDelivered(sys: System, events: seq<Event>)
    requires Initial(sys) && Possible(sys, events)
    requires Run(sys, events).here.end.sender.Finished()
    ensures var s, r := Run(sys, events).here.end.sender, Run(sys, events).there.end.receiver;
            s.outbound.closed && r.store.closed && r.store.assembled == s.outbound.written
  {
    hide Inv, Initial, Run, Possible, Sender.Valid, Receiver.Valid, Link;
    InitialInv(sys);
    RunKeepsInv(sys, events);
    var t := Run(sys, events);
    InvParts(t);
    WholeStreamReceived(t.here.end.sender, t.there.end.receiver);
  }

  lemma WholeStreamReceived(s: Sender, r: Receiver)
    requires s.Valid() && r.Valid() && Received(s, r) && s.Finished()
    ensures s.outbound.closed && r.store.closed && r.store.assembled == s.outbound.written
  {
    hide Flatten, Sender.TimerCoherent, Sender.IntervalsCoherent;
    FinMeansClosed(s);
    assert s.una == s.nxt == |s.outbound.written| + 2;
    assert r.store.assembled <= Segmented(s);
  }

  /** If one endpoint is established, each receiver counts from exactly the other sender's initial
      sequence number (section 3.5 of RFC 9293). */
  lemma EstablishedAgree(sys: System, events: seq<Event>)
    requires Initial(sys) && Possible(sys, events)
    requires Run(sys, events).here.end.Established()
    ensures var t := Run(sys, events);
            && t.there.end.receiver.isn == Some(t.here.end.sender.isn)
            && t.here.end.receiver.isn == Some(t.there.end.sender.isn)
  {
    hide Inv, Initial, Run, Possible, Sender.Valid, Receiver.Valid, Link, Store.Agrees;
    InitialInv(sys);
    RunKeepsInv(sys, events);
    var t := Run(sys, events);
    InvSymmetric(t);
    InvParts(t);
    InvParts(Swap(t));
  }

  /** One event only adds to what an endpoint has received, and never changes the initial sequence
      number it recorded. */
  lemma StepMonotone(sys: System, e: Event)
    requires Inv(sys) && CanStep(sys, e)
    ensures var x, y := sys.here.end, Step(sys, e).here.end;
            && x.receiver.store.assembled <= y.receiver.store.assembled
            && (x.receiver.isn.Some? ==> y.receiver.isn == x.receiver.isn)
  {
    hide Inv, Joined, Connection.Absorb, Connection.Flush, Connection.Write, Connection.Close;
    InvReady(sys);
    InvIsJoined(sys);
    var c := sys.here.end;
    if e.atHere {
      match e.action
      case Deliver(p) =>
        JoinedAbsorb(c, sys.here.sent, sys.there, p);
        AbsorbValid(c, p.segment);
        FlushValid(c.Absorb(p.segment));
      case Connect => FlushValid(c);
      case Write(data) => WriteValid(c, data);
      case Close => CloseValid(c);
      case _ =>
    }
  }

  /** Over a whole run, what has been received stays received, and a recorded initial sequence
      number never changes. */
  lemma {:induction false} RunMonotone(sys: System, events: seq<Event>)
    requires Inv(sys) && Possible(sys, events)
    ensures var x, y := sys.here.end, Run(sys, events).here.end;
            && x.receiver.store.assembled <= y.receiver.store.assembled
            && (x.receiver.isn.Some? ==> y.receiver.isn == x.receiver.isn)
    decreases |events|
  {
    hide Inv, Step, CanStep;
    if events != [] {
      StepKeepsInv(sys, events[0]);
      StepMonotone(sys, events[0]);
      RunMonotone(Step(sys, events[0]), events[1..]);
    }
  }

  /** Over every run an endpoint is established exactly once SND.UNA has passed its SYN and it has
      recorded the SYN of its peer. */
  lemma EstablishedExactly(sys: System, events: seq<Event>)
    requires Initial(sys) && Possible(sys, events)
    ensures var t := Run(sys, events);
            t.here.end.Established()
            <==> t.here.end.sender.una >= 1 && t.here.end.receiver.isn == Some(t.there.end.sender.isn)
  {
    hide Inv, Initial, Run, Possible, Sender.Valid, Receiver.Valid, Link, Store.Agrees;
    InitialInv(sys);
    RunKeepsInv(sys, events);
    var t := Run(sys, events);
    InvSymmetric(t);
    InvParts(t);
    InvParts(Swap(t));
    if t.here.end.sender.una >= 1 {
      SynPassed(t.here.end.sender);
    }
  }

  lemma SynPassed(s: Sender)
    requires s.Valid() && s.una >= 1
    ensures s.synSent
  {
    hide Tiles, Flatten;
  }
}
