/** A run in which one stale acknowledgement makes a sender outrun its receiver. */
module StaleFeedback {
  import opened Words
  import opened Wrap32
  import opened ByteStreams
  import opened Stores
  import opened TcpMessages
  import opened TcpSegments
  import opened SenderSpecs
  import opened TcpReceivers
  import opened ConnectionSpecs
  import opened TwoParty
  import opened Runs
  import opened FlowControl

  const CONFIG: Config := Config(1, 1, 4)
  const DATA: seq<byte> := [1, 2, 3, 4]

  function Piece(seqno: u32, payload: seq<byte>): (m: SenderMessage) {
    SenderMessage(seqno, false, payload, false, false)
  }

  const SYN: SenderMessage := SenderMessage(0, true, [], false, false)

  /** The writing sender with all of its data written and `chunks` of it left. */
  function Writer(popped: nat, chunks: seq<seq<byte>>, una: nat, nxt: nat, window: u16, queue: seq<Outstanding>,
                  mode: TimerMode): (s: Sender)
  {
    Sender(Stream(4, DATA, chunks, popped, false, false), 0, una, nxt, window, queue, true, false, CONFIG,
           1, 1, Started(1, mode), 0)
  }

  const AFTER_WRITE: Sender := Writer(0, [DATA], 0, 1, 1, [Outstanding(0, SYN)], Retransmission)
  const AFTER_SYN: Sender := Writer(2, [[3, 4]], 1, 3, 2, [Outstanding(1, Piece(1, [1, 2]))], Retransmission)
  const AFTER_FULL: Sender := Writer(3, [[4]], 3, 4, 0, [Outstanding(3, Piece(3, [3]))], Persist)
  const AFTER_STALE: Sender :=
    Writer(4, [], 3, 5, 2, [Outstanding(3, Piece(3, [3])), Outstanding(4, Piece(4, [4]))], Retransmission)

  /** A flush that sends one segment. */
  lemma PushOnce(s: Sender, m: SenderMessage, t: Sender)
    requires s.outbound.Valid() && s.InFlight() < s.Effective()
    requires m == s.NextMessage() && m.SequenceLength() > 0 && t == s.Transmit()
    requires t.outbound.Valid()
    requires t.InFlight() < t.Effective() ==> t.NextMessage().SequenceLength() == 0
    ensures s.Push() == (t, [m])
  {
    hide Sender.NextMessage, Sender.Transmit;
    assert t.Push() == (t, []);
    assert [m] + [] == [m];
  }

  lemma PushNothing(s: Sender)
    requires s.outbound.Valid() && (s.InFlight() < s.Effective() ==> s.NextMessage().SequenceLength() == 0)
    ensures s.Push() == (s, [])
  {
    hide Sender.NextMessage, Sender.Transmit;
  }

  lemma WriteSends()
    ensures var s := NewSender(4, 0, CONFIG);
            var t := s.(outbound := s.outbound.Push(DATA));
            t.outbound.Valid() && t.Push() == (AFTER_WRITE, [SYN])
  {
    var s := NewSender(4, 0, CONFIG);
    PushAppends(s.outbound, DATA);
    var t := s.(outbound := s.outbound.Push(DATA));
    assert DATA[..4] == DATA;
    PushOnce(t, SYN, AFTER_WRITE);
  }

  /** The sender that only answers: its SYN is all it ever sends. */
  const ANSWERING: Sender :=
    Sender(Empty(0), 0, 0, 1, 2, [Outstanding(0, SYN)], true, false, CONFIG, 1, 1, Started(1, Retransmission), 0)
  const ANSWERED: Sender :=
    Sender(Empty(0), 0, 1, 1, 2, [], true, false, CONFIG, 1, 1, STOPPED, 0)

  lemma DiscardOne(o: Outstanding, una: nat)
    requires o.End() <= una
    ensures Discard([o], una, 0) == []
  {
    assert [o][1..] == [];
  }

  lemma SynReceived()
    ensures NewSender(0, 0, CONFIG).Receive(ReceiverMessage(None, 2, false)).outbound.Valid()
    ensures NewSender(0, 0, CONFIG).Receive(ReceiverMessage(None, 2, false)).Push() == (ANSWERING, [SYN])
  {
    var s := NewSender(0, 0, CONFIG).Receive(ReceiverMessage(None, 2, false));
    PushOnce(s, SYN, ANSWERING);
  }

  lemma SynAcknowledged()
    ensures AFTER_WRITE.Receive(ReceiverMessage(Some(1), 2, false)).outbound.Valid()
    ensures AFTER_WRITE.Receive(ReceiverMessage(Some(1), 2, false)).Push() == (AFTER_SYN, [Piece(1, [1, 2])])
  {
    assert Unwrap(1, 0, 1) == 1;
    var s := AFTER_WRITE.Receive(ReceiverMessage(Some(1), 2, false));
    DiscardOne(Outstanding(0, SYN), 1);
    assert DATA[0..] == DATA && [DATA][1..] == [] && DATA + [] == DATA;
    assert s.outbound.Valid();
    assert AFTER_SYN.outbound.Valid() by { assert [[3, 4]][1..] == []; }
    assert DATA[..2] == [1, 2] && DATA[2..] == [3, 4];
    assert s.NextMessage() == Piece(1, [1, 2]);
    assert s.outbound.Pop(2) == AFTER_SYN.outbound;
    PushOnce(s, Piece(1, [1, 2]), AFTER_SYN);
  }

  lemma DataAcknowledged()
    ensures ANSWERING.Receive(ReceiverMessage(Some(1), 2, false)) == ANSWERED
    ensures ANSWERED.outbound.Valid() && ANSWERED.Push() == (ANSWERED, [])
  {
    assert Unwrap(1, 0, 1) == 1;
    DiscardOne(Outstanding(0, SYN), 1);
    PushNothing(ANSWERED);
  }

  lemma WindowFilled()
    ensures AFTER_SYN.Receive(ReceiverMessage(Some(3), 0, false)).outbound.Valid()
    ensures AFTER_SYN.Receive(ReceiverMessage(Some(3), 0, false)).Push() == (AFTER_FULL, [Piece(3, [3])])
  {
    assert Unwrap(3, 0, 3) == 3;
    var s := AFTER_SYN.Receive(ReceiverMessage(Some(3), 0, false));
    DiscardOne(Outstanding(1, Piece(1, [1, 2])), 3);
    PushOnce(s, Piece(3, [3]), AFTER_FULL);
  }

  lemma StaleBelieved()
    ensures AFTER_FULL.Receive(ReceiverMessage(Some(1), 2, false)).outbound.Valid()
    ensures AFTER_FULL.Receive(ReceiverMessage(Some(1), 2, false)).Push() == (AFTER_STALE, [Piece(4, [4])])
  {
    assert Unwrap(1, 0, 4) == 1;
    var s := AFTER_FULL.Receive(ReceiverMessage(Some(1), 2, false));
    PushOnce(s, Piece(4, [4]), AFTER_STALE);
  }

  const NOTHING_HEARD: Receiver := EmptyReceiver(2)
  const SYN_HEARD: Receiver := Receiver(EmptyStore(2), Some(0))
  const FULL: Receiver := Receiver(Store(2, [1, 2], 0, map[], None, false, false), Some(0))

  lemma ReceiversHear()
    ensures NOTHING_HEARD.Receive(SYN) == SYN_HEARD && NOTHING_HEARD.Judge(SYN).Accepted?
    ensures SYN_HEARD.Receive(SYN) == SYN_HEARD && SYN_HEARD.Judge(SYN).Accepted?
  {
    hide Settle;
    assert Unwrap(0, 0, 1) == 0;
  }

  lemma ReceiverFills()
    ensures SYN_HEARD.Receive(Piece(1, [1, 2])) == FULL && SYN_HEARD.Judge(Piece(1, [1, 2])).Accepted?
  {
    hide Settle;
    assert Unwrap(1, 0, 1) == 1;
    SettleUnique([1, 2], map[], [1, 2]);
    assert [] + [1, 2] == [1, 2] && [1, 2][0..2] == [1, 2];
    assert From(map[], 2) == map[];
  }

  lemma ReceiversSay()
    ensures NOTHING_HEARD.store.Valid() && NOTHING_HEARD.Send() == ReceiverMessage(None, 2, false)
    ensures SYN_HEARD.store.Valid() && SYN_HEARD.Send() == ReceiverMessage(Some(1), 2, false)
    ensures FULL.store.Valid() && FULL.Send() == ReceiverMessage(Some(3), 0, false)
  {
  }

  function Seg(fromWriter: bool, m: SenderMessage, feedback: ReceiverMessage): (segment: TcpSegment) {
    if fromWriter then FromMessages(1, 2, m, Some(feedback)) else FromMessages(2, 1, m, Some(feedback))
  }

  const SAYS_NOTHING: ReceiverMessage := ReceiverMessage(None, 2, false)
  const SAYS_ONE: ReceiverMessage := ReceiverMessage(Some(1), 2, false)
  const SAYS_FULL: ReceiverMessage := ReceiverMessage(Some(3), 0, false)

  function Writing(s: Sender, r: Receiver): (c: Connection) {
    Connection(1, 2, s, r)
  }

  function Reading(s: Sender, r: Receiver): (c: Connection) {
    Connection(2, 1, s, r)
  }

  lemma WriteResponds(c: Connection)
    requires c == Writing(NewSender(4, 0, CONFIG), NOTHING_HEARD) && c.Valid()
    ensures Respond(c, Write(DATA)) == (Writing(AFTER_WRITE, NOTHING_HEARD), [Seg(true, SYN, SAYS_NOTHING)])
  {
    hide Sender.Valid, Store.Valid, Sender.Push;
    WriteSends();
    ReceiversSay();
    WriteValid(c, DATA);
    assert c.Write(DATA).0 == Writing(AFTER_WRITE, NOTHING_HEARD);
    assert c.Write(DATA).1 == c.Write(DATA).0.WrapAll([SYN]) == [c.Write(DATA).0.Wrapped(SYN)];
  }

  /** A delivery, when it is known what the sender makes of the feedback and the receiver of the rest. */
  lemma Responds(c: Connection, segment: TcpSegment, s: Sender, ms: seq<SenderMessage>, r: Receiver)
    requires c.Valid()
    requires segment.header.srcPort == c.peerPort && segment.header.dstPort == c.localPort
    requires c.sender.Receive(segment.ToReceiverMessage()).outbound.Valid()
    requires c.sender.Receive(segment.ToReceiverMessage()).Push() == (s, ms)
    requires var m := segment.ToSenderMessage();
             !m.rst && (if m.SequenceLength() > 0 then c.receiver.Judge(m).Accepted? && r == c.receiver.Receive(m)
                        else r == c.receiver)
    ensures var after := c.(sender := s, receiver := r);
            && after.Valid()
            && c.ReceiveSegment(segment).0 == after
            && c.ReceiveSegment(segment).1
               == (if ms == [] && segment.ToSenderMessage().SequenceLength() > 0 then after.PureAck() else after.WrapAll(ms))
            && (|ms| == 1 ==> after.WrapAll(ms) == [after.Wrapped(ms[0])])
  {
    hide Sender.Valid, Receiver.Valid, Sender.Push, Sender.Receive, Receiver.Receive, Receiver.Judge;
    AbsorbValid(c, segment);
    FlushValid(c.Absorb(segment));
    assert c.Absorb(segment) == c.(sender := c.sender.Receive(segment.ToReceiverMessage()), receiver := r);
  }

  lemma SynResponds(c: Connection)
    requires c == Reading(NewSender(0, 0, CONFIG), NOTHING_HEARD) && c.Valid()
    ensures c.ReceiveSegment(Seg(true, SYN, SAYS_NOTHING))
         == (Reading(ANSWERING, SYN_HEARD), [Seg(false, SYN, SAYS_ONE)])
  {
    hide Sender.Valid, Store.Valid, Sender.Push, Sender.Receive, Receiver.Receive, Receiver.Judge,
         Connection.ReceiveSegment;
    SynReceived();
    ReceiversHear();
    ReceiversSay();
    Responds(c, Seg(true, SYN, SAYS_NOTHING), ANSWERING, [SYN], SYN_HEARD);
  }

  lemma SynAckResponds(c: Connection)
    requires c == Writing(AFTER_WRITE, NOTHING_HEARD) && c.Valid()
    ensures c.ReceiveSegment(Seg(false, SYN, SAYS_ONE))
         == (Writing(AFTER_SYN, SYN_HEARD), [Seg(true, Piece(1, [1, 2]), SAYS_ONE)])
  {
    hide Sender.Valid, Store.Valid, Sender.Push, Sender.Receive, Receiver.Receive, Receiver.Judge,
         Connection.ReceiveSegment;
    SynAcknowledged();
    ReceiversHear();
    ReceiversSay();
    Responds(c, Seg(false, SYN, SAYS_ONE), AFTER_SYN, [Piece(1, [1, 2])], SYN_HEARD);
  }

  lemma DataResponds(c: Connection)
    requires c == Reading(ANSWERING, SYN_HEARD) && c.Valid()
    ensures c.ReceiveSegment(Seg(true, Piece(1, [1, 2]), SAYS_ONE))
         == (Reading(ANSWERED, FULL), [Seg(false, Piece(1, []), SAYS_FULL)])
  {
    hide Sender.Valid, Store.Valid, Sender.Push, Sender.Receive, Receiver.Receive, Receiver.Judge,
         Connection.ReceiveSegment;
    DataAcknowledged();
    ReceiverFills();
    ReceiversSay();
    Responds(c, Seg(true, Piece(1, [1, 2]), SAYS_ONE), ANSWERED, [], FULL);
  }

  lemma FullResponds(c: Connection)
    requires c == Writing(AFTER_SYN, SYN_HEARD) && c.Valid()
    ensures c.ReceiveSegment(Seg(false, Piece(1, []), SAYS_FULL))
         == (Writing(AFTER_FULL, SYN_HEARD), [Seg(true, Piece(3, [3]), SAYS_ONE)])
  {
    hide Sender.Valid, Store.Valid, Sender.Push, Sender.Receive, Receiver.Receive, Receiver.Judge,
         Connection.ReceiveSegment;
    WindowFilled();
    ReceiversSay();
    Responds(c, Seg(false, Piece(1, []), SAYS_FULL), AFTER_FULL, [Piece(3, [3])], SYN_HEARD);
  }

  lemma StaleResponds(c: Connection)
    requires c == Writing(AFTER_FULL, SYN_HEARD) && c.Valid()
    ensures c.ReceiveSegment(Seg(false, SYN, SAYS_ONE))
         == (Writing(AFTER_STALE, SYN_HEARD), [Seg(true, Piece(4, [4]), SAYS_ONE)])
  {
    hide Sender.Valid, Store.Valid, Sender.Push, Sender.Receive, Receiver.Receive, Receiver.Judge,
         Connection.ReceiveSegment;
    StaleBelieved();
    ReceiversHear();
    ReceiversSay();
    Responds(c, Seg(false, SYN, SAYS_ONE), AFTER_STALE, [Piece(4, [4])], SYN_HEARD);
  }

  const SYN_PACKET: Packet := Packet(Seg(true, SYN, SAYS_NOTHING), 0, 0, 0)
  const SYN_ACK_PACKET: Packet := Packet(Seg(false, SYN, SAYS_ONE), 0, 1, 1)
  const DATA_PACKET: Packet := Packet(Seg(true, Piece(1, [1, 2]), SAYS_ONE), 1, 1, 2)
  const FULL_PACKET: Packet := Packet(Seg(false, Piece(1, []), SAYS_FULL), 1, 3, 3)
  const PROBE_PACKET: Packet := Packet(Seg(true, Piece(3, [3]), SAYS_ONE), 3, 1, 4)
  const EXTRA_PACKET: Packet := Packet(Seg(true, Piece(4, [4]), SAYS_ONE), 3, 1, 5)

  /** The system after each event of the run. */
  function State(k: nat): (sys: System) {
    if k == 0 then
      System(Half(Writing(NewSender(4, 0, CONFIG), NOTHING_HEARD), {}, 0),
             Half(Reading(NewSender(0, 0, CONFIG), NOTHING_HEARD), {}, 0), 0)
    else if k == 1 then
      System(Half(Writing(AFTER_WRITE, NOTHING_HEARD), {SYN_PACKET}, 0),
             Half(Reading(NewSender(0, 0, CONFIG), NOTHING_HEARD), {}, 0), 1)
    else if k == 2 then
      System(Half(Writing(AFTER_WRITE, NOTHING_HEARD), {SYN_PACKET}, 0),
             Half(Reading(ANSWERING, SYN_HEARD), {SYN_ACK_PACKET}, 0), 2)
    else if k == 3 then
      System(Half(Writing(AFTER_SYN, SYN_HEARD), {SYN_PACKET, DATA_PACKET}, 1),
             Half(Reading(ANSWERING, SYN_HEARD), {SYN_ACK_PACKET}, 0), 3)
    else if k == 4 then
      System(Half(Writing(AFTER_SYN, SYN_HEARD), {SYN_PACKET, DATA_PACKET}, 1),
             Half(Reading(ANSWERED, FULL), {SYN_ACK_PACKET, FULL_PACKET}, 2), 4)
    else if k == 5 then
      System(Half(Writing(AFTER_FULL, SYN_HEARD), {SYN_PACKET, DATA_PACKET, PROBE_PACKET}, 3),
             Half(Reading(ANSWERED, FULL), {SYN_ACK_PACKET, FULL_PACKET}, 2), 5)
    else
      System(Half(Writing(AFTER_STALE, SYN_HEARD), {SYN_PACKET, DATA_PACKET, PROBE_PACKET, EXTRA_PACKET}, 1),
             Half(Reading(ANSWERED, FULL), {SYN_ACK_PACKET, FULL_PACKET}, 2), 6)
  }

  /** Four bytes are written; SYN, its answer, the first two bytes and the answer that the receiver is
      full arrive in turn; and then the answer to SYN arrives once more. */
  const STORY: seq<Event> := [
    Event(true, Write(DATA)), Event(false, Deliver(SYN_PACKET)), Event(true, Deliver(SYN_ACK_PACKET)),
    Event(false, Deliver(DATA_PACKET)), Event(true, Deliver(FULL_PACKET)), Event(true, Deliver(SYN_ACK_PACKET))]

  lemma StampOne(c: Connection, segment: TcpSegment, now: nat)
    ensures Stamp(c, [segment], now) == {Packet(segment, c.sender.una, c.receiver.Acknowledged(), now)}
  {
    assert [segment][0] == segment;
  }

  lemma WriteStep(sys: System)
    requires sys == State(0) && Ready(sys)
    ensures CanStep(sys, STORY[0]) && Step(sys, STORY[0]) == State(1)
  {
    hide Connection.Valid, Connection.Write, Stamp;
    WriteResponds(sys.here.end);
    StampOne(State(1).here.end, Seg(true, SYN, SAYS_NOTHING), 0);
  }

  lemma SynStep(sys: System)
    requires sys == State(1) && Ready(sys)
    ensures CanStep(sys, STORY[1]) && Step(sys, STORY[1]) == State(2)
  {
    hide Connection.Valid, Connection.ReceiveSegment, Stamp;
    SynResponds(sys.there.end);
    StampOne(State(2).there.end, Seg(false, SYN, SAYS_ONE), 1);
  }

  lemma SynAckStep(sys: System)
    requires sys == State(2) && Ready(sys)
    ensures CanStep(sys, STORY[2]) && Step(sys, STORY[2]) == State(3)
  {
    hide Connection.Valid, Connection.ReceiveSegment, Stamp;
    SynAckResponds(sys.here.end);
    StampOne(State(3).here.end, Seg(true, Piece(1, [1, 2]), SAYS_ONE), 2);
  }

  lemma DataStep(sys: System)
    requires sys == State(3) && Ready(sys)
    ensures CanStep(sys, STORY[3]) && Step(sys, STORY[3]) == State(4)
  {
    hide Connection.Valid, Connection.ReceiveSegment, Stamp;
    DataResponds(sys.there.end);
    StampOne(State(4).there.end, Seg(false, Piece(1, []), SAYS_FULL), 3);
  }

  lemma FullStep(sys: System)
    requires sys == State(4) && Ready(sys)
    ensures CanStep(sys, STORY[4]) && Step(sys, STORY[4]) == State(5)
  {
    hide Connection.Valid, Connection.ReceiveSegment, Stamp;
    FullResponds(sys.here.end);
    StampOne(State(5).here.end, Seg(true, Piece(3, [3]), SAYS_ONE), 4);
  }

  lemma StaleStep(sys: System)
    requires sys == State(5) && Ready(sys)
    ensures CanStep(sys, STORY[5]) && Step(sys, STORY[5]) == State(6)
  {
    hide Connection.Valid, Connection.ReceiveSegment, Stamp;
    StaleResponds(sys.here.end);
    StampOne(State(6).here.end, Seg(true, Piece(4, [4]), SAYS_ONE), 5);
  }

  lemma StoryStep(k: nat)
    requires k < 6 && Inv(State(k))
    ensures Ready(State(k)) && CanStep(State(k), STORY[k]) && Step(State(k), STORY[k]) == State(k + 1)
    ensures Inv(State(k + 1))
  {
    hide Inv, Step, CanStep, State, Ready;
    InvReady(State(k));
    match k {
      case 0 => WriteStep(State(0));
      case 1 => SynStep(State(1));
      case 2 => SynAckStep(State(2));
      case 3 => DataStep(State(3));
      case 4 => FullStep(State(4));
      case _ => StaleStep(State(5));
    }
    StepKeepsInv(State(k), STORY[k]);
  }

  lemma StoryStarts()
    ensures Initial(State(0)) && Inv(State(0))
  {
    hide Inv;
    assert State(0) == System(Half(NewConnection(1, 2, 4, 2, 0, CONFIG), {}, 0),
                              Half(NewConnection(2, 1, 0, 2, 0, CONFIG), {}, 0), 0);
    InitialInv(State(0));
  }

  lemma {:induction false} StoryRuns(k: nat)
    requires k <= 6 && Inv(State(k))
    ensures Possible(State(k), STORY[k..]) && Run(State(k), STORY[k..]) == State(6)
    ensures k <= 5 ==> !InOrder(State(k), STORY[k..])
    decreases 6 - k
  {
    hide Inv, Step, CanStep, State, Ready;
    if k < 6 {
      StoryStep(k);
      assert STORY[k..][1..] == STORY[k + 1..];
      StoryRuns(k + 1);
      if k == 5 {
        LateHeard();
      }
    }
  }

  lemma LateHeard()
    ensures State(5).here.heard > SYN_ACK_PACKET.sentAt
  {
  }

  /** Without order the bound fails: in this run one stale acknowledgement makes the sender pass its
      receiver's edge by two positions, where one probe is all it may. */
  lemma StaleFeedbackOutruns()
    ensures Initial(State(0)) && Possible(State(0), STORY)
    ensures !InOrder(State(0), STORY)
    ensures var s, r := Run(State(0), STORY).here.end.sender, Run(State(0), STORY).there.end.receiver;
            r.store.Valid() && s.nxt > RightEdge(r) + 1
  {
    hide Inv, Initial, Run, Possible, InOrder;
    StoryStarts();
    StoryRuns(0);
    assert STORY[0..] == STORY;
    ReceiversSay();
  }
}
