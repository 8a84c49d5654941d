/** Two endpoints and a network that may lose, duplicate and reorder what they send. */
module TwoParty {
  import opened Words
  import opened Wrap32
  import opened TcpMessages
  import opened TcpSegments
  import opened SenderSpecs
  import opened TcpReceivers
  import opened ConnectionSpecs

  /** A segment on the network, stamped with its sender's progress when it was sent: the left edge
      of its send window, the position it acknowledges, and the time. The stamps are only used to
      say how stale a delivery is. */
  datatype Packet = Packet(segment: TcpSegment, una: nat, ack: nat, sentAt: nat)

  /** One endpoint, every packet it ever sent, and the time stamp of the last packet it was given. */
  datatype Half = Half(end: Connection, sent: set<Packet>, heard: nat)

  datatype System = System(here: Half, there: Half, now: nat)

  datatype Action =
    | Connect
    | Write(data: seq<byte>)
    | Close
    | Read(count: nat)
    | Tick(ms: u64)
    | Deliver(packet: Packet)

  datatype Event = Event(atHere: bool, action: Action)

  /** Half of sequence space: the most a stream may advance while a packet is under way. */
  const STALENESS: nat := MODULUS / 2

  ghost predicate Ready(sys: System) {
    sys.here.end.Valid() && sys.there.end.Valid()
  }

  /** Neither stream has advanced by half of sequence space since the packet was sent. */
  predicate Timely(sys: System, p: Packet) {
    && sys.there.end.sender.nxt < p.una + STALENESS
    && sys.here.end.sender.nxt < p.ack + STALENESS
  }

  /** What the application, the clock and the network may do to the endpoint `here`. The network
      delivers anything the peer ever sent, in any order, any number of times or never, as long as
      it is timely; a stream stays short enough for 64-bit positions. */
  ghost predicate Allowed(sys: System, action: Action) {
    match action
    case Write(data) =>
      |sys.here.end.sender.outbound.written| + |data| + 2 <= U64_MAX
    case Read(count) =>
      sys.here.end.receiver.store.popped + count <= |sys.here.end.receiver.store.assembled|
    case Deliver(p) => p in sys.there.sent && Timely(sys, p)
    case _ => true
  }

  /** The endpoint after an action, and the segments it emits. */
  function Respond(c: Connection, action: Action): (result: (Connection, seq<TcpSegment>))
    requires c.Valid()
  {
    match action
    case Connect => c.Flush()
    case Write(data) => c.Write(data)
    case Close => c.Close()
    case Read(count) => (c.Read(count), [])
    case Tick(ms) => c.Tick(ms)
    case Deliver(p) => c.ReceiveSegment(p.segment)
  }

  function Stamp(c: Connection, segments: seq<TcpSegment>, now: nat): (packets: set<Packet>) {
    set k | 0 <= k < |segments| :: Packet(segments[k], c.sender.una, c.receiver.Acknowledged(), now)
  }

  function Act(sys: System, action: Action): (after: System)
    requires Ready(sys)
  {
    var (c, out) := Respond(sys.here.end, action);
    var heard := if action.Deliver? then action.packet.sentAt else sys.here.heard;
    System(Half(c, sys.here.sent + Stamp(c, out, sys.now), heard), sys.there, sys.now + 1)
  }

  function Swap(sys: System): (swapped: System) {
    System(sys.there, sys.here, sys.now)
  }

  ghost predicate CanStep(sys: System, e: Event) {
    Allowed(if e.atHere then sys else Swap(sys), e.action)
  }

  function Step(sys: System, e: Event): (after: System)
    requires Ready(sys)
  {
    if e.atHere then Act(sys, e.action) else Swap(Act(Swap(sys), e.action))
  }

  /** Two endpoints that have not yet exchanged anything. */
  ghost predicate Initial(sys: System) {
    exists p: u16, q: u16, s1: nat, r1: nat, s2: nat, r2: nat, isn1: u32, isn2: u32, c1: Config, c2: Config ::
      && c1.Valid() && c2.Valid() && r1 <= U64_MAX && r2 <= U64_MAX
      && sys == System(Half(NewConnection(p, q, s1, r1, isn1, c1), {}, 0),
                       Half(NewConnection(q, p, s2, r2, isn2, c2), {}, 0), 0)
  }

  /** The bytes a sender has put into segments so far. */
  function Segmented(s: Sender): (bytes: seq<byte>)
    requires s.outbound.popped <= |s.outbound.written|
  {
    s.outbound.written[..s.outbound.popped]
  }

  /** A message with content is a part of the stream its sender has transmitted, at or after `una`. */
  ghost predicate Transmitted(m: SenderMessage, una: nat, s: Sender) {
    m.SequenceLength() > 0 ==>
      exists start: nat :: InStream(m, una, s, start)
  }

  ghost predicate InStream(m: SenderMessage, una: nat, s: Sender, start: nat) {
    una <= start && start + m.SequenceLength() <= s.nxt && Carries(m, start, s.isn, s.outbound.written)
  }

  ghost predicate DataHonest(p: Packet, s: Sender) {
    && !p.segment.header.rst
    && Transmitted(p.segment.ToSenderMessage(), p.una, s)
  }

  /** Feedback acknowledges only what the receiver has. */
  ghost predicate FeedbackHonest(p: Packet, r: Receiver, isn: u32) {
    && !p.segment.header.rst
    && p.ack <= r.Acknowledged()
    && (p.segment.header.ackno.Some? ==> p.segment.header.ackno.value == Wrap(p.ack, isn))
  }

  /** What the receiver holds is a part of what the sender has transmitted. */
  ghost predicate Received(s: Sender, r: Receiver) {
    && s.outbound.popped <= |s.outbound.written| <= U64_MAX - 2
    && !s.outbound.error && !r.store.error
    && (forall k :: 0 <= k < |s.outstanding| ==> !s.outstanding[k].message.rst)
    && (r.isn.Some? ==> r.isn.value == s.isn && s.synSent)
    && r.store.Agrees(Segmented(s))
    && (r.store.eof.Some? ==> s.finSent)
    && s.una <= r.Acknowledged()
  }

  /** One direction of the conversation: data from a sender, feedback from the peer's receiver. */
  ghost predicate Link(s: Sender, data: set<Packet>, r: Receiver, feedback: set<Packet>) {
    && Received(s, r)
    && (forall p :: p in data ==> DataHonest(p, s))
    && (forall p :: p in feedback ==> FeedbackHonest(p, r, s.isn))
  }

  ghost predicate Addressed(c: Connection, sent: set<Packet>) {
    forall p :: p in sent ==> p.segment.header.srcPort == c.localPort && p.segment.header.dstPort == c.peerPort
  }

  ghost predicate Paired(x: Half, y: Half) {
    && x.end.localPort == y.end.peerPort
    && Addressed(x.end, x.sent)
    && Link(x.end.sender, x.sent, y.end.receiver, y.sent)
  }

  /** The invariant of every run. */
  ghost predicate Inv(sys: System) {
    && Ready(sys)
    && Paired(sys.here, sys.there)
    && Paired(sys.there, sys.here)
  }
}
