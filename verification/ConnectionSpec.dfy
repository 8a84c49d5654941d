/** One endpoint as a value: a sender and a receiver that share the segments they exchange. */
module ConnectionSpecs {
  import opened Words
  import opened ByteStreams
  import opened TcpMessages
  import opened TcpSegments
  import opened SenderSpecs
  import opened SenderFacts
  import opened TcpReceivers

  datatype Connection = Connection(localPort: u16, peerPort: u16, sender: Sender, receiver: Receiver) {
    ghost predicate Valid() {
      sender.Valid() && receiver.Valid()
    }

    /** A segment that carries a message and the receiver's current feedback. */
    function Wrapped(m: SenderMessage): (segment: TcpSegment)
      requires receiver.store.Valid()
    {
      FromMessages(localPort, peerPort, m, Some(receiver.Send()))
    }

    function WrapAll(ms: seq<SenderMessage>): (segments: seq<TcpSegment>)
      requires receiver.store.Valid()
      ensures |segments| == |ms|
      ensures forall k :: 0 <= k < |ms| ==> segments[k] == Wrapped(ms[k])
    {
      seq(|ms|, k requires 0 <= k < |ms| => Wrapped(ms[k]))
    }

    function Flush(): (result: (Connection, seq<TcpSegment>))
      requires Valid()
    {
      var (s, ms) := sender.Push();
      (this.(sender := s), WrapAll(ms))
    }

    function Write(data: seq<byte>): (result: (Connection, seq<TcpSegment>))
      requires Valid()
    {
      WriteKeepsValid(sender, data);
      this.(sender := sender.(outbound := sender.outbound.Push(data))).Flush()
    }

    function Close(): (after: (Connection, seq<TcpSegment>))
      requires Valid()
    {
      CloseKeepsValid(sender);
      this.(sender := sender.(outbound := sender.outbound.Close())).Flush()
    }

    function Tick(ms: u64): (after: (Connection, seq<TcpSegment>))
      requires Valid()
    {
      var (s, sent) := sender.Tick(ms);
      (this.(sender := s), WrapAll(sent))
    }

    /** What a message does to the receive side; a contradiction puts it in error. */
    function TakeMessage(m: SenderMessage): (after: Receiver) {
      var r := receiver.Receive(m);
      if receiver.Judge(m).Accepted? then r else r.(store := r.store.SetError())
    }

    function PureAck(): (segments: seq<TcpSegment>)
      requires receiver.store.Valid()
    {
      if receiver.Send().ackno == None && !receiver.Send().rst then []
      else [Wrapped(sender.EmptyMessage())]
    }

    /** What both halves know once an incoming segment has been looked at. */
    function Absorb(segment: TcpSegment): (after: Connection) {
      var m := segment.ToSenderMessage();
      this.(
        sender := sender.Receive(segment.ToReceiverMessage()),
        receiver := if m.SequenceLength() > 0 || m.rst then TakeMessage(m) else receiver)
    }

    function ReceiveSegment(segment: TcpSegment): (result: (Connection, seq<TcpSegment>))
      requires Valid()
    {
      if segment.header.srcPort != peerPort || segment.header.dstPort != localPort then (this, [])
      else
        AbsorbValid(this, segment);
        FlushValid(Absorb(segment));
        var (c, out) := Absorb(segment).Flush();
        (c, if out == [] && segment.ToSenderMessage().SequenceLength() > 0 then c.PureAck() else out)
    }

    /** The application reads `n` bytes of what has been received. */
    function Read(n: nat): (after: Connection) {
      this.(receiver := receiver.(store := receiver.store.Read(n)))
    }

    /** Our SYN has been acknowledged and the peer's SYN has been received. */
    predicate Established() {
      sender.synSent && sender.una > 0 && receiver.isn.Some?
    }
  }

  function NewConnection(localPort: u16, peerPort: u16, sendCapacity: nat, receiveCapacity: nat,
                         isn: u32, config: Config): Connection {
    Connection(localPort, peerPort, NewSender(sendCapacity, isn, config), EmptyReceiver(receiveCapacity))
  }

  lemma SetErrorValid(r: Receiver)
    requires r.Valid()
    ensures r.(store := r.store.SetError()).Valid()
  {
  }

  lemma AbsorbValid(c: Connection, segment: TcpSegment)
    requires c.Valid()
    ensures c.Absorb(segment).Valid()
  {
    hide Sender.Valid, Sender.Receive, Receiver.Valid, Receiver.Receive, Receiver.Judge;
    ReceiveKeepsValid(c.sender, segment.ToReceiverMessage());
    ReceiveValid(c.receiver, segment.ToSenderMessage());
    SetErrorValid(c.receiver.Receive(segment.ToSenderMessage()));
  }

  lemma FlushValid(c: Connection)
    requires c.Valid()
    ensures c.Flush().0.Valid()
    ensures c.Flush().0.receiver == c.receiver
    ensures c.Flush().0.sender == c.sender.Push().0
  {
    hide Sender.Push, Sender.TimerCoherent, Sender.IntervalsCoherent, Sender.Counted, Tiles, Stream.Valid, Receiver.Valid;
    PushValid(c.sender);
  }

  lemma WriteValid(c: Connection, data: seq<byte>)
    requires c.Valid()
    ensures c.Write(data).0.Valid()
    ensures c.Write(data).0.receiver == c.receiver
  {
    WriteKeepsValid(c.sender, data);
    FlushValid(c.(sender := c.sender.(outbound := c.sender.outbound.Push(data))));
  }

  lemma CloseValid(c: Connection)
    requires c.Valid()
    ensures c.Close().0.Valid()
    ensures c.Close().0.receiver == c.receiver
  {
    CloseKeepsValid(c.sender);
    FlushValid(c.(sender := c.sender.(outbound := c.sender.outbound.Close())));
  }

  lemma TickValid(c: Connection, ms: u64)
    requires c.Valid()
    ensures c.Tick(ms).0.Valid()
    ensures c.Tick(ms).0.receiver == c.receiver
  {
    TickKeepsValid(c.sender, ms);
  }

  lemma ReceiveSegmentValid(c: Connection, segment: TcpSegment)
    requires c.Valid()
    ensures c.ReceiveSegment(segment).0.Valid()
  {
    AbsorbValid(c, segment);
    FlushValid(c.Absorb(segment));
  }
}
