/** One endpoint as the program keeps it, proved to refine the connection value. */
module TcpConnections {
  import opened Words
  import opened ByteStreams
  import opened Stores
  import opened Reassemblers
  import opened TcpMessages
  import opened TcpSegments
  import opened SenderSpecs
  import opened SenderFacts
  import opened TcpSenders
  import opened TcpReceivers
  import opened ConnectionSpecs

  class TcpConnection {
    const localPort: u16
    const peerPort: u16
    const sender: TcpSender
    const receiver: TcpReceiver

    ghost const Repr: set<object>

    ghost predicate Shape()
      reads this
    {
      Repr == {sender, sender.outbound, sender.timer,
               receiver, receiver.reassembler, receiver.reassembler.output}
      && sender.outbound != receiver.reassembler.output
    }

    ghost function Model(): (model: Connection)
      reads this, Repr
      requires Shape()
    {
      Connection(localPort, peerPort, sender.Model(), receiver.Model())
    }

    ghost predicate Valid()
      reads this, Repr
    {
      Shape() && sender.Valid() && receiver.Valid()
    }

    constructor (localPort: u16, peerPort: u16, sendCapacity: nat, receiveCapacity: nat, isn: u32, config: Config)
      requires localPort != 0 && peerPort != 0 && config.Valid() && receiveCapacity <= U64_MAX
      ensures Valid() && fresh(Repr)
      ensures Model() == NewConnection(localPort, peerPort, sendCapacity, receiveCapacity, isn, config)
    {
      this.localPort, this.peerPort := localPort, peerPort;
      var s := new TcpSender(sendCapacity, isn, config);
      var r := new TcpReceiver(receiveCapacity);
      sender, receiver := s, r;
      Repr := {s, s.outbound, s.timer, r, r.reassembler, r.reassembler.output};
    }

    method Connect() returns (segments: seq<TcpSegment>)
      requires Valid()
      modifies Repr
      ensures Valid()
      ensures (Model(), segments) == old(Model()).Flush()
    {
      segments := FlushSender();
    }

    method Write(data: seq<byte>) returns (written: nat, segments: seq<TcpSegment>)
      requires Valid()
      modifies Repr
      ensures Valid()
      ensures (Model(), segments) == old(Model()).Write(data)
      ensures written == old(sender.outbound.Model()).Accepts(data)
    {
      hide Sender.Valid, Store.Valid, Stream.Valid, Holds, Stream.Push, Stream.Accepts;
      WriteKeepsValid(sender.Model(), data);
      written := sender.outbound.Push(data);
      segments := FlushSender();
    }

    method Close() returns (segments: seq<TcpSegment>)
      requires Valid()
      modifies Repr
      ensures Valid()
      ensures (Model(), segments) == old(Model()).Close()
    {
      hide Sender.Valid, Store.Valid, Stream.Valid, Holds;
      CloseKeepsValid(sender.Model());
      sender.outbound.Close();
      segments := FlushSender();
    }

    /** The application reads the next bytes that were received. */
    method Read(len: nat) returns (taken: seq<byte>)
      requires Valid()
      modifies Repr
      ensures Valid()
      ensures Model() == old(Model()).Read(|taken|)
      ensures old(Model()).receiver.store.popped + |taken| <= |Model().receiver.store.assembled|
      ensures taken == Model().receiver.store.assembled[old(Model()).receiver.store.popped..Model().receiver.store.popped]
    {
      hide Sender.Valid, Store.Valid, Stream.Valid, Holds;
      taken := receiver.Read(len);
    }

    method IsEstablished() returns (established: bool)
      requires Valid()
      ensures established <==> Model().Established()
    {
      hide Sender.Valid, Store.Valid, Stream.Valid, Holds;
      var feedback := receiver.Send();
      established := sender.synSent && sender.sndUna > 0 && feedback.ackno.Some?;
    }

    /** Every position of the stream has been acknowledged: SYN, everything written, and FIN. */
    function IsFinished(): (finished: bool)
      reads this, Repr
      requires Valid()
      ensures finished <==> sender.sndUna == |sender.outbound.written| + 2
    {
      FinishedMeansAllAcknowledged(sender.Model());
      sender.finSent && sender.outstanding == []
    }

    method ReceiveSegment(segment: TcpSegment) returns (outgoing: seq<TcpSegment>)
      requires Valid()
      modifies Repr
      ensures Valid()
      ensures (Model(), outgoing) == old(Model()).ReceiveSegment(segment)
    {
      hide Sender.Valid, Store.Valid, Stream.Valid, Holds, Sender.Receive, Receiver.Receive, Receiver.Judge;
      if segment.header.srcPort != peerPort || segment.header.dstPort != localPort {
        return [];
      }
      AbsorbSegment(segment);
      outgoing := FlushSender();
      if segment.ToSenderMessage().SequenceLength() > 0 && outgoing == [] {
        outgoing := MakePureAckSegment();
      }
    }

    /** Acknowledgement and window go to the sender, then data and control to the receiver. */
    method AbsorbSegment(segment: TcpSegment)
      requires Valid()
      modifies Repr
      ensures Valid()
      ensures Model() == old(Model()).Absorb(segment)
    {
      hide Sender.Valid, Store.Valid, Stream.Valid, Holds, Sender.Receive, Receiver.Receive, Receiver.Judge;
      AbsorbValid(Model(), segment);
      var senderMessage := segment.ToSenderMessage();
      sender.Receive(segment.ToReceiverMessage());
      if senderMessage.SequenceLength() > 0 || senderMessage.rst {
        var result := receiver.Receive(senderMessage);
        if result.Some? {
          SetErrorValid(receiver.Model());
          receiver.reassembler.output.SetError();
        }
      }
    }

    method Tick(ms: u64) returns (outgoing: seq<TcpSegment>)
      requires Valid()
      modifies Repr
      ensures Valid()
      ensures (Model(), outgoing) == old(Model()).Tick(ms)
    {
      hide Sender.Valid, Store.Valid, Stream.Valid, Holds;
      var feedback := receiver.Send();
      var sent := sender.Tick(ms);
      outgoing := BuildSegments(sent, feedback);
      assert outgoing == old(Model()).WrapAll(sent);
    }

    method FlushSender() returns (outgoing: seq<TcpSegment>)
      requires Valid()
      modifies Repr
      ensures Valid()
      ensures (Model(), outgoing) == old(Model()).Flush()
    {
      hide Sender.Valid, Store.Valid, Stream.Valid, Holds;
      var feedback := receiver.Send();
      var sent := sender.Push();
      outgoing := BuildSegments(sent, feedback);
      assert outgoing == old(Model()).WrapAll(sent);
    }

    method BuildSegments(sent: seq<SenderMessage>, feedback: ReceiverMessage) returns (segments: seq<TcpSegment>)
      ensures |segments| == |sent|
      ensures forall k :: 0 <= k < |sent| ==>
        segments[k] == FromMessages(localPort, peerPort, sent[k], Some(feedback))
    {
      segments := [];
      for k := 0 to |sent|
        invariant |segments| == k
        invariant forall j :: 0 <= j < k ==>
          segments[j] == FromMessages(localPort, peerPort, sent[j], Some(feedback))
      {
        segments := segments + [FromMessages(localPort, peerPort, sent[k], Some(feedback))];
      }
    }

    method MakePureAckSegment() returns (segments: seq<TcpSegment>)
      requires Valid()
      ensures segments == Model().PureAck()
    {
      hide Sender.Valid, Store.Valid, Stream.Valid, Holds;
      var feedback := receiver.Send();
      if feedback.ackno == None && !feedback.rst {
        return [];
      }
      var message := sender.MakeEmptyMessage();
      segments := [FromMessages(localPort, peerPort, message, Some(feedback))];
    }
  }
}
