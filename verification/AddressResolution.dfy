/** How two interfaces resolve an address between them (RFC 826), and exactly which frames one takes in
    and sends out for it. */
module AddressResolution {
  import opened Ipv4Datagrams
  import opened InterfaceSpecs
  import opened InterfaceRuns

  /** A frame that reaches the interface and asks for its own address. */
  predicate AsksForUs(i: Interface, op: Operation) {
    && op.Receive? && (op.frame.dst == i.mac || op.frame.dst == BROADCAST)
    && op.frame.content.Arp? && op.frame.content.message.isRequest && op.frame.content.message.targetIp == i.ip
  }

  /** The one frame that answers a request: back to who asked, with the interface's own addresses. */
  lemma RequestIsAnswered(i: Interface, op: Operation)
    requires AsksForUs(i, op)
    ensures Added(i, op) != []
    ensures var reply := Added(i, op)[|Added(i, op)| - 1];
            var asked := op.frame.content.message;
            && reply.dst == asked.senderMac && reply.src == i.mac && reply.content.Arp?
            && !reply.content.message.isRequest
            && reply.content.message.senderMac == i.mac && reply.content.message.senderIp == i.ip
            && reply.content.message.targetMac == asked.senderMac && reply.content.message.targetIp == asked.senderIp
  {
    hide Ipv4Serialized;
  }

  /** A request goes to everyone, with the asker's own addresses and the one it asks for. */
  lemma RequestIsBroadcast(i: Interface, op: Operation)
    requires op.Send? && Asks(i, op, op.hop)
    ensures |Added(i, op)| == 1
    ensures var request := Added(i, op)[0];
            && request.dst == BROADCAST && request.src == i.mac && request.content.Arp?
            && request.content.message.isRequest
            && request.content.message.senderMac == i.mac && request.content.message.senderIp == i.ip
            && request.content.message.targetMac == ZERO && request.content.message.targetIp == op.hop
  {
    hide Ipv4Serialized;
  }

  /** Those are all the ARP frames an interface ever sends: a request alone, and an answer last. */
  lemma ArpFramesExactly(i: Interface, op: Operation, k: nat)
    requires k < |Added(i, op)|
    ensures Added(i, op)[k].content.Arp?
       <==> (op.Send? && Asks(i, op, op.hop)) || (AsksForUs(i, op) && k == |Added(i, op)| - 1)
  {
    hide Ipv4Serialized, ParseIpv4;
  }

  /** The upper layer is given exactly the datagrams that can be read from IPv4 frames for this
      interface or for everyone, and a frame for another interface changes nothing. */
  lemma DatagramsTakenIn(i: Interface, frame: Frame)
    ensures frame.dst != i.mac && frame.dst != BROADCAST ==> i.Receive(frame) == i
    ensures (frame.dst == i.mac || frame.dst == BROADCAST) && frame.content.Ipv4Bytes? ==>
              && (ParseIpv4(frame.content.bytes).Ipv4Failed? ==> i.Receive(frame) == i)
              && forall d: Datagram :: ParseIpv4(frame.content.bytes) == Ipv4Parsed(d) ==>
                   i.Receive(frame) == i.(datagramsIn := i.datagramsIn + [d])
    ensures !frame.content.Ipv4Bytes? ==> i.Receive(frame).datagramsIn == i.datagramsIn
    ensures frame.content.Unreadable? ==> i.Receive(frame) == i
  {
    hide ParseIpv4, Ipv4Frames;
    ParsedFits(if frame.content.Ipv4Bytes? then frame.content.bytes else []);
  }

  /** Datagrams for the upper layer are handed up in the order they came in, and by nothing else. */
  lemma InputIsFifo(i: Interface, op: Operation)
    ensures op.PopDatagram? && i.datagramsIn != [] ==> [i.datagramsIn[0]] + Apply(i, op).datagramsIn == i.datagramsIn
    ensures !op.PopDatagram? ==> i.datagramsIn <= Apply(i, op).datagramsIn
    ensures !op.PopDatagram? && !op.Receive? ==> Apply(i, op).datagramsIn == i.datagramsIn
  {
    hide ParseIpv4, Ipv4Frames, Ipv4Frame;
  }

  /** The frame an interface queued last. */
  function Latest(i: Interface): (frame: Frame)
    requires i.framesOut != []
  {
    i.framesOut[|i.framesOut| - 1]
  }

  /** The three steps of a resolution: one interface hands over a datagram for the other's address and
      asks, the other hears the request, and the first hears the answer. */
  lemma ResolutionSucceeds(i: Interface, j: Interface, d: Datagram)
    requires Valid(i) && j.ip !in i.cache && Asks(i, Send(d, j.ip), j.ip)
    ensures var asking := i.Send(d, j.ip);
            && asking.framesOut != []
            && var asked := j.Receive(Latest(asking));
            && asked.framesOut != []
            && var answered := asking.Receive(Latest(asked));
            && asked.cache == j.cache[i.ip := CacheEntry(i.mac, 0)]
            && answered.cache == i.cache[j.ip := CacheEntry(j.mac, 0)]
            && j.ip !in answered.pending
            && answered.framesOut == asking.framesOut + Ipv4Frames(j.mac, i.mac, i.Waiting(j.ip) + [d])
  {
    hide Ipv4Serialized, ParseIpv4;
    var asking := i.Send(d, j.ip);
    assert Latest(asking) == i.Request(j.ip);
    var asked := j.Receive(Latest(asking));
    assert Latest(asked) == j.Reply(i.mac, i.ip);
    assert asking.Waiting(j.ip) == i.Waiting(j.ip) + [d];
  }

  /** What an interface has taken in after a sequence of frames. */
  function ReceiveAll(j: Interface, frames: seq<Frame>): (after: Interface) {
    if frames == [] then j else ReceiveAll(j, frames[..|frames| - 1]).Receive(frames[|frames| - 1])
  }

  /** And the frames it then sends bring the very datagrams to the other interface, in order. */
  lemma {:induction false} ResolvedFramesArrive(src: EthernetAddress, j: Interface, ds: seq<Datagram>)
    ensures ReceiveAll(j, Ipv4Frames(j.mac, src, ds)) == j.(datagramsIn := j.datagramsIn + ds)
  {
    hide Interface.Receive;
    if ds != [] {
      var front := ds[..|ds| - 1];
      assert Ipv4Frames(j.mac, src, ds)[..|ds| - 1] == Ipv4Frames(j.mac, src, front);
      ResolvedFramesArrive(src, j, front);
      EmittedFrameReadsBack(j.mac, src, ds[|ds| - 1], ReceiveAll(j, Ipv4Frames(j.mac, src, front)));
      assert front + [ds[|ds| - 1]] == ds;
    }
  }
}
