/** What one endpoint does in answer to its application and its peer, whoever the peer is. */
module ConnectionFacts {
  import opened Words
  import opened Wrap32
  import opened ByteStreams
  import opened TcpMessages
  import opened TcpSegments
  import opened TcpCodecs
  import opened SenderSpecs
  import opened SenderFacts
  import opened SenderPayloads
  import opened TcpReceivers
  import opened ConnectionSpecs

  /** Every message of a flush takes sequence space, and the last one ends at SND.NXT. */
  lemma PushSendsContent(s: Sender)
    requires s.Valid()
    ensures forall k :: 0 <= k < |s.Push().1| ==> s.Push().1[k].SequenceLength() > 0
    ensures s.Push().0.nxt > s.nxt <==> s.Push().1 != []
    ensures s.Push().1 != [] && s.Push().0.nxt == |s.outbound.written| + 2 ==> s.Push().1[|s.Push().1| - 1].fin
  {
    hide Sender.NextMessage, Sender.Counted, Tiles, Flatten, Sender.IntervalsCoherent, Sender.TimerCoherent,
         Sender.Push, Carries;
    var t := s.Push().0;
    var added := PushQueuesWhatItSends(s);
    PushValid(s);
    forall k | 0 <= k < |added|
      ensures added[k].message.SequenceLength() > 0 && s.Push().1[k] == added[k].message
    {
      assert t.outstanding[|s.outstanding| + k] == added[k];
      TilesMember(t.outstanding, t.una, t.nxt, t.isn, t.outbound.written, |s.outstanding| + k);
    }
    QueueEnds(s);
    if added != [] {
      LastEnds(t.outstanding, t.una, t.nxt, t.isn, t.outbound.written);
      var last := t.outstanding[|t.outstanding| - 1];
      assert last == added[|added| - 1];
      TilesMember(t.outstanding, t.una, t.nxt, t.isn, t.outbound.written, |t.outstanding| - 1);
      CarriesFields(last.message, last.start, t.isn, t.outbound.written);
    }
  }

  /** The last segment of a tiling ends where the tiled range does. */
  lemma {:induction false} LastEnds(queue: seq<Outstanding>, lo: nat, hi: nat, isn: u32, written: seq<byte>)
    requires Tiles(queue, lo, hi, isn, written) && queue != []
    ensures queue[|queue| - 1].End() == hi
  {
    if |queue| > 1 {
      LastEnds(queue[1..], queue[0].End(), hi, isn, written);
    }
  }

  /** SND.NXT moves exactly when something is sent. */
  lemma {:induction false} QueueEnds(s: Sender)
    requires s.Valid()
    ensures s.Push().0.nxt > s.nxt <==> s.Push().1 != []
    decreases s.Effective() - s.InFlight()
  {
    hide Sender.NextMessage, Sender.Counted, Tiles, Flatten, Sender.IntervalsCoherent, Sender.TimerCoherent, Sender.Transmit;
    if s.InFlight() < s.Effective() && s.NextMessage().SequenceLength() > 0 {
      TransmitValid(s);
      TransmitMoves(s);
      PushValid(s.Transmit());
    }
  }

  /** Closing sends FIN at once exactly when the rest of the stream and FIN fit the window, and then
      the last segment carries it; the rest of the stream goes with it. */
  lemma CloseSendsFin(c: Connection)
    requires c.Valid() && !c.sender.finSent
    ensures var (d, out) := c.Close();
            && (d.sender.finSent <==> |c.sender.outbound.written| + 2 <= c.sender.una + c.sender.Effective())
            && (d.sender.finSent ==> d.sender.nxt == |c.sender.outbound.written| + 2
                                     && out != [] && out[|out| - 1].header.fin)
  {
    CloseKeepsValid(c.sender);
    var s := c.sender.(outbound := c.sender.outbound.Close());
    FinCounts(c.sender);
    FinCounts(s);
    hide Sender.Valid, Receiver.Valid, Sender.Push;
    FlushValid(c.(sender := s));
    PushValid(s);
    FinCounts(s.Push().0);
    PushExhausts(s);
    PushWithinWindow(s);
    PushSendsContent(s);
    OutboundValid(s);
    PushKeepsRest(s);
  }

  lemma FinCounts(s: Sender)
    requires s.Valid()
    ensures s.nxt <= |s.outbound.written| + 2
    ensures s.finSent <==> s.nxt == |s.outbound.written| + 2
  {
    hide Tiles, Flatten;
  }

  /** After a write the window is full, or everything written so far has been sent. */
  lemma WriteSendsAll(c: Connection, data: seq<byte>)
    requires c.Valid()
    ensures var s := c.Write(data).0.sender;
            && s.outbound.written <= c.sender.outbound.written + data
            && (s.nxt >= s.una + s.Effective() || s.nxt > |s.outbound.written|)
  {
    hide Sender.Valid, Receiver.Valid, Sender.Push, Stream.Push, Stream.Accepts, Stream.Valid, Sender.Effective;
    OutboundValid(c.sender);
    PushAppends(c.sender.outbound, data);
    WriteKeepsValid(c.sender, data);
    var s := c.sender.(outbound := c.sender.outbound.Push(data));
    assert s.outbound.written <= c.sender.outbound.written + data;
    FlushValid(c.(sender := s));
    PushValid(s);
    PushExhausts(s);
    SentMeans(s.Push().0);
  }

  lemma SentMeans(s: Sender)
    requires s.Valid()
    ensures s.synSent && s.outbound.Buffered() == 0 ==> s.nxt > |s.outbound.written|
  {
    hide Tiles, Flatten;
  }

  /** The first segment of a new connection is a SYN with its initial sequence number. */
  lemma ConnectSendsSyn(c: Connection)
    requires c.Valid() && !c.sender.synSent
    ensures c.Flush().1 != []
    ensures c.Flush().1[0].header.syn && c.Flush().1[0].header.seqno == c.sender.isn
  {
    hide Tiles, Flatten, Sender.TimerCoherent, Sender.IntervalsCoherent, Receiver.Valid;
    TilesOrdered(c.sender.outstanding, c.sender.una, c.sender.nxt, c.sender.isn, c.sender.outbound.written);
    WrapCounts(0, c.sender.isn);
  }

  /** A segment of another connection changes nothing and gets no answer. */
  lemma ForeignPortsIgnored(c: Connection, segment: TcpSegment)
    requires c.Valid()
    requires segment.header.srcPort != c.peerPort || segment.header.dstPort != c.localPort
    ensures c.ReceiveSegment(segment) == (c, [])
  {
  }

  /** The segments of a flush take sequence space, and are resets exactly when the endpoint is in error. */
  lemma FlushSegments(c: Connection, k: nat)
    requires c.Valid() && k < |c.Flush().1|
    ensures var segment := c.Flush().1[k];
            && segment.ToSenderMessage().SequenceLength() > 0
            && (segment.header.rst <==> c.sender.outbound.error || c.receiver.store.error)
  {
    hide Sender.Valid, Sender.Push;
    PushSendsContent(c.sender);
    var added := PushIsWellSized(c.sender);
    SaysError(c.receiver);
  }

  /** Under a payload limit that leaves room for the header, whatever a flush sends can be serialised. */
  lemma FlushFits(c: Connection, k: nat)
    requires c.Valid() && k < |c.Flush().1|
    requires HEADER_LEN + c.sender.config.maxPayload <= U16_MAX
    ensures Fits(c.Flush().1[k])
  {
    hide Sender.Valid, Sender.Push;
    var added := PushIsWellSized(c.sender);
  }

  /** Nothing that takes no sequence space is answered with something that takes none, so two endpoints
      never acknowledge each other for ever; and what does take sequence space is answered, as soon as
      there is anything to say. */
  lemma AnswersContent(c: Connection, segment: TcpSegment)
    requires c.Valid()
    requires segment.header.srcPort == c.peerPort && segment.header.dstPort == c.localPort
    ensures var (d, out) := c.ReceiveSegment(segment);
            && (segment.ToSenderMessage().SequenceLength() == 0 || !(d.receiver.isn.Some? || d.receiver.store.error) ==>
                  forall k :: 0 <= k < |out| ==> out[k].ToSenderMessage().SequenceLength() > 0)
            && (segment.ToSenderMessage().SequenceLength() > 0 && (d.receiver.isn.Some? || d.receiver.store.error) ==>
                  out != [])
  {
    AbsorbValid(c, segment);
    FlushValid(c.Absorb(segment));
    hide Sender.Valid, Receiver.Valid, Connection.Absorb, Connection.Flush;
    var d := c.Absorb(segment).Flush().0;
    SaysError(d.receiver);
    SaysOnceSynchronized(d.receiver);
    forall k | 0 <= k < |c.Absorb(segment).Flush().1|
      ensures c.Absorb(segment).Flush().1[k].ToSenderMessage().SequenceLength() > 0
    {
      FlushSegments(c.Absorb(segment), k);
    }
  }

  lemma SaysOnceSynchronized(r: Receiver)
    requires r.Valid()
    ensures r.Send().ackno.Some? <==> r.isn.Some?
  {
  }

  /** Every answer of an endpoint in error is a reset, and only of such. */
  lemma AnswersMarkErrors(c: Connection, segment: TcpSegment)
    requires c.Valid()
    ensures var (d, out) := c.ReceiveSegment(segment);
            forall k :: 0 <= k < |out| ==> (out[k].header.rst <==> d.sender.outbound.error || d.receiver.store.error)
  {
    AbsorbValid(c, segment);
    FlushValid(c.Absorb(segment));
    hide Sender.Valid, Receiver.Valid, Connection.Absorb, Connection.Flush;
    var e := c.Absorb(segment);
    var d := e.Flush().0;
    OutboundValid(e.sender);
    PushKeepsRest(e.sender);
    SaysError(d.receiver);
    forall k | 0 <= k < |e.Flush().1|
      ensures e.Flush().1[k].header.rst <==> e.sender.outbound.error || e.receiver.store.error
    {
      FlushSegments(e, k);
    }
  }

  lemma SenderHearsReset(s: Sender, m: ReceiverMessage)
    ensures s.Receive(m).outbound.error == (s.outbound.error || m.rst)
    ensures m.rst ==> s.Receive(m).outstanding == [] && s.Receive(m).una == s.nxt
  {
    hide Discard;
  }

  /** A reset puts both halves in error, a segment the reassembler rejects puts the receiving half in
      error, and nothing else does. */
  lemma ErrorsEnterHere(c: Connection, segment: TcpSegment)
    requires c.Valid()
    requires segment.header.srcPort == c.peerPort && segment.header.dstPort == c.localPort
    ensures var d := c.ReceiveSegment(segment).0;
            var m := segment.ToSenderMessage();
            && (d.sender.outbound.error <==> c.sender.outbound.error || segment.header.rst)
            && (d.receiver.store.error <==>
                  || c.receiver.store.error || segment.header.rst
                  || (m.SequenceLength() > 0 && !c.receiver.Judge(m).Accepted?))
  {
    AbsorbValid(c, segment);
    FlushValid(c.Absorb(segment));
    hide Sender.Valid, Receiver.Valid, Connection.Flush, Receiver.Receive, Receiver.Judge, Sender.Receive,
         Connection.PureAck;
    SenderHearsReset(c.sender, segment.ToReceiverMessage());
    ReceiveRemembers(c.receiver, segment.ToSenderMessage());
    OutboundValid(c.Absorb(segment).sender);
    PushKeepsRest(c.Absorb(segment).sender);
  }
}
