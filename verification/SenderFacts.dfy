/** What every reachable sender keeps: the outstanding queue tiles the unacknowledged part of
    sequence space, and the timer follows the window. */
module SenderFacts {
  import opened Words
  import opened Wrap32
  import opened ByteStreams
  import opened TcpMessages
  import opened SenderSpecs

  lemma {:induction false} TilesAppend(queue: seq<Outstanding>, lo: nat, hi: nat, isn: u32, written: seq<byte>,
                                       m: SenderMessage)
    requires Tiles(queue, lo, hi, isn, written)
    requires m.SequenceLength() > 0 && Carries(m, hi, isn, written)
    ensures Tiles(queue + [Outstanding(hi, m)], lo, hi + m.SequenceLength(), isn, written)
  {
    hide Carries;
    var longer := queue + [Outstanding(hi, m)];
    if queue == [] {
      assert longer[1..] == [];
    } else {
      TilesAppend(queue[1..], queue[0].End(), hi, isn, written, m);
      assert longer[1..] == queue[1..] + [Outstanding(hi, m)];
    }
  }

  /** Every member of a tiling carries its part of the stream, within the tiled range. */
  lemma {:induction false} TilesMember(queue: seq<Outstanding>, lo: nat, hi: nat, isn: u32, written: seq<byte>, k: nat)
    requires Tiles(queue, lo, hi, isn, written) && k < |queue|
    ensures lo <= queue[k].start && queue[k].End() <= hi
    ensures queue[k].message.SequenceLength() > 0
    ensures Carries(queue[k].message, queue[k].start, isn, written)
  {
    hide Carries;
    TilesOrdered(queue[1..], queue[0].End(), hi, isn, written);
    if k > 0 {
      TilesMember(queue[1..], queue[0].End(), hi, isn, written, k - 1);
    }
  }

  lemma {:induction false} TilesOrdered(queue: seq<Outstanding>, lo: nat, hi: nat, isn: u32, written: seq<byte>)
    requires Tiles(queue, lo, hi, isn, written)
    ensures lo <= hi
    ensures queue == [] <==> lo == hi
  {
    hide Carries;
    if queue != [] {
      TilesOrdered(queue[1..], queue[0].End(), hi, isn, written);
    }
  }

  /** Between them, the outstanding segments hold every unacknowledged position, with no hole. */
  lemma {:induction false} TilesCover(queue: seq<Outstanding>, lo: nat, hi: nat, isn: u32, written: seq<byte>, p: nat)
    returns (k: nat)
    requires Tiles(queue, lo, hi, isn, written)
    requires lo <= p < hi
    ensures k < |queue| && queue[k].start <= p < queue[k].End()
    ensures p < |written| + 2
    ensures Marks(queue[k].message)[p - queue[k].start] == Space(written)[p]
  {
    hide Carries, Marks, Space;
    if p < queue[0].End() {
      k := 0;
      CarriedMark(queue[0].message, lo, isn, written, p - lo);
    } else {
      var j := TilesCover(queue[1..], queue[0].End(), hi, isn, written, p);
      k := j + 1;
    }
  }

  /** Writing more does not disturb what is outstanding while FIN has not been sent. */
  lemma {:induction false} TilesLonger(queue: seq<Outstanding>, lo: nat, hi: nat, isn: u32, written: seq<byte>, more: seq<byte>)
    requires Tiles(queue, lo, hi, isn, written) && hi <= |written| + 1
    ensures Tiles(queue, lo, hi, isn, written + more)
  {
    if queue != [] {
      TilesOrdered(queue[1..], queue[0].End(), hi, isn, written);
      CarriesLonger(queue[0].message, lo, isn, written, more);
      hide Carries;
      TilesLonger(queue[1..], queue[0].End(), hi, isn, written, more);
    }
  }

  /** Trimming a partly acknowledged segment removes exactly its first marks. */
  lemma TrimDropsMarks(o: Outstanding, n: nat, isn: u32)
    requires n < o.message.SequenceLength()
    ensures Marks(o.Trim(n, isn).message) == Marks(o.message)[n..]
    ensures o.Trim(n, isn).start == o.start + n && o.Trim(n, isn).End() == o.End()
  {
    hide Marks, Wrap;
    var t := o.Trim(n, isn).message;
    var m := o.message;
    assert t.SequenceLength() == m.SequenceLength() - n;
    forall k | 0 <= k < t.SequenceLength() ensures Marks(t)[k] == Marks(m)[n + k] {
      MarkAt(t, k);
      MarkAt(m, n + k);
    }
  }

  lemma MarkAt(m: SenderMessage, k: nat)
    requires k < m.SequenceLength()
    ensures var lead := if m.syn then 1 else 0;
            Marks(m)[k] == if k < lead then Syn else if k < lead + |m.payload| then Octet(m.payload[k - lead]) else Fin
  {
  }

  lemma TrimCarries(o: Outstanding, n: nat, isn: u32, written: seq<byte>)
    requires n < o.message.SequenceLength()
    requires Carries(o.message, o.start, isn, written)
    ensures Carries(o.Trim(n, isn).message, o.start + n, isn, written)
  {
    TrimDropsMarks(o, n, isn);
    var len := o.message.SequenceLength();
    assert Space(written)[o.start..o.start + len][n..] == Space(written)[o.start + n..o.start + len];
  }

  /** An acknowledgement anywhere inside the outstanding range leaves a tiling of the rest. */
  lemma {:induction false} DiscardTiles(queue: seq<Outstanding>, lo: nat, hi: nat, isn: u32, written: seq<byte>, una: nat)
    requires Tiles(queue, lo, hi, isn, written) && lo <= una <= hi
    ensures Tiles(Discard(queue, una, isn), una, hi, isn, written)
  {
    hide Carries;
    if queue != [] {
      TilesOrdered(queue[1..], queue[0].End(), hi, isn, written);
      if queue[0].End() <= una {
        DiscardTiles(queue[1..], queue[0].End(), hi, isn, written, una);
      } else if queue[0].start < una {
        var front := queue[0].Trim(una - lo, isn);
        TrimCarries(queue[0], una - lo, isn, written);
        TrimDropsMarks(queue[0], una - lo, isn);
        assert ([front] + queue[1..])[1..] == queue[1..];
      }
    }
  }

  lemma {:induction false} Pow2Grows(n: nat)
    ensures Pow2(n) > n
  {
    if n > 0 {
      Pow2Grows(n - 1);
    }
  }

  /** One more doubling of the timeout, bounded, is the bounded timeout doubled. */
  lemma BackoffDoubles(initial: nat, n: nat, bound: nat)
    requires bound <= U64_MAX && initial > 0
    ensures Min(initial * Pow2(n + 1), bound) == Min(Min(Min(initial * Pow2(n), bound) * 2, U64_MAX), bound)
  {
    var p := Pow2(n);
    assert initial * Pow2(n + 1) == 2 * (initial * p);
  }

  lemma ProductAtLeast(a: nat, b: nat)
    requires a > 0
    ensures a * b >= b
  {
  }

  lemma BackoffSaturates(initial: nat, n: nat, bound: nat)
    requires n >= bound && initial > 0
    ensures Min(initial * Pow2(n), bound) == bound
  {
    Pow2Grows(n);
    ProductAtLeast(initial, Pow2(n));
  }

  lemma NewSenderValid(capacity: nat, isn: u32, config: Config)
    requires config.Valid()
    ensures NewSender(capacity, isn, config).Valid()
  {
    assert Pow2(0) == 1;
  }

  /** The message the sender builds next carries the stream from SND.NXT on. */
  lemma NextMessageCarries(s: Sender)
    requires s.outbound.Valid() && s.Counted() && s.InFlight() < s.Effective()
    requires s.NextMessage().SequenceLength() > 0
    ensures Carries(s.NextMessage(), s.nxt, s.isn, s.outbound.written)
    ensures s.Transmit().outbound.Valid() && s.Transmit().Counted()
    ensures s.Transmit().outbound.written == s.outbound.written
    ensures s.NextMessage().SequenceLength() <= s.Effective() - s.InFlight()
  {
    hide Stream.Pop, Stream.Front, Stream.Valid;
    RequestBounds(s);
    PopTakesNext(s.outbound, s.Request());
    var m := s.NextMessage();
    FieldsCarry(m, s.nxt, s.isn, s.outbound.written);
  }

  lemma RequestBounds(s: Sender)
    requires s.outbound.Valid() && s.Counted() && s.InFlight() < s.Effective()
    ensures 0 <= s.Request() <= s.outbound.Buffered()
    ensures s.Request() <= s.Effective() - s.InFlight() - (if s.synSent then 0 else 1)
    ensures s.finSent ==> s.Request() == 0
  {
  }

  lemma OutboundValid(s: Sender)
    requires s.Valid()
    ensures s.outbound.Valid()
  {
  }

  /** The part of the invariant that transmitting one segment must keep. */
  lemma TransmitValid(s: Sender)
    requires s.Valid() && s.InFlight() < s.Effective()
    requires s.NextMessage().SequenceLength() > 0
    ensures s.Transmit().Valid()
  {
    hide Carries, Tiles, Stream.Pop, Stream.Front, Sender.NextMessage, Flatten, Sender.Counted;
    NextMessageCarries(s);
    TilesAppend(s.outstanding, s.una, s.nxt, s.isn, s.outbound.written, s.NextMessage());
  }

  /** An empty next message takes nothing from the stream. */
  lemma EmptyMessageMeans(s: Sender)
    requires s.outbound.Valid() && s.InFlight() < s.Effective()
    ensures s.NextMessage().SequenceLength() == 0 ==>
      s.synSent && s.outbound.Pop(s.Request()) == s.outbound
  {
    hide Stream.Pop, Stream.Front;
    PopTakesNext(s.outbound, s.Request());
  }

  lemma TransmitMoves(s: Sender)
    requires s.outbound.Valid() && s.InFlight() < s.Effective()
    ensures var t := s.Transmit();
            && t.nxt == s.nxt + s.NextMessage().SequenceLength()
            && t.una == s.una && t.window == s.window && t.isn == s.isn && t.config == s.config
  {
    hide Sender.NextMessage, Stream.Valid;
  }

  lemma {:induction false} PushValid(s: Sender)
    requires s.Valid()
    ensures s.Push().0.Valid()
    ensures s.Push().0.una == s.una && s.Push().0.nxt >= s.nxt
    ensures s.Push().0.outbound.written == s.outbound.written
    decreases s.Effective() - s.InFlight()
  {
    hide Sender.NextMessage, Sender.Counted, Tiles, Flatten, Sender.IntervalsCoherent, Sender.TimerCoherent;
    if s.InFlight() < s.Effective() && s.NextMessage().SequenceLength() > 0 {
      TransmitValid(s);
      PushValid(s.Transmit());
    }
  }

  lemma AdvanceValid(s: Sender, ack: nat)
    requires s.outbound.Valid() && s.Counted() && s.config.Valid()
    requires s.una < ack <= s.nxt <= s.una + U16_MAX
    requires Tiles(s.outstanding, s.una, s.nxt, s.isn, s.outbound.written)
    ensures s.Advance(ack).RestartTimer().Valid()
  {
    hide Tiles, Discard, Stream.Valid, Sender.Counted;
    DiscardTiles(s.outstanding, s.una, s.nxt, s.isn, s.outbound.written, ack);
    assert Pow2(0) == 1;
    var t := s.Advance(ack).RestartTimer();
    assert t.outbound == s.outbound && t.nxt == s.nxt;
    CountedDepends(s, t);
  }

  /** The count of what was sent does not depend on acknowledgements, windows or timers. */
  lemma CountedDepends(s: Sender, t: Sender)
    requires s.Counted()
    requires t.outbound == s.outbound && t.nxt == s.nxt && t.synSent == s.synSent && t.finSent == s.finSent
    ensures t.Counted()
  {
  }

  lemma AbortKeepsValid(s: Sender)
    requires s.Valid()
    ensures s.Abort().Valid()
  {
    hide Flatten, Pow2;
  }

  /** Changing the window and restarting the timer for it. */
  lemma RewindowValid(s: Sender, window: u16)
    requires s.Valid()
    ensures s.(window := window).RestartTimer().Valid()
    ensures s.window == window || s.outstanding == [] ==> s.(window := window).Valid()
  {
    hide Stream.Valid, Pow2, Tiles;
    CountedDepends(s, s.(window := window));
    CountedDepends(s, s.(window := window).RestartTimer());
  }

  /** Whatever feedback arrives, honest or not, the invariant holds afterwards. */
  lemma ReceiveKeepsValid(s: Sender, m: ReceiverMessage)
    requires s.Valid()
    ensures s.Receive(m).Valid()
  {
    hide Unwrap, Discard, Stream.Valid, Pow2, Tiles, Sender.Counted, Sender.Advance, Sender.RestartTimer;
    RewindowValid(s, m.window);
    AbortKeepsValid(s);
    if !m.rst && m.ackno.Some? {
      var ack := Unwrap(m.ackno.value, s.isn, s.nxt);
      if s.una < ack <= s.nxt {
        var t := s.(window := m.window);
        CountedDepends(s, t);
        AdvanceValid(t, ack);
      }
    }
  }

  lemma BackedOffBounds(s: Sender, interval: u64)
    requires s.config.Valid() && s.config.initialRto <= interval
    ensures s.config.initialRto <= s.config.BackedOff(interval) <= s.config.maxInterval
  {
  }

  lemma TickKeepsValid(s: Sender, ms: u64)
    requires s.Valid()
    ensures s.Tick(ms).0.Valid()
  {
    hide Stream.Valid, Pow2, Tiles, Config.BackedOff;
    var t := s.Tick(ms).0;
    CountedDepends(s, t);
    BackedOffBounds(s, s.persist);
    if s.consecutive < U64_MAX {
      NextBackoff(s);
    } else {
      BackoffSaturates(s.config.initialRto, s.consecutive, s.config.maxInterval);
      BackedOffAtBound(s);
    }
  }

  lemma NextBackoff(s: Sender)
    requires s.IntervalsCoherent()
    ensures s.config.BackedOff(s.rto) == Min(s.config.initialRto * Pow2(s.consecutive + 1), s.config.maxInterval)
  {
    hide Pow2;
    BackoffDoubles(s.config.initialRto, s.consecutive, s.config.maxInterval);
  }

  lemma BackedOffAtBound(s: Sender)
    requires s.config.Valid() && s.rto == s.config.maxInterval
    ensures s.config.BackedOff(s.rto) == s.rto
  {
  }

  /** The application writes, or closes, the outbound stream. */
  lemma WriteKeepsValid(s: Sender, data: seq<byte>)
    requires s.Valid()
    ensures s.(outbound := s.outbound.Push(data)).Valid()
  {
    hide Stream.Push, Pow2, Tiles, Flatten, Stream.Accepts;
    PushAppends(s.outbound, data);
    PushOnly(s.outbound, data);
    var t := s.(outbound := s.outbound.Push(data));
    if s.finSent {
      assert t.outbound == s.outbound;
    } else {
      TilesLonger(s.outstanding, s.una, s.nxt, s.isn, s.outbound.written, data[..s.outbound.Accepts(data)]);
    }
  }

  lemma PushOnly(s: Stream, data: seq<byte>)
    requires s.Valid()
    ensures s.Push(data) == s.(written := s.Push(data).written, chunks := s.Push(data).chunks)
    ensures s.closed ==> s.Push(data) == s
  {
  }

  lemma CloseKeepsValid(s: Sender)
    requires s.Valid()
    ensures s.(outbound := s.outbound.Close()).Valid()
  {
    hide Pow2, Tiles, Flatten;
  }

  /** Every acknowledgement of something sent and not yet acknowledged is recovered exactly from
      its 32 bits, however often the number space has wrapped. */
  lemma AckRecovered(s: Sender, ack: nat)
    requires s.Valid() && s.una <= ack <= s.nxt <= U64_MAX
    ensures Unwrap(Wrap(ack, s.isn), s.isn, s.nxt) == ack
  {
    hide Unwrap, Wrap, Sender.Counted, Tiles, Stream.Valid, Pow2;
    UnwrapInvertsWrap(ack, s.isn, s.nxt);
  }

  /** What `Push` sends is what it appends to the outstanding queue, starting at SND.NXT. */
  lemma {:induction false} PushQueuesWhatItSends(s: Sender) returns (added: seq<Outstanding>)
    requires s.outbound.Valid()
    ensures s.Push().0.outstanding == s.outstanding + added
    ensures |added| == |s.Push().1|
    ensures forall k :: 0 <= k < |added| ==> s.Push().1[k] == added[k].message
    decreases s.Effective() - s.InFlight()
  {
    hide Flatten, Sender.NextMessage;
    added := [];
    if s.InFlight() < s.Effective() && s.NextMessage().SequenceLength() > 0 {
      PopTakesNext(s.outbound, s.Request());
      var rest := PushQueuesWhatItSends(s.Transmit());
      added := [Outstanding(s.nxt, s.NextMessage())] + rest;
    }
  }

  /** After `Push` the window is full, or everything the application wrote has been sent, FIN
      included once it closed. */
  lemma {:induction false} PushExhausts(s: Sender)
    requires s.Valid()
    ensures var t := s.Push().0;
            t.InFlight() < t.Effective() ==>
              && t.synSent
              && t.outbound.Buffered() == 0
              && (t.outbound.closed ==> t.finSent)
    decreases s.Effective() - s.InFlight()
  {
    hide Sender.Counted, Tiles, Flatten, Sender.IntervalsCoherent, Sender.TimerCoherent;
    if s.InFlight() < s.Effective() {
      if s.NextMessage().SequenceLength() > 0 {
        TransmitValid(s);
        PushExhausts(s.Transmit());
      } else {
        NothingToSend(s);
      }
    }
  }

  lemma NothingToSend(s: Sender)
    requires s.Valid() && s.InFlight() < s.Effective()
    requires s.NextMessage().SequenceLength() == 0
    ensures s.synSent && s.outbound.Buffered() == 0 && (s.outbound.closed ==> s.finSent)
  {
    hide Tiles, Flatten, Pow2, Stream.Front, Stream.Pop;
    RequestBounds(s);
    PopTakesNext(s.outbound, s.Request());
  }

  /** A sender has finished exactly when SND.UNA has passed SYN, everything written and FIN. */
  lemma FinishedMeansAllAcknowledged(s: Sender)
    requires s.Valid()
    ensures s.una <= |s.outbound.written| + 2
    ensures s.Finished() <==> s.una == |s.outbound.written| + 2
  {
    hide Flatten, Sender.TimerCoherent, Sender.IntervalsCoherent;
    TilesOrdered(s.outstanding, s.una, s.nxt, s.isn, s.outbound.written);
  }

  /** A flush sends nothing beyond the window, one position in case the window is closed. */
  lemma {:induction false} PushWithinWindow(s: Sender)
    requires s.Valid()
    ensures s.Push().0.nxt <= Max(s.nxt, s.una + s.Effective())
    ensures s.Push().0.window == s.window && s.Push().0.una == s.una
    decreases s.Effective() - s.InFlight()
  {
    hide Sender.NextMessage, Sender.Counted, Tiles, Flatten, Sender.IntervalsCoherent, Sender.TimerCoherent, Sender.Transmit;
    if s.InFlight() < s.Effective() && s.NextMessage().SequenceLength() > 0 {
      TransmitValid(s);
      TransmitMoves(s);
      NextMessageCarries(s);
      PushWithinWindow(s.Transmit());
    }
  }

  /** A flush leaves everything but the stream, the queue and SND.NXT alone; it starts the timer only of
      a sender that had nothing outstanding. */
  lemma {:induction false} PushKeepsRest(s: Sender)
    requires s.outbound.Valid()
    ensures var t := s.Push().0;
            && t.una == s.una && t.window == s.window && t.isn == s.isn && t.config == s.config
            && t.consecutive == s.consecutive && t.rto == s.rto && t.persist == s.persist
            && t.outbound.error == s.outbound.error && t.outbound.closed == s.outbound.closed
            && t.outbound.capacity == s.outbound.capacity
            && (s.outstanding != [] ==> t.outstanding != [] && t.timer == s.timer)
            && (s.outstanding == [] && t.outstanding != [] ==> t.timer.elapsed == 0)
    decreases s.Effective() - s.InFlight()
  {
    hide Flatten;
    if s.InFlight() < s.Effective() && s.NextMessage().SequenceLength() > 0 {
      PopTakesNext(s.outbound, s.Request());
      PushKeepsRest(s.Transmit());
    }
  }
}
