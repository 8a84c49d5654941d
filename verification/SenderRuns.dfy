/** Every run of a sender, whatever the application, the clock and the peer do, beside a book kept of
    what happened to it. */
module SenderRuns {
  import opened Words
  import opened Wrap32
  import opened ByteStreams
  import opened TcpMessages
  import opened SenderSpecs
  import opened SenderFacts
  import opened SenderPayloads

  datatype SenderEvent =
    | Write(data: seq<byte>)
    | Close
    | Push
    | Receive(feedback: ReceiverMessage)
    | Tick(ms: u64)

  function StepSender(s: Sender, e: SenderEvent): (t: Sender)
    requires s.Valid()
    ensures t.Valid()
  {
    match e
    case Write(data) => WriteKeepsValid(s, data); s.(outbound := s.outbound.Push(data))
    case Close => CloseKeepsValid(s); s.(outbound := s.outbound.Close())
    case Push => PushValid(s); s.Push().0
    case Receive(feedback) => ReceiveKeepsValid(s, feedback); s.Receive(feedback)
    case Tick(ms) => TickKeepsValid(s, ms); s.Tick(ms).0
  }

  function RunSender(s: Sender, events: seq<SenderEvent>): (t: Sender)
    requires s.Valid()
    ensures t.Valid()
    decreases |events|
  {
    if events == [] then s else RunSender(StepSender(s, events[0]), events[1..])
  }

  /** The book: the left edge and the window as last heard of; the expiries since the last
      acknowledgement of something new, those with an open window apart from those with a closed one;
      the time since the timer was last started; and whether a reset ended it all. */
  datatype Book = Book(una: nat, window: u16, retransmissions: nat, probes: nat, waited: nat, aborted: bool)

  const NEW_BOOK: Book := Book(0, 1, 0, 0, 0, false)

  /** The wait after `n` expiries: doubled each time, up to the bound. */
  function Interval(config: Config, n: nat): (ms: nat) {
    Min(config.initialRto * Pow2(n), config.maxInterval)
  }

  function Due(b: Book, config: Config): (ms: nat) {
    Interval(config, if b.window == 0 then b.probes else b.retransmissions)
  }

  /** Whether the timer of something outstanding expires within the given time. */
  predicate Expires(b: Book, s: Sender, ms: u64) {
    s.outstanding != [] && b.waited + ms >= Due(b, s.config)
  }

  function Hear(b: Book, s: Sender, m: ReceiverMessage): (after: Book) {
    if m.rst then b.(una := s.nxt, aborted := true)
    else if m.ackno.Some? && Unwrap(m.ackno.value, s.isn, s.nxt) > s.nxt then b
    else if m.ackno.Some? && Unwrap(m.ackno.value, s.isn, s.nxt) > b.una then
      Book(Unwrap(m.ackno.value, s.isn, s.nxt), m.window, 0, 0, 0, b.aborted)
    else if m.window != b.window then b.(window := m.window, waited := 0)
    else b
  }

  function Enter(b: Book, s: Sender, e: SenderEvent): (after: Book) {
    match e
    case Write(_) => b
    case Close => b
    case Push => if s.outstanding == [] then b.(waited := 0) else b
    case Receive(m) => Hear(b, s, m)
    case Tick(ms) =>
      if !Expires(b, s, ms) then b.(waited := b.waited + ms)
      else if b.window == 0 then b.(waited := 0, probes := b.probes + 1)
      else b.(waited := 0, retransmissions := b.retransmissions + 1)
  }

  function RunBook(b: Book, s: Sender, events: seq<SenderEvent>): (after: Book)
    requires s.Valid()
    decreases |events|
  {
    if events == [] then b else RunBook(Enter(b, s, events[0]), StepSender(s, events[0]), events[1..])
  }

  /** The sender is where its book says it is. */
  ghost predicate Kept(b: Book, s: Sender) {
    && s.una == b.una && s.window == b.window && s.outbound.error == b.aborted
    && s.consecutive == Min(b.retransmissions, U64_MAX)
    && s.rto == Interval(s.config, b.retransmissions)
    && s.persist == Interval(s.config, b.probes)
    && (s.outstanding != [] ==> s.timer.elapsed == b.waited < Due(b, s.config))
  }

  lemma NextInterval(config: Config, n: nat)
    requires config.Valid()
    ensures config.BackedOff(Interval(config, n)) == Interval(config, n + 1)
    ensures 0 < Interval(config, n) <= config.maxInterval
  {
    BackoffDoubles(config.initialRto, n, config.maxInterval);
    Pow2Grows(n);
    ProductAtLeast(config.initialRto, Pow2(n));
  }

  lemma PushKept(b: Book, s: Sender)
    requires s.Valid() && Kept(b, s)
    ensures Kept(Enter(b, s, Push), s.Push().0)
  {
    hide Tiles, Flatten, Sender.Counted, Interval, Sender.Push;
    PushKeepsRest(s);
    NextInterval(s.config, b.retransmissions);
    NextInterval(s.config, b.probes);
  }

  lemma TimerFacts(s: Sender)
    requires s.Valid()
    ensures s.config.Valid()
    ensures s.outstanding == [] ==> s.timer == STOPPED
    ensures s.outstanding != [] ==> s.timer.running && s.timer.timeout == (if s.window == 0 then s.persist else s.rto)
  {
    hide Tiles, Flatten, Sender.Counted;
  }

  lemma ReceiveKept(b: Book, s: Sender, m: ReceiverMessage)
    requires s.Valid() && Kept(b, s)
    ensures Kept(Hear(b, s, m), s.Receive(m))
  {
    hide Sender.Valid, Discard, Unwrap, Interval;
    TimerFacts(s);
    NextInterval(s.config, b.retransmissions);
    NextInterval(s.config, b.probes);
    NextInterval(s.config, 0);
    FirstInterval(s.config);
  }

  lemma FirstInterval(config: Config)
    requires config.Valid()
    ensures Interval(config, 0) == config.initialRto
  {
  }

  lemma TickKept(b: Book, s: Sender, ms: u64)
    requires s.Valid() && Kept(b, s)
    ensures Kept(Enter(b, s, Tick(ms)), s.Tick(ms).0)
    ensures s.Tick(ms).1 == if Expires(b, s, ms) then [s.outstanding[0].message] else []
  {
    hide Sender.Valid, Interval, Config.BackedOff;
    TimerFacts(s);
    NextInterval(s.config, b.retransmissions);
    NextInterval(s.config, b.probes);
    NextInterval(s.config, b.retransmissions + 1);
    NextInterval(s.config, b.probes + 1);
  }

  lemma WriteKeepsError(s: Stream, data: seq<byte>)
    requires s.Valid()
    ensures s.Push(data).error == s.error
  {
  }

  lemma StreamKept(b: Book, s: Sender, t: Sender)
    requires Kept(b, s) && t == s.(outbound := t.outbound) && t.outbound.error == s.outbound.error
    ensures Kept(b, t)
  {
    hide Interval;
  }

  lemma ReceiveKeepsConfig(s: Sender, m: ReceiverMessage)
    ensures s.Receive(m).config == s.config && s.Receive(m).isn == s.isn
  {
    hide Discard, Unwrap;
  }

  lemma TickKeepsConfig(s: Sender, ms: u64)
    ensures s.Tick(ms).0.config == s.config && s.Tick(ms).0.isn == s.isn
    ensures s.Tick(ms).0.outstanding == s.outstanding
  {
  }

  /** Every event changes a sender as its book says. */
  lemma StepKept(b: Book, s: Sender, e: SenderEvent)
    requires s.Valid() && Kept(b, s)
    ensures Kept(Enter(b, s, e), StepSender(s, e))
    ensures StepSender(s, e).config == s.config && StepSender(s, e).isn == s.isn
  {
    hide Sender.Valid, Sender.Receive, Sender.Push, Sender.Tick, Interval, Stream.Push, Hear, Expires;
    match e
    case Write(data) =>
      OutboundValid(s);
      WriteKeepsError(s.outbound, data);
      StreamKept(b, s, s.(outbound := s.outbound.Push(data)));
    case Close => StreamKept(b, s, s.(outbound := s.outbound.Close()));
    case Push =>
      OutboundValid(s);
      PushKeepsRest(s);
      PushKept(b, s);
    case Receive(m) =>
      ReceiveKept(b, s, m);
      ReceiveKeepsConfig(s, m);
    case Tick(ms) =>
      TickKept(b, s, ms);
      TickKeepsConfig(s, ms);
  }

  lemma StepCapped(s: Sender, e: SenderEvent)
    requires s.Valid() && Capped(s)
    ensures Capped(StepSender(s, e))
  {
    hide Sender.Valid, Sender.Push, Stream.Push, Unwrap, Discard;
    match e
    case Write(data) => OutboundValid(s);
    case Close =>
    case Push => PushKeepsCap(s);
    case Receive(m) =>
      if !m.rst && m.ackno.Some? {
        DiscardKeepsCap(s.outstanding, Unwrap(m.ackno.value, s.isn, s.nxt), s.isn, s.config.maxPayload);
      }
    case Tick(ms) => TickKeepsConfig(s, ms);
  }

  lemma {:induction false} RunKept(b: Book, s: Sender, events: seq<SenderEvent>)
    requires s.Valid() && Kept(b, s) && Capped(s)
    ensures Kept(RunBook(b, s, events), RunSender(s, events))
    ensures Capped(RunSender(s, events)) && RunSender(s, events).config == s.config
    decreases |events|
  {
    hide Kept, Capped, Sender.Valid, StepSender, Enter;
    if events != [] {
      StepKept(b, s, events[0]);
      StepCapped(s, events[0]);
      RunKept(Enter(b, s, events[0]), StepSender(s, events[0]), events[1..]);
    }
  }

  lemma NewSenderKept(capacity: nat, isn: u32, config: Config)
    requires config.Valid()
    ensures Kept(NEW_BOOK, NewSender(capacity, isn, config)) && Capped(NewSender(capacity, isn, config))
  {
    hide Interval;
    FirstInterval(config);
  }

  /** In every reachable state, resets included: the outstanding segments tile the range from SND.UNA
      to SND.NXT with the stream's own contents and are no larger than the limit, SND.NXT counts SYN,
      the bytes taken and FIN, no more than a 16-bit window is in flight, and the timer runs exactly
      while something is outstanding, in the mode that the window asks for. */
  lemma ReachableSender(capacity: nat, isn: u32, config: Config, events: seq<SenderEvent>)
    requires config.Valid()
    ensures NewSender(capacity, isn, config).Valid()
    ensures var s := RunSender(NewSender(capacity, isn, config), events);
            && Tiles(s.outstanding, s.una, s.nxt, s.isn, s.outbound.written)
            && (forall k :: 0 <= k < |s.outstanding| ==> |s.outstanding[k].message.payload| <= config.maxPayload)
            && s.nxt == (if s.synSent then 1 else 0) + s.outbound.popped + (if s.finSent then 1 else 0)
            && s.una <= s.nxt <= s.una + U16_MAX
            && (s.timer.running <==> s.outstanding != [])
            && (s.timer.running ==> s.timer.mode == Some(if s.window == 0 then Persist else Retransmission))
            && (s.timer.running ==> s.timer.timeout == if s.window == 0 then s.persist else s.rto)
            && s.rto == Min(config.initialRto * Pow2(s.consecutive), config.maxInterval)
  {
    NewSenderValid(capacity, isn, config);
    NewSenderKept(capacity, isn, config);
    hide Tiles, Flatten, Pow2, RunSender, Kept;
    RunKept(NEW_BOOK, NewSender(capacity, isn, config), events);
  }

  /** In every reachable state the left edge and the window are what was last heard of, and the timers
      follow what happened: both timeouts are doubled once for every expiry of their kind since the
      last acknowledgement of something new, the count is that of retransmissions, and the next tick
      resends the front segment exactly when the time since the timer was started comes to the timeout. */
  lemma TimersFollowTheBook(capacity: nat, isn: u32, config: Config, events: seq<SenderEvent>, ms: u64)
    requires config.Valid()
    ensures NewSender(capacity, isn, config).Valid()
    ensures var s := RunSender(NewSender(capacity, isn, config), events);
            var b := RunBook(NEW_BOOK, NewSender(capacity, isn, config), events);
            && s.una == b.una && s.window == b.window && s.outbound.error == b.aborted
            && s.consecutive == Min(b.retransmissions, U64_MAX)
            && s.rto == Min(config.initialRto * Pow2(b.retransmissions), config.maxInterval)
            && s.persist == Min(config.initialRto * Pow2(b.probes), config.maxInterval)
            && s.Tick(ms).1
               == if s.outstanding != [] && b.waited + ms >= (if b.window == 0 then s.persist else s.rto)
                  then [s.outstanding[0].message] else []
  {
    NewSenderValid(capacity, isn, config);
    NewSenderKept(capacity, isn, config);
    hide Tiles, Flatten, Pow2, RunSender, RunBook, Sender.Tick, Sender.Valid;
    RunKept(NEW_BOOK, NewSender(capacity, isn, config), events);
    TickKept(RunBook(NEW_BOOK, NewSender(capacity, isn, config), events), RunSender(NewSender(capacity, isn, config), events), ms);
  }

  /** An expiry with an open window counts and doubles the retransmission timeout, and with a closed
      window only the probing one; both up to the bound. */
  lemma ExpiryBacksOff(s: Sender, ms: u64)
    requires s.Valid() && s.outstanding != [] && s.timer.elapsed + ms >= s.timer.timeout
    ensures var t := s.Tick(ms).0;
            && s.Tick(ms).1 == [s.outstanding[0].message]
            && t.timer.elapsed == 0
            && (s.window > 0 ==>
                  && t.consecutive == Min(s.consecutive + 1, U64_MAX)
                  && t.rto == Min(2 * s.rto, s.config.maxInterval) == t.timer.timeout
                  && t.persist == s.persist)
            && (s.window == 0 ==>
                  && t.persist == Min(2 * s.persist, s.config.maxInterval) == t.timer.timeout
                  && t.rto == s.rto && t.consecutive == s.consecutive)
  {
    hide Tiles, Flatten, Sender.Counted, Pow2;
  }

  function Sum(ticks: seq<u64>): (ms: nat) {
    if ticks == [] then 0 else ticks[0] + Sum(ticks[1..])
  }

  function RunTicks(s: Sender, ticks: seq<u64>): (result: (Sender, seq<SenderMessage>))
    decreases |ticks|
  {
    if ticks == [] then (s, [])
    else
      var (t, sent) := s.Tick(ticks[0]);
      var (u, rest) := RunTicks(t, ticks[1..]);
      (u, sent + rest)
  }

  /** However time is cut into ticks, nothing is sent while they add up to less than what is left of the
      timeout, and the tick that completes it resends the front segment. */
  lemma {:induction false} QuietUntilTimeout(s: Sender, ticks: seq<u64>, last: u64)
    requires s.Valid() && s.outstanding != [] && s.timer.elapsed + Sum(ticks) < s.timer.timeout
    ensures RunTicks(s, ticks).1 == []
    ensures var t := RunTicks(s, ticks).0;
            && t == s.(timer := s.timer.(elapsed := s.timer.elapsed + Sum(ticks)))
            && t.Tick(last).1
               == if s.timer.elapsed + Sum(ticks) + last >= s.timer.timeout then [s.outstanding[0].message] else []
    decreases |ticks|
  {
    hide Tiles, Flatten, Sender.Counted, Pow2;
    if ticks != [] {
      TickKeepsValid(s, ticks[0]);
      QuietUntilTimeout(s.Tick(ticks[0]).0, ticks[1..], last);
    }
  }
}
