/** The send side as a value: segmentation, the queue of outstanding segments, and the timer
    (sections 3.8.1 and 3.8.6 of RFC 9293; section 5 of RFC 6298). */
module SenderSpecs {
  import opened Words
  import opened Wrap32
  import opened ByteStreams
  import opened TcpMessages

  datatype Config = Config(initialRto: u64, maxInterval: u64, maxPayload: nat) {
    predicate Valid() {
      0 < initialRto <= maxInterval && maxPayload > 0
    }

    /** The interval doubled, within 64 bits and up to the bound. */
    function BackedOff(interval: u64): (longer: u64) {
      Min(Min(interval * 2, U64_MAX), maxInterval)
    }
  }

  datatype TimerMode = Retransmission | Persist

  datatype TimerState = TimerState(running: bool, elapsed: u64, timeout: u64, mode: Option<TimerMode>) {
    function Tick(ms: u64): (after: TimerState) {
      if running then this.(elapsed := SaturatingAdd(elapsed, ms)) else this
    }

    predicate Expired() {
      running && elapsed >= timeout
    }
  }

  const STOPPED: TimerState := TimerState(false, 0, 0, None)

  function Started(timeout: u64, mode: TimerMode): (timer: TimerState) {
    TimerState(true, 0, timeout, Some(mode))
  }

  /** A transmitted segment with the absolute position it starts at. */
  datatype Outstanding = Outstanding(start: nat, message: SenderMessage) {
    function End(): (end: nat) {
      start + message.SequenceLength()
    }

    /** The segment without its first `n` positions: SYN goes first, then bytes, then FIN. */
    function Trim(n: nat, isn: u32): (left: Outstanding) {
      var lead := if message.syn && n > 0 then 1 else 0;
      var drop := Min(n - lead, |message.payload|);
      var fin := message.fin && n - lead - drop == 0;
      Outstanding(start + n,
        SenderMessage(Wrap(start + n, isn), message.syn && lead == 0, message.payload[drop..], fin, message.rst))
    }
  }

  /** Drops what lies wholly below `una`, and the part of the new front that does. */
  function Discard(queue: seq<Outstanding>, una: nat, isn: u32): (left: seq<Outstanding>) {
    if queue == [] then []
    else if queue[0].End() <= una then Discard(queue[1..], una, isn)
    else if queue[0].start < una then [queue[0].Trim(una - queue[0].start, isn)] + queue[1..]
    else queue
  }

  /** The segments of the queue lie end to end from `lo` to `hi`, none is empty, and each carries
      its part of the stream. */
  ghost predicate Tiles(queue: seq<Outstanding>, lo: nat, hi: nat, isn: u32, written: seq<byte>) {
    if queue == [] then lo == hi
    else
      && queue[0].start == lo
      && queue[0].message.SequenceLength() > 0
      && Carries(queue[0].message, lo, isn, written)
      && Tiles(queue[1..], queue[0].End(), hi, isn, written)
  }

  datatype Sender = Sender(
    outbound: Stream,
    isn: u32,
    una: nat,
    nxt: nat,
    window: u16,
    outstanding: seq<Outstanding>,
    synSent: bool,
    finSent: bool,
    config: Config,
    rto: u64,
    persist: u64,
    timer: TimerState,
    consecutive: u64)
  {
    function InFlight(): (count: int) {
      nxt - una
    }

    /** A closed window still admits one position, as a probe. */
    function Effective(): (size: nat) {
      Max(window, 1)
    }

    predicate Finished() {
      finSent && outstanding == []
    }

    function EmptyMessage(): (m: SenderMessage) {
      SenderMessage(Wrap(nxt, isn), false, [], false, outbound.error)
    }

    function PayloadBudget(): (budget: nat)
      requires InFlight() < Effective()
    {
      Min(Effective() - InFlight() - (if synSent then 0 else 1), config.maxPayload)
    }

    /** How much one segment asks of the outbound stream. */
    function Request(): (count: int)
      requires InFlight() < Effective()
    {
      Min(PayloadBudget(), outbound.Buffered())
    }

    function NextPayload(): (payload: seq<byte>)
      requires InFlight() < Effective() && outbound.Buffered() >= 0
    {
      outbound.Front(Request())
    }

    /** The next segment that fits the window; empty when there is nothing to send. */
    function NextMessage(): (m: SenderMessage)
      requires InFlight() < Effective() && outbound.Buffered() >= 0
    {
      var room := Effective() - InFlight() - (if synSent then 0 else 1) - |NextPayload()|;
      var drained := outbound.closed && outbound.Buffered() == |NextPayload()|;
      EmptyMessage().(
        syn := !synSent,
        payload := NextPayload(),
        fin := !finSent && drained && room > 0)
    }

    function RestartTimer(): (after: Sender) {
      this.(timer :=
        if outstanding == [] then STOPPED
        else if window == 0 then Started(persist, Persist)
        else Started(rto, Retransmission))
    }

    /** The state once the next message has been sent and queued. */
    function Transmit(): (after: Sender)
      requires InFlight() < Effective() && outbound.Buffered() >= 0
    {
      var m := NextMessage();
      var s := this.(
        outbound := outbound.Pop(Request()),
        synSent := true,
        finSent := finSent || m.fin,
        nxt := nxt + m.SequenceLength(),
        outstanding := outstanding + [Outstanding(nxt, m)]);
      if outstanding == [] then s.RestartTimer() else s
    }

    /** Sends segments until the window is full or there is nothing left to send. */
    function Push(): (after: (Sender, seq<SenderMessage>))
      requires outbound.Valid()
      decreases Effective() - InFlight()
    {
      if InFlight() >= Effective() || NextMessage().SequenceLength() == 0 then (this, [])
      else
        PopTakesNext(outbound, Request());
        var (s, rest) := Transmit().Push();
        (s, [NextMessage()] + rest)
    }

    function Abort(): (after: Sender) {
      this.(outbound := outbound.SetError(), outstanding := [], una := nxt, timer := STOPPED)
    }

    /** An acknowledgement that moves the left edge. */
    function Advance(ack: nat): (after: Sender) {
      this.(
        una := ack,
        outstanding := Discard(outstanding, ack, isn),
        rto := config.initialRto,
        persist := config.initialRto,
        consecutive := 0)
    }

    function Receive(m: ReceiverMessage): (after: Sender) {
      if m.rst then Abort()
      else if m.ackno == None then
        var s := this.(window := m.window);
        if window != m.window && outstanding != [] then s.RestartTimer() else s
      else
        var ack := Unwrap(m.ackno.value, isn, nxt);
        if ack > nxt then this
        else
          var s := this.(window := m.window);
          var t := if ack > una then s.Advance(ack) else s;
          if t.outstanding == [] || ack > una || window != m.window then t.RestartTimer() else t
    }

    /** Lets time pass; an expired timer resends the oldest outstanding segment. */
    function Tick(ms: u64): (after: (Sender, seq<SenderMessage>)) {
      var s := this.(timer := timer.Tick(ms));
      if !s.timer.Expired() then (s, [])
      else if outstanding == [] then (s.(timer := STOPPED), [])
      else
        var backed :=
          if window == 0 then s.(persist := config.BackedOff(persist))
          else s.(consecutive := SaturatingAdd(consecutive, 1), rto := config.BackedOff(rto));
        (backed.RestartTimer(), [outstanding[0].message])
    }

    /** What has been sent is accounted for: SYN, the bytes taken from the stream, and FIN. */
    ghost predicate Counted() {
      && nxt == (if synSent then 1 else 0) + outbound.popped + (if finSent then 1 else 0)
      && (!synSent ==> outbound.popped == 0 && !finSent)
      && (finSent ==> outbound.closed && outbound.Buffered() == 0)
    }

    /** The timer runs exactly while something is outstanding, in the mode the window asks for and
        with that mode's interval. */
    ghost predicate TimerCoherent() {
      && (outstanding == [] ==> timer == STOPPED)
      && (outstanding != [] ==>
            && timer.running
            && timer.mode == Some(if window == 0 then Persist else Retransmission)
            && timer.timeout == (if window == 0 then persist else rto))
    }

    /** Retransmissions double the timeout up to its bound. */
    ghost predicate IntervalsCoherent() {
      && config.Valid()
      && rto == Min(config.initialRto * Pow2(consecutive), config.maxInterval)
      && config.initialRto <= persist <= config.maxInterval
    }

    ghost predicate Valid() {
      && outbound.Valid()
      && una <= nxt <= una + U16_MAX
      && Counted()
      && Tiles(outstanding, una, nxt, isn, outbound.written)
      && TimerCoherent()
      && IntervalsCoherent()
    }
  }

  function NewSender(capacity: nat, isn: u32, config: Config): (s: Sender) {
    Sender(Empty(capacity), isn, 0, 0, 1, [], false, false, config,
           config.initialRto, config.initialRto, STOPPED, 0)
  }
}
