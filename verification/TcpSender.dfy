/** The send side as the program keeps it, proved to refine the sender value. */
module TcpSenders {
  import opened Words
  import opened Wrap32
  import opened ByteStreams
  import opened TcpMessages
  import opened SenderSpecs
  import opened SenderFacts

  /** A timer driven by ticks. */
  class Timer {
    var running: bool
    var elapsed: u64
    var timeout: u64
    var mode: Option<TimerMode>

    ghost function Model(): (model: TimerState)
      reads this
    {
      TimerState(running, elapsed, timeout, mode)
    }

    constructor ()
      ensures Model() == STOPPED
    {
      running, elapsed, timeout, mode := false, 0, 0, None;
    }

    method Restart(timeout: u64, mode: TimerMode)
      modifies this
      ensures Model() == Started(timeout, mode)
    {
      running, elapsed, this.timeout, this.mode := true, 0, timeout, Some(mode);
    }

    method Stop()
      modifies this
      ensures Model() == STOPPED
    {
      running, elapsed, timeout, mode := false, 0, 0, None;
    }

    method Tick(ms: u64) returns (expired: bool)
      modifies this
      ensures Model() == old(Model()).Tick(ms)
      ensures expired == Model().Expired()
    {
      if !running {
        return false;
      }
      elapsed := SaturatingAdd(elapsed, ms);
      expired := elapsed >= timeout;
    }
  }

  class TcpSender {
    const outbound: ByteStream
    const isn: u32
    const config: Config
    const timer: Timer
    var sndUna: nat
    var sndNxt: nat
    var advertisedWindow: u16
    var outstanding: seq<Outstanding>
    var synSent: bool
    var finSent: bool
    var currentRto: u64
    var persistInterval: u64
    var consecutiveRetransmissions: u64

    ghost function Model(): (model: Sender)
      reads this, outbound, timer
    {
      Sender(outbound.Model(), isn, sndUna, sndNxt, advertisedWindow, outstanding, synSent, finSent,
             config, currentRto, persistInterval, timer.Model(), consecutiveRetransmissions)
    }

    ghost predicate Valid()
      reads this, outbound, timer
    {
      outbound.Valid() && Model().Valid()
    }

    constructor (capacity: nat, isn: u32, config: Config)
      requires config.Valid()
      ensures Valid() && fresh(outbound) && fresh(timer)
      ensures Model() == NewSender(capacity, isn, config)
    {
      NewSenderValid(capacity, isn, config);
      outbound := new ByteStream(capacity);
      this.isn, this.config := isn, config;
      sndUna, sndNxt, advertisedWindow, outstanding := 0, 0, 1, [];
      synSent, finSent := false, false;
      currentRto, persistInterval := config.initialRto, config.initialRto;
      timer := new Timer();
      consecutiveRetransmissions := 0;
    }

    method Push() returns (sent: seq<SenderMessage>)
      requires Valid()
      modifies this, outbound, timer
      ensures Valid()
      ensures (Model(), sent) == old(Model()).Push()
    {
      hide Sender.Valid, Sender.NextMessage, Sender.Transmit, Flatten;
      PushValid(Model());
      sent := [];
      var effective := Max(advertisedWindow, 1);
      while sndNxt - sndUna < effective
        invariant Valid()
        invariant effective == Model().Effective()
        invariant Model().Push().0 == old(Model()).Push().0
        invariant sent + Model().Push().1 == old(Model()).Push().1
        decreases effective - (sndNxt - sndUna)
      {
        ghost var before := Model();
        var message := TransmitNext();
        if message.SequenceLength() == 0 {
          break;
        }
        TransmitValid(before);
        TransmitMoves(before);
        assert [message] + Model().Push().1 == before.Push().1;
        sent := sent + [message];
      }
      assert Model().Push() == (Model(), []);
      assert sent + [] == sent;
    }

    /** One turn of the sending loop: builds the next segment and, unless it is empty, queues it. */
    method TransmitNext() returns (message: SenderMessage)
      requires outbound.Valid() && Model().InFlight() < Model().Effective()
      modifies this, outbound, timer
      ensures outbound.Valid()
      ensures message == old(Model()).NextMessage()
      ensures Model() == if message.SequenceLength() == 0 then old(Model()) else old(Model()).Transmit()
    {
      hide Stream.Pop, Stream.Front, Sender.NextMessage, Flatten;
      EmptyMessageMeans(Model());
      message := BuildNext();
      if message.SequenceLength() > 0 {
        TrackAndTransmit(message);
      }
    }

    method BuildNext() returns (message: SenderMessage)
      requires outbound.Valid() && Model().InFlight() < Model().Effective()
      modifies this`synSent, this`finSent, outbound
      ensures outbound.Valid()
      ensures message == old(Model()).NextMessage()
      ensures Model() == old(Model()).(
        outbound := old(Model()).outbound.Pop(old(Model()).Request()),
        synSent := true,
        finSent := old(finSent) || message.fin)
    {
      hide Stream.Pop, Stream.Front, Flatten;
      PopTakesNext(outbound.Model(), Model().Request());
      message := MakeEmptyMessage();
      var remaining := Max(advertisedWindow, 1) - (sndNxt - sndUna);
      if !synSent {
        message := message.(syn := true);
        synSent := true;
        remaining := remaining - 1;
      }
      var payload := ReadOutboundPayload(Min(remaining, config.maxPayload));
      message := message.(payload := payload);
      remaining := remaining - |payload|;
      if !finSent && outbound.closed && outbound.bytesBuffered == 0 && remaining > 0 {
        message := message.(fin := true);
        finSent := true;
      }
    }

    method MakeEmptyMessage() returns (message: SenderMessage)
      ensures message == Model().EmptyMessage()
    {
      message := SenderMessage(Wrap(sndNxt, isn), false, [], false, outbound.error);
    }

    method ReadOutboundPayload(maxLen: nat) returns (payload: seq<byte>)
      requires outbound.Valid()
      modifies outbound
      ensures outbound.Valid()
      ensures var s, n := old(outbound.Model()), Min(maxLen, old(outbound.Model()).Buffered());
              outbound.Model() == s.Pop(n) && payload == s.Front(n)
    {
      if maxLen == 0 {
        return [];
      }
      payload := outbound.Pop(Min(maxLen, outbound.bytesBuffered));
    }

    method TrackAndTransmit(message: SenderMessage)
      modifies this, timer
      ensures Model() == (
        var s := old(Model()).(nxt := old(sndNxt) + message.SequenceLength(),
                               outstanding := old(outstanding) + [Outstanding(old(sndNxt), message)]);
        if old(outstanding) == [] then s.RestartTimer() else s)
    {
      var start := sndNxt;
      sndNxt := sndNxt + message.SequenceLength();
      var shouldStartTimer := outstanding == [];
      outstanding := outstanding + [Outstanding(start, message)];
      if shouldStartTimer {
        RestartTimerForCurrentWindow();
      }
    }

    method RestartTimerForCurrentWindow()
      modifies timer
      ensures Model() == old(Model()).RestartTimer()
    {
      if outstanding == [] {
        timer.Stop();
      } else if advertisedWindow == 0 {
        timer.Restart(persistInterval, Persist);
      } else {
        timer.Restart(currentRto, Retransmission);
      }
    }

    method Receive(message: ReceiverMessage)
      requires Valid()
      modifies this, outbound, timer
      ensures Valid()
      ensures Model() == old(Model()).Receive(message)
    {
      hide Sender.Valid, Unwrap, Discard, Flatten;
      ReceiveKeepsValid(Model(), message);
      if message.rst {
        Abort();
        return;
      }
      if message.ackno == None {
        var changed := advertisedWindow != message.window;
        advertisedWindow := message.window;
        if changed && outstanding != [] {
          RestartTimerForCurrentWindow();
        }
        return;
      }
      var ack := Unwrap(message.ackno.value, isn, sndNxt);
      if ack > sndNxt {
        return;
      }
      var windowChanged := advertisedWindow != message.window;
      advertisedWindow := message.window;
      var ackAdvanced := ack > sndUna;
      if ackAdvanced {
        sndUna := ack;
        DiscardAcknowledgedPrefix();
        currentRto := config.initialRto;
        persistInterval := config.initialRto;
        consecutiveRetransmissions := 0;
      }
      if outstanding == [] {
        timer.Stop();
      } else if ackAdvanced || windowChanged {
        RestartTimerForCurrentWindow();
      }
    }

    method DiscardAcknowledgedPrefix()
      modifies this`outstanding
      ensures outstanding == Discard(old(outstanding), sndUna, isn)
    {
      while outstanding != [] && outstanding[0].End() <= sndUna
        invariant Discard(outstanding, sndUna, isn) == Discard(old(outstanding), sndUna, isn)
        decreases |outstanding|
      {
        outstanding := outstanding[1..];
      }
      if outstanding != [] && outstanding[0].start < sndUna {
        var front := TrimPrefix(outstanding[0], sndUna - outstanding[0].start, isn);
        outstanding := [front] + outstanding[1..];
      }
    }

    /** Consumes SYN, payload bytes and FIN, in that order. */
    static method TrimPrefix(segment: Outstanding, acknowledged: nat, isn: u32) returns (left: Outstanding)
      requires acknowledged < segment.message.SequenceLength()
      ensures left == segment.Trim(acknowledged, isn)
    {
      var remaining := acknowledged;
      var message := segment.message;
      if message.syn && remaining > 0 {
        message := message.(syn := false);
        remaining := remaining - 1;
      }
      var payloadToDrop := Min(remaining, |message.payload|);
      if payloadToDrop > 0 {
        message := message.(payload := message.payload[payloadToDrop..]);
        remaining := remaining - payloadToDrop;
      }
      if message.fin && remaining > 0 {
        message := message.(fin := false);
        remaining := remaining - 1;
      }
      left := Outstanding(segment.start + acknowledged,
                          message.(seqno := Wrap(segment.start + acknowledged, isn)));
    }

    method Tick(ms: u64) returns (sent: seq<SenderMessage>)
      requires Valid()
      modifies this, timer
      ensures Valid()
      ensures (Model(), sent) == old(Model()).Tick(ms)
    {
      hide Sender.Valid, Flatten;
      TickKeepsValid(Model(), ms);
      var expired := timer.Tick(ms);
      if !expired {
        return [];
      }
      if outstanding == [] {
        timer.Stop();
        return [];
      }
      sent := [outstanding[0].message];
      if advertisedWindow == 0 {
        persistInterval := config.BackedOff(persistInterval);
      } else {
        consecutiveRetransmissions := SaturatingAdd(consecutiveRetransmissions, 1);
        currentRto := config.BackedOff(currentRto);
      }
      RestartTimerForCurrentWindow();
    }

    method Abort()
      requires outbound.Valid()
      modifies this, outbound, timer
      ensures outbound.Valid()
      ensures Model() == old(Model()).Abort()
    {
      outbound.SetError();
      outstanding := [];
      sndUna := sndNxt;
      timer.Stop();
    }
  }
}
