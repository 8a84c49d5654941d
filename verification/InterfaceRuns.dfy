/** Whole runs of an interface: how often it asks for an address, and what becomes of every
    datagram it is given. */
module InterfaceRuns {
  import opened Words
  import opened Checksums
  import opened Ipv4Datagrams
  import opened InterfaceSpecs

  datatype Operation =
    | Send(datagram: Datagram, hop: Address)
    | Receive(frame: Frame)
    | Tick(ms: u64)
    | PopFrame
    | PopDatagram

  function Apply(i: Interface, op: Operation): (after: Interface) {
    match op
    case Send(d, hop) => i.Send(d, hop)
    case Receive(frame) => i.Receive(frame)
    case Tick(ms) => i.Tick(ms)
    case PopFrame => i.PopFrame()
    case PopDatagram => i.PopDatagram()
  }

  /** The next hop whose address an operation teaches the interface. */
  function Learned(i: Interface, op: Operation): (address: Option<Address>) {
    if op.Receive? && i.IsFor(op.frame) && op.frame.content.Arp?
    then Some(op.frame.content.message.senderIp) else None
  }

  /** The datagrams an operation hands over for `hop`. */
  function Given(op: Operation, hop: Address): (ds: seq<Datagram>) {
    if op.Send? && op.hop == hop then [op.datagram] else []
  }

  /** The datagrams for `hop` that an operation puts into frames. */
  function Emits(i: Interface, op: Operation, hop: Address): (ds: seq<Datagram>) {
    if op.Send? && op.hop == hop && hop in i.cache then [op.datagram]
    else if Learned(i, op) == Some(hop) then i.Waiting(hop)
    else []
  }

  /** The datagrams for `hop` that an operation gives up. */
  function Drops(i: Interface, op: Operation, hop: Address): (ds: seq<Datagram>) {
    if op.Tick? && hop in i.pending && i.pending[hop].Tick(op.ms).Expired() then i.Waiting(hop) else []
  }

  predicate Asks(i: Interface, op: Operation, hop: Address) {
    op.Send? && op.hop == hop && hop !in i.cache && i.Resolution(hop).ShouldRequest()
  }

  datatype Settled = Settled(datagram: Datagram, emitted: bool)

  function SettleAll(ds: seq<Datagram>, emitted: bool): (settled: seq<Settled>)
    ensures |settled| == |ds|
    ensures forall k :: 0 <= k < |ds| ==> settled[k] == Settled(ds[k], emitted)
  {
    seq(|ds|, k requires 0 <= k < |ds| => Settled(ds[k], emitted))
  }

  /** The datagrams of settled entries, in order. */
  function Datagrams(settled: seq<Settled>): (ds: seq<Datagram>)
    ensures |ds| == |settled|
    ensures forall k :: 0 <= k < |ds| ==> ds[k] == settled[k].datagram
  {
    seq(|settled|, k requires 0 <= k < |settled| => settled[k].datagram)
  }

  /** The book kept about one next hop: what was sent to it, what became of it, and when its
      address was asked for. */
  datatype Ledger = Ledger(hop: Address, now: nat, sent: seq<Datagram>, settled: seq<Settled>, requests: seq<nat>)

  function Record(l: Ledger, i: Interface, op: Operation): (after: Ledger) {
    Ledger(
      l.hop,
      l.now + (if op.Tick? then op.ms else 0),
      l.sent + Given(op, l.hop),
      l.settled + SettleAll(Emits(i, op, l.hop), true) + SettleAll(Drops(i, op, l.hop), false),
      l.requests + (if Asks(i, op, l.hop) then [l.now] else []))
  }

  function RunInterface(i: Interface, ops: seq<Operation>): (after: Interface)
    decreases |ops|
  {
    if ops == [] then i else RunInterface(Apply(i, ops[0]), ops[1..])
  }

  function RunLedger(l: Ledger, i: Interface, ops: seq<Operation>): (after: Ledger)
    decreases |ops|
  {
    if ops == [] then l else RunLedger(Record(l, i, ops[0]), Apply(i, ops[0]), ops[1..])
  }

  /** No next hop is both resolved and being resolved, and whatever waits has been asked for. */
  ghost predicate Valid(i: Interface) {
    && i.cache.Keys !! i.pending.Keys
    && forall hop :: hop in i.pending ==>
         i.pending[hop].age == i.pending[hop].requestAge < PENDING_TTL_MS
  }

  lemma ApplyKeepsValid(i: Interface, op: Operation)
    requires Valid(i)
    ensures Valid(Apply(i, op))
  {
    hide ParseIpv4, Ipv4Frames;
  }

  /** The queue for `hop` is as old as `last`, its cache entry no older, and without either the
      cooldown has passed. */
  predicate Cooling(i: Interface, hop: Address, last: nat, now: nat) {
    && last <= now
    && (hop in i.pending ==> last + i.pending[hop].age == now)
    && (hop in i.cache ==> last + i.cache[hop].age <= now)
    && (hop !in i.pending && hop !in i.cache ==> last + REQUEST_COOLDOWN_MS <= now)
  }

  predicate Spaced(requests: seq<nat>) {
    forall j, k :: 0 <= j < k < |requests| ==> requests[j] + REQUEST_COOLDOWN_MS <= requests[k]
  }

  /** Requests for the hop are spaced, and its entries are no older than the last request. */
  predicate Paced(l: Ledger, i: Interface) {
    && Spaced(l.requests)
    && (l.hop in i.pending ==> l.requests != [])
    && (l.requests != [] ==> Cooling(i, l.hop, l.requests[|l.requests| - 1], l.now))
  }

  lemma SendCools(i: Interface, op: Operation, hop: Address, last: nat, now: nat)
    requires Valid(i) && op.Send? && (Asks(i, op, hop) ==> last == now)
    requires Asks(i, op, hop) || Cooling(i, hop, last, now)
    ensures Cooling(Apply(i, op), hop, last, now)
  {
    hide ParseIpv4, Ipv4Frame;
  }

  lemma ReceiveCools(i: Interface, op: Operation, hop: Address, last: nat, now: nat)
    requires op.Receive? && Cooling(i, hop, last, now)
    ensures Cooling(Apply(i, op), hop, last, now)
  {
    hide ParseIpv4, Ipv4Frames;
  }

  lemma TickCools(i: Interface, op: Operation, hop: Address, last: nat, now: nat)
    requires Valid(i) && op.Tick? && Cooling(i, hop, last, now)
    ensures Cooling(Apply(i, op), hop, last, now + op.ms)
  {
  }

  lemma AsksWhenCool(i: Interface, op: Operation, hop: Address, last: nat, now: nat)
    requires Valid(i) && Asks(i, op, hop) && Cooling(i, hop, last, now)
    ensures last + REQUEST_COOLDOWN_MS <= now
  {
  }

  lemma PendingWasAskedFor(i: Interface, op: Operation, hop: Address)
    requires Valid(i) && hop in Apply(i, op).pending
    ensures hop in i.pending || Asks(i, op, hop)
  {
    hide ParseIpv4, Ipv4Frames, Ipv4Frame;
  }

  lemma RecordPaced(l: Ledger, i: Interface, op: Operation)
    requires Valid(i) && Paced(l, i)
    ensures Paced(Record(l, i, op), Apply(i, op))
  {
    hide Valid, Apply, Asks, Cooling, SettleAll, Emits, Drops, Given;
    var after := Record(l, i, op);
    if l.hop in Apply(i, op).pending {
      PendingWasAskedFor(i, op, l.hop);
    }
    if l.requests != [] && Asks(i, op, l.hop) {
      AsksWhenCool(i, op, l.hop, l.requests[|l.requests| - 1], l.now);
    }
    if after.requests != [] {
      CoolingAfter(i, op, l.hop, after.requests[|after.requests| - 1], l.now);
    }
  }

  lemma CoolingAfter(i: Interface, op: Operation, hop: Address, last: nat, now: nat)
    requires Valid(i) && (Asks(i, op, hop) ==> last == now)
    requires Asks(i, op, hop) || Cooling(i, hop, last, now)
    ensures Cooling(Apply(i, op), hop, last, now + (if op.Tick? then op.ms else 0))
  {
    hide Valid, Interface.Receive, Interface.Send, Interface.Tick;
    match op
    case Send(_, _) => SendCools(i, op, hop, last, now);
    case Receive(_) => ReceiveCools(i, op, hop, last, now);
    case Tick(_) => TickCools(i, op, hop, last, now);
    case PopFrame =>
    case PopDatagram =>
  }

  /** Everything sent has been settled, in the order it was sent, or is still waiting. */
  predicate Balanced(l: Ledger, i: Interface) {
    l.sent == Datagrams(l.settled) + i.Waiting(l.hop)
  }

  lemma DatagramsAppend(a: seq<Settled>, b: seq<Settled>)
    ensures Datagrams(a + b) == Datagrams(a) + Datagrams(b)
  {
  }

  lemma DatagramsOfSettled(ds: seq<Datagram>, emitted: bool)
    ensures Datagrams(SettleAll(ds, emitted)) == ds
  {
  }

  lemma WaitingAfter(i: Interface, op: Operation, hop: Address)
    requires Valid(i)
    ensures i.Waiting(hop) + Given(op, hop)
         == Emits(i, op, hop) + (Drops(i, op, hop) + Apply(i, op).Waiting(hop))
  {
    hide ParseIpv4, Ipv4Frames, Ipv4Frame;
    match op
    case Send(_, _) =>
    case Receive(_) =>
    case Tick(_) =>
    case PopFrame =>
    case PopDatagram =>
  }

  lemma RecordBalanced(l: Ledger, i: Interface, op: Operation)
    requires Valid(i) && Balanced(l, i)
    ensures Balanced(Record(l, i, op), Apply(i, op))
  {
    hide Valid, Apply, Emits, Drops, Given, SettleAll, Datagrams, Interface.Waiting;
    var emitted, dropped := Emits(i, op, l.hop), Drops(i, op, l.hop);
    var settled, left := Datagrams(l.settled), Apply(i, op).Waiting(l.hop);
    DatagramsOfSettled(emitted, true);
    DatagramsOfSettled(dropped, false);
    DatagramsAppend(l.settled, SettleAll(emitted, true));
    DatagramsAppend(l.settled + SettleAll(emitted, true), SettleAll(dropped, false));
    calc {
      l.sent + Given(op, l.hop);
      settled + (i.Waiting(l.hop) + Given(op, l.hop));
      { WaitingAfter(i, op, l.hop); }
      settled + (emitted + (dropped + left));
      settled + emitted + dropped + left;
    }
  }

  /** In every run, however it mixes sending, learning, expiry and eviction, requests for a next
      hop are at least the cooldown apart, and what was sent is settled in order or waits. */
  lemma {:induction false} RunKeepsLedger(l: Ledger, i: Interface, ops: seq<Operation>)
    requires Valid(i) && Paced(l, i) && Balanced(l, i)
    ensures Valid(RunInterface(i, ops))
    ensures Paced(RunLedger(l, i, ops), RunInterface(i, ops))
    ensures Balanced(RunLedger(l, i, ops), RunInterface(i, ops))
    decreases |ops|
  {
    hide Valid, Paced, Balanced, Apply, Record;
    if ops != [] {
      ApplyKeepsValid(i, ops[0]);
      RecordPaced(l, i, ops[0]);
      RecordBalanced(l, i, ops[0]);
      RunKeepsLedger(Record(l, i, ops[0]), Apply(i, ops[0]), ops[1..]);
    }
  }

  /** Everything a run hands over for a next hop. */
  function AllGiven(ops: seq<Operation>, hop: Address): (ds: seq<Datagram>)
    decreases |ops|
  {
    if ops == [] then [] else Given(ops[0], hop) + AllGiven(ops[1..], hop)
  }

  lemma {:induction false} LedgerHasAllGiven(l: Ledger, i: Interface, ops: seq<Operation>)
    ensures RunLedger(l, i, ops).sent == l.sent + AllGiven(ops, l.hop)
    ensures RunLedger(l, i, ops).hop == l.hop
    decreases |ops|
  {
    hide Apply, Emits, Drops, Asks, Given, SettleAll;
    if ops != [] {
      LedgerHasAllGiven(Record(l, i, ops[0]), Apply(i, ops[0]), ops[1..]);
    }
  }

  function History(mac: EthernetAddress, ip: Address, hop: Address, ops: seq<Operation>): (ledger: Ledger) {
    RunLedger(Ledger(hop, 0, [], [], []), NewInterface(mac, ip), ops)
  }

  /** Any two requests for a next hop are at least the cooldown of ticked time apart. */
  lemma RequestsAreRateLimited(mac: EthernetAddress, ip: Address, hop: Address, ops: seq<Operation>)
    ensures var requests := History(mac, ip, hop, ops).requests;
            forall j, k :: 0 <= j < k < |requests| ==> requests[j] + 5_000 <= requests[k]
  {
    RunKeepsLedger(Ledger(hop, 0, [], [], []), NewInterface(mac, ip), ops);
  }

  /** Every datagram handed over for a next hop was put into a frame, expired or waits, each once
      and in the order they were handed over. */
  lemma DatagramsAreConserved(mac: EthernetAddress, ip: Address, hop: Address, ops: seq<Operation>)
    ensures AllGiven(ops, hop)
         == Datagrams(History(mac, ip, hop, ops).settled) + RunInterface(NewInterface(mac, ip), ops).Waiting(hop)
  {
    var l, i := Ledger(hop, 0, [], [], []), NewInterface(mac, ip);
    RunKeepsLedger(l, i, ops);
    LedgerHasAllGiven(l, i, ops);
  }

  /** Whatever still waits was asked for less than its time to wait ago. */
  lemma WaitingIsRecent(mac: EthernetAddress, ip: Address, hop: Address, ops: seq<Operation>)
    requires hop in RunInterface(NewInterface(mac, ip), ops).pending
    ensures var h := History(mac, ip, hop, ops);
            h.requests != [] && h.now < h.requests[|h.requests| - 1] + 5_000
  {
    var l, i := Ledger(hop, 0, [], [], []), NewInterface(mac, ip);
    RunKeepsLedger(l, i, ops);
    LedgerHasAllGiven(l, i, ops);
  }

  lemma {:induction false} RunOneMore(i: Interface, ops: seq<Operation>, op: Operation)
    ensures RunInterface(i, ops + [op]) == Apply(RunInterface(i, ops), op)
    decreases |ops|
  {
    hide Apply;
    if ops == [] {
      assert (ops + [op])[1..] == [];
    } else {
      assert (ops + [op])[1..] == ops[1..] + [op];
      RunOneMore(Apply(i, ops[0]), ops[1..], op);
    }
  }

  /** The Ethernet address an operation teaches for `hop` to an interface with address `mac`. */
  function Teaches(mac: EthernetAddress, op: Operation, hop: Address): (taught: Option<EthernetAddress>) {
    if op.Receive? && (op.frame.dst == mac || op.frame.dst == BROADCAST)
       && op.frame.content.Arp? && op.frame.content.message.senderIp == hop
    then Some(op.frame.content.message.senderMac) else None
  }

  datatype Lesson = Lesson(mac: EthernetAddress, elapsed: nat)

  /** What a run last taught about `hop`, and the time ticked since. */
  function LastLesson(mac: EthernetAddress, ops: seq<Operation>, hop: Address): (lesson: Option<Lesson>) {
    if ops == [] then None
    else
      var before, op := LastLesson(mac, ops[..|ops| - 1], hop), ops[|ops| - 1];
      var taught := Teaches(mac, op, hop);
      if taught.Some? then Some(Lesson(taught.value, 0))
      else if op.Tick? && before.Some? then Some(Lesson(before.value.mac, before.value.elapsed + op.ms))
      else before
  }

  /** Whether the cache has for `hop` what was last taught, for as long as that is fresh. */
  predicate Remembers(i: Interface, lesson: Option<Lesson>, hop: Address) {
    if lesson.Some? && lesson.value.elapsed < 30_000
    then hop in i.cache && i.cache[hop] == CacheEntry(lesson.value.mac, lesson.value.elapsed)
    else hop !in i.cache
  }

  lemma ApplyRemembers(i: Interface, op: Operation, before: Option<Lesson>, after: Option<Lesson>, hop: Address)
    requires Remembers(i, before, hop)
    requires var taught := Teaches(i.mac, op, hop);
             after == if taught.Some? then Some(Lesson(taught.value, 0))
                      else if op.Tick? && before.Some? then Some(Lesson(before.value.mac, before.value.elapsed + op.ms))
                      else before
    ensures Remembers(Apply(i, op), after, hop)
    ensures Apply(i, op).mac == i.mac
  {
    hide ParseIpv4, Ipv4Frames, Ipv4Frame;
  }

  /** The cache knows an address exactly while its last lesson is fresh, and knows that lesson. */
  lemma {:induction false} CacheHoldsTheLastLesson(mac: EthernetAddress, ip: Address, ops: seq<Operation>, hop: Address)
    ensures Remembers(RunInterface(NewInterface(mac, ip), ops), LastLesson(mac, ops, hop), hop)
    ensures RunInterface(NewInterface(mac, ip), ops).mac == mac
    decreases |ops|
  {
    hide Apply, Teaches, Remembers;
    if ops == [] {
      NothingRemembered(mac, ip, hop);
    } else {
      var front, op := ops[..|ops| - 1], ops[|ops| - 1];
      CacheHoldsTheLastLesson(mac, ip, front, hop);
      RunOneMore(NewInterface(mac, ip), front, op);
      assert front + [op] == ops;
      ApplyRemembers(
        RunInterface(NewInterface(mac, ip), front), op, LastLesson(mac, front, hop), LastLesson(mac, ops, hop), hop);
    }
  }

  lemma NothingRemembered(mac: EthernetAddress, ip: Address, hop: Address)
    ensures Remembers(NewInterface(mac, ip), None, hop)
  {
  }

  /** No next hop is both in the cache and waited for. */
  lemma NeverResolvedAndPending(mac: EthernetAddress, ip: Address, ops: seq<Operation>)
    ensures RunInterface(NewInterface(mac, ip), ops).cache.Keys !! RunInterface(NewInterface(mac, ip), ops).pending.Keys
  {
    RunKeepsLedger(Ledger(ip, 0, [], [], []), NewInterface(mac, ip), ops);
  }

  /** The frames an operation adds to the queue. */
  function Added(i: Interface, op: Operation): (frames: seq<Frame>) {
    if |i.framesOut| <= |Apply(i, op).framesOut| then Apply(i, op).framesOut[|i.framesOut|..] else []
  }

  /** The one next hop an operation can emit datagrams for. */
  function Subject(i: Interface, op: Operation): (hop: Option<Address>) {
    if op.Send? then Some(op.hop) else Learned(i, op)
  }

  /** The IPv4 frames among `frames`, in order. */
  function OnlyIpv4(frames: seq<Frame>): (kept: seq<Frame>) {
    if frames == [] then []
    else (if frames[0].content.Ipv4Bytes? then [frames[0]] else []) + OnlyIpv4(frames[1..])
  }

  lemma {:induction false} OnlyIpv4All(frames: seq<Frame>, rest: seq<Frame>)
    requires forall k :: 0 <= k < |frames| ==> frames[k].content.Ipv4Bytes?
    requires forall k :: 0 <= k < |rest| ==> !rest[k].content.Ipv4Bytes?
    ensures OnlyIpv4(frames + rest) == frames
  {
    if frames != [] {
      assert (frames + rest)[1..] == frames[1..] + rest;
      OnlyIpv4All(frames[1..], rest);
    } else if rest != [] {
      assert frames + rest == rest && rest[1..] == [] + rest[1..];
      OnlyIpv4All([], rest[1..]);
    }
  }

  /** Frames only join the end of the queue, and leave from its front. */
  lemma QueueIsFifo(i: Interface, op: Operation)
    ensures op.PopFrame? && i.framesOut != [] ==> [i.framesOut[0]] + Apply(i, op).framesOut == i.framesOut
    ensures !op.PopFrame? ==> Apply(i, op).framesOut == i.framesOut + Added(i, op)
  {
    hide ParseIpv4, Ipv4Frames, Ipv4Frame;
  }

  /** What the book calls emitted is exactly what goes into IPv4 frames, in order, addressed to what
      the cache has for the hop; for every other hop nothing is emitted. */
  lemma EmissionsAreFrames(i: Interface, op: Operation)
    ensures Subject(i, op).None? ==> OnlyIpv4(Added(i, op)) == []
    ensures Subject(i, op).Some? ==>
              var hop := Subject(i, op).value;
              var ds := Emits(i, op, hop);
              && (ds != [] ==> hop in Apply(i, op).cache)
              && |OnlyIpv4(Added(i, op))| == |ds|
              && forall k :: 0 <= k < |ds| ==> OnlyIpv4(Added(i, op))[k] == Ipv4Frame(Apply(i, op).cache[hop].mac, i.mac, ds[k])
    ensures forall hop :: Some(hop) != Subject(i, op) ==> Emits(i, op, hop) == []
  {
    match op
    case Send(_, _) => SendEmissionsAreFrames(i, op);
    case Receive(_) => if Learned(i, op).Some? { ReceiveEmissionsAreFrames(i, op); }
    case Tick(_) =>
    case PopFrame =>
    case PopDatagram =>
  }

  lemma SendEmissionsAreFrames(i: Interface, op: Operation)
    requires op.Send?
    ensures var ds := Emits(i, op, op.hop);
            && (ds != [] ==> op.hop in Apply(i, op).cache)
            && |OnlyIpv4(Added(i, op))| == |ds|
            && forall k :: 0 <= k < |ds| ==> OnlyIpv4(Added(i, op))[k] == Ipv4Frame(Apply(i, op).cache[op.hop].mac, i.mac, ds[k])
  {
    hide Ipv4Serialized;
    if op.hop in i.cache {
      assert Added(i, op) == [Ipv4Frame(i.cache[op.hop].mac, i.mac, op.datagram)];
    } else if Asks(i, op, op.hop) {
      assert Added(i, op) == [i.Request(op.hop)];
    }
  }

  lemma ReceiveEmissionsAreFrames(i: Interface, op: Operation)
    requires op.Receive? && Learned(i, op).Some?
    ensures var hop := Learned(i, op).value;
            var ds := Emits(i, op, hop);
            && hop in Apply(i, op).cache
            && OnlyIpv4(Added(i, op)) == Ipv4Frames(Apply(i, op).cache[hop].mac, i.mac, ds)
  {
    hide Ipv4Serialized;
    var m := op.frame.content.message;
    var emitted := Ipv4Frames(m.senderMac, i.mac, i.Waiting(m.senderIp));
    var reply := if m.isRequest && m.targetIp == i.ip then [i.Reply(m.senderMac, m.senderIp)] else [];
    assert Added(i, op) == emitted + reply;
    OnlyIpv4All(emitted, reply);
  }

  /** A broadcast request for a hop joins the queue exactly when the book says it was asked for. */
  lemma RequestsAreFrames(i: Interface, op: Operation, hop: Address)
    ensures i.Request(hop) in Added(i, op) <==> Asks(i, op, hop)
  {
    hide ParseIpv4, Ipv4Serialized;
  }

  /** The receiver of an emitted frame reads the very datagram. */
  lemma EmittedFrameReadsBack(dst: EthernetAddress, src: EthernetAddress, d: Datagram, other: Interface)
    requires other.mac == dst
    ensures other.Receive(Ipv4Frame(dst, src, d)) == other.(datagramsIn := other.datagramsIn + [d])
  {
    hide ParseIpv4, Ipv4Serialized;
    Ipv4RoundTrip(d, []);
    assert Ipv4Serialized(d) + [] == Ipv4Serialized(d);
  }

  /** A queue is given up only once the cooldown has passed since its address was asked for. */
  lemma DropsFollowARequest(l: Ledger, i: Interface, op: Operation)
    requires Valid(i) && Paced(l, i) && Drops(i, op, l.hop) != []
    ensures l.requests != [] && l.requests[|l.requests| - 1] + PENDING_TTL_MS <= l.now + op.ms
  {
  }

  /** The age of a queue is that of its first datagram, so one that joins late is given up early:
      here after one millisecond. */
  lemma LateDatagramIsDroppedEarly(mac: EthernetAddress, ip: Address, hop: Address, first: Datagram, late: Datagram)
    ensures var i := NewInterface(mac, ip).Send(first, hop).Tick(PENDING_TTL_MS - 1).Send(late, hop);
            Drops(i, Tick(1), hop) == [first, late]
  {
  }

  /** The time that passes during a run. */
  function Ticked(ops: seq<Operation>): (ms: nat) {
    if ops == [] then 0 else (if ops[0].Tick? then ops[0].ms else 0) + Ticked(ops[1..])
  }

  /** Nothing in the run tells an interface with address `mac` about `hop`. */
  predicate Silent(mac: EthernetAddress, ops: seq<Operation>, hop: Address) {
    forall k :: 0 <= k < |ops| ==> Teaches(mac, ops[k], hop) == None
  }

  lemma QueueStays(i: Interface, op: Operation, hop: Address)
    requires Valid(i) && hop in i.pending && Teaches(i.mac, op, hop) == None
    requires i.pending[hop].age + Ticked([op]) < PENDING_TTL_MS
    ensures var after := Apply(i, op);
            && after.mac == i.mac
            && hop in after.pending
            && after.pending[hop].age == i.pending[hop].age + Ticked([op])
            && i.Waiting(hop) <= after.Waiting(hop)
  {
    hide ParseIpv4, Ipv4Frames, Ipv4Frame;
    assert [op][1..] == [];
  }

  /** While a queue has time left and nobody answers, whatever it holds stays, in its order. */
  lemma {:induction false} QueueOutlasts(i: Interface, ops: seq<Operation>, hop: Address)
    requires Valid(i) && hop in i.pending && Silent(i.mac, ops, hop)
    requires i.pending[hop].age + Ticked(ops) < PENDING_TTL_MS
    ensures i.Waiting(hop) <= RunInterface(i, ops).Waiting(hop)
    decreases |ops|
  {
    hide Valid, Apply, Teaches, Interface.Waiting;
    if ops != [] {
      assert Ticked([ops[0]]) + Ticked(ops[1..]) == Ticked(ops) by { assert [ops[0]][1..] == []; }
      QueueStays(i, ops[0], hop);
      ApplyKeepsValid(i, ops[0]);
      QueueOutlasts(Apply(i, ops[0]), ops[1..], hop);
    }
  }

  /** The run that gives up a queue as soon as its time is over. */
  lemma QueueExpires(i: Interface, hop: Address)
    requires Valid(i) && hop in i.pending
    ensures var ops := [Tick(PENDING_TTL_MS - i.pending[hop].age)];
            && Silent(i.mac, ops, hop)
            && Ticked(ops) == PENDING_TTL_MS - i.pending[hop].age
            && RunInterface(i, ops).Waiting(hop) == []
  {
    var op := Tick(PENDING_TTL_MS - i.pending[hop].age);
    assert [op][1..] == [];
  }

  /** Whatever waits for a hop outlasts every run of less than its time to wait in which nobody answers. */
  ghost predicate Outlasts(i: Interface, mac: EthernetAddress, hop: Address) {
    forall ops :: Silent(mac, ops, hop) && Ticked(ops) < 5_000 ==>
      i.Waiting(hop) <= RunInterface(i, ops).Waiting(hop)
  }

  lemma OutlastsExactly(i: Interface, hop: Address)
    requires Valid(i) && hop in i.pending && i.Waiting(hop) != []
    ensures Outlasts(i, i.mac, hop) <==> i.pending[hop].age == 0
  {
    hide Silent, Ticked, RunInterface, Interface.Waiting;
    if i.pending[hop].age == 0 {
      forall ops | Silent(i.mac, ops, hop) && Ticked(ops) < 5_000
        ensures i.Waiting(hop) <= RunInterface(i, ops).Waiting(hop)
      {
        QueueOutlasts(i, ops, hop);
      }
    } else {
      QueueExpires(i, hop);
    }
  }

  lemma HandedOverWaits(i: Interface, d: Datagram, hop: Address)
    requires hop !in i.cache
    ensures hop in i.Send(d, hop).pending && i.Send(d, hop).Waiting(hop) == i.Waiting(hop) + [d]
  {
  }

  /** After a datagram has been handed over for an unresolved hop, it outlasts every run of less than
      its time to wait in which nobody answers, exactly when the hop's address was asked for at that
      very moment. */
  lemma KeptForItsWholeTime(mac: EthernetAddress, ip: Address, before: seq<Operation>, d: Datagram, hop: Address)
    requires hop !in RunInterface(NewInterface(mac, ip), before).cache
    ensures var i := RunInterface(NewInterface(mac, ip), before + [Send(d, hop)]);
            var h := History(mac, ip, hop, before + [Send(d, hop)]);
            && i.Waiting(hop) == RunInterface(NewInterface(mac, ip), before).Waiting(hop) + [d]
            && h.requests != []
            && (Outlasts(i, mac, hop) <==> h.requests[|h.requests| - 1] == h.now)
  {
    hide Valid, Balanced, Paced, RunInterface, RunLedger, Interface.Waiting, Interface.Send, Outlasts, Remembers;
    var start, ledger, ops := NewInterface(mac, ip), Ledger(hop, 0, [], [], []), before + [Send(d, hop)];
    var i := RunInterface(start, ops);
    RunOneMore(start, before, Send(d, hop));
    HandedOverWaits(RunInterface(start, before), d, hop);
    NewIsKept(mac, ip, hop);
    RunKeepsLedger(ledger, start, ops);
    LedgerHasAllGiven(ledger, start, ops);
    CacheHoldsTheLastLesson(mac, ip, ops, hop);
    AskedNow(RunLedger(ledger, start, ops), i);
    OutlastsExactly(i, hop);
  }

  lemma AskedNow(l: Ledger, i: Interface)
    requires Paced(l, i) && l.hop in i.pending
    ensures l.requests != []
    ensures l.requests[|l.requests| - 1] == l.now <==> i.pending[l.hop].age == 0
  {
  }

  lemma NewIsKept(mac: EthernetAddress, ip: Address, hop: Address)
    ensures var l, i := Ledger(hop, 0, [], [], []), NewInterface(mac, ip);
            Valid(i) && Paced(l, i) && Balanced(l, i)
  {
  }
}
