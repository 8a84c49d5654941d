/** The receive side: 32-bit sequence numbers become stream indices, and the state of the
    reassembler becomes acknowledgements and windows. */
module TcpReceivers {
  import opened Words
  import opened Wrap32
  import opened Stores
  import opened Reassemblers
  import opened TcpMessages

  datatype Receiver = Receiver(store: Store, isn: Option<u32>) {
    ghost predicate Valid() {
      && store.Valid()
      && (isn == None ==> store.assembled == [] && store.held == map[] && store.eof == None)
    }

    /** The next position of sequence space the receiver needs: SYN, then every byte, then FIN. */
    function Acknowledged(): (position: nat) {
      if isn == None then 0 else |store.assembled| + 1 + (if store.closed then 1 else 0)
    }

    function Window(): (size: u16)
      requires store.Valid()
    {
      Min(store.capacity - (|store.assembled| - store.popped), U16_MAX)
    }

    function Send(): (feedback: ReceiverMessage)
      requires store.Valid()
    {
      var ackno := match isn
        case None => None
        case Some(zero) =>
          var next := SaturatingAdd(|store.assembled|, 1);
          Some(Wrap(if store.closed then SaturatingAdd(next, 1) else next, zero));
      ReceiverMessage(ackno, Window(), store.error)
    }

    /** The sequence number this receiver counts from once it has looked at `m`. */
    function ZeroPoint(m: SenderMessage): (zero: Option<u32>) {
      if isn.Some? then (if m.syn && m.seqno != isn.value then None else isn)
      else if m.syn then Some(m.seqno) else None
    }

    /** Where the payload of `m` goes in the stream. */
    function StreamIndex(m: SenderMessage, zero: u32): (place: Option<nat>) {
      var absolute := Unwrap(m.seqno, zero, SaturatingAdd(|store.assembled|, 1));
      if m.syn then Some(absolute) else if absolute >= 1 then Some(absolute - 1) else None
    }

    /** The fragment that `m` contributes, if it contributes one. */
    function Contribution(m: SenderMessage): (fragment: Option<Fragment>) {
      if m.rst || ZeroPoint(m) == None then None
      else match StreamIndex(m, ZeroPoint(m).value)
        case None => None
        case Some(index) => Some(Fragment(index, m.payload, m.fin))
    }

    function Receive(m: SenderMessage): (after: Receiver) {
      if m.rst then this.(store := store.SetError())
      else if ZeroPoint(m) == None then this
      else
        var known := this.(isn := ZeroPoint(m));
        match Contribution(m)
        case None => known
        case Some(f) => known.(store := store.Insert(f))
    }

    /** How the reassembler judged the message. */
    function Judge(m: SenderMessage): (verdict: Verdict) {
      match Contribution(m)
      case None => Accepted
      case Some(f) => store.Judge(f)
    }
  }

  function EmptyReceiver(capacity: nat): (r: Receiver) {
    Receiver(EmptyStore(capacity), None)
  }

  lemma ReceiveValid(r: Receiver, m: SenderMessage)
    requires r.Valid()
    ensures r.Receive(m).Valid()
  {
    var f := r.Contribution(m);
    if f.Some? {
      InsertValid(r.store, f.value);
    }
  }

  /** The right edge of the advertised window: the first position a sender may not use yet. */
  function RightEdge(r: Receiver): (edge: nat)
    requires r.store.Valid()
  {
    |r.store.assembled| + 1 + (if r.store.closed then 1 else 0) + r.Window()
  }

  /** Whatever arrives, and whatever the reader takes, the advertised right edge never moves left
      (section 3.8.6 of RFC 9293). */
  lemma RightEdgeNeverShrinks(r: Receiver, m: SenderMessage)
    requires r.Valid()
    ensures r.Receive(m).Valid()
    ensures RightEdge(r) <= RightEdge(r.Receive(m))
  {
    ReceiveValid(r, m);
    hide Store.Insert, Receiver.StreamIndex;
    var f := r.Contribution(m);
    if f.Some? {
      InsertGrows(r.store, f.value);
    }
  }

  lemma ReadNeverShrinksEdge(r: Receiver, n: nat)
    requires r.Valid() && r.store.popped + n <= |r.store.assembled|
    ensures var r' := r.(store := r.store.Read(n));
            r'.Valid() && RightEdge(r) <= RightEdge(r')
  {
    ReadValid(r.store, n);
  }

  /** A byte the receiver has offered to take, and whose fragment it accepts, is kept: bytes inside
      the advertised right edge are never clipped. */
  lemma AdvertisedBytesAreKept(r: Receiver, m: SenderMessage, index: nat)
    requires r.Valid() && !r.store.error
    requires r.Contribution(m).Some? && r.Judge(m).Accepted?
    requires var f := r.Contribution(m).value; f.first <= index < f.End() && index + 1 < RightEdge(r)
    ensures r.Receive(m).store.Knows(index)
  {
    hide Receiver.StreamIndex, Store.Insert;
    InsertCoverage(r.store, r.Contribution(m).value);
  }

  /** The window is all the room there is, unless 16 bits cannot say so. */
  lemma WindowIsTheRoom(r: Receiver)
    requires r.Valid()
    ensures if r.Window() < U16_MAX then |r.store.assembled| + r.Window() == r.store.popped + r.store.capacity
            else |r.store.assembled| + U16_MAX <= r.store.popped + r.store.capacity
  {
  }

  /** No message can make the receiver keep a byte at or beyond the edge it advertised, unless the
      window said as much as 16 bits can. */
  lemma NothingKeptBeyondTheEdge(r: Receiver, m: SenderMessage, index: nat)
    requires r.Valid() && r.Window() < U16_MAX && index + 1 >= RightEdge(r)
    ensures !r.Receive(m).store.Knows(index)
  {
    hide Receiver.StreamIndex, Store.Insert, Store.Judge;
    WindowIsTheRoom(r);
    var f := r.Contribution(m);
    if f.Some? && r.store.Judge(f.value).Accepted? {
      if r.store.error {
        InsertCoverageInError(r.store, f.value);
      } else {
        InsertCoverage(r.store, f.value);
      }
    } else if f.Some? {
      RejectedChangesNothing(r.store, f.value);
    }
  }

  lemma RejectedChangesNothing(s: Store, f: Fragment)
    requires !s.Judge(f).Accepted?
    ensures s.Insert(f) == s
  {
    hide Store.Judge, Store.Absorb;
  }

  /** The position a message is taken to start at is one its sequence number stands for, and none is
      nearer to the position the receiver needs next. */
  lemma PlacedNearest(r: Receiver, m: SenderMessage, other: nat)
    requires r.Contribution(m).Some? && |r.store.assembled| < U64_MAX
    requires StandsFor(other, m.seqno, if r.isn.Some? then r.isn.value else m.seqno)
    ensures var position := r.Contribution(m).value.first + (if m.syn then 0 else 1);
            && StandsFor(position, m.seqno, if r.isn.Some? then r.isn.value else m.seqno)
            && AbsDiff(position, |r.store.assembled| + 1) <= AbsDiff(other, |r.store.assembled| + 1)
  {
    hide Unwrap;
    var zero := r.ZeroPoint(m).value;
    UnwrapStandsFor(m.seqno, zero, |r.store.assembled| + 1);
    UnwrapNearest(m.seqno, zero, |r.store.assembled| + 1, other);
  }

  /** Exactly which messages contribute a fragment: not a reset, nothing before the first SYN, no other
      SYN after it, and nothing that stands at SYN's own position without being it. */
  lemma ContributesExactly(r: Receiver, m: SenderMessage)
    requires |r.store.assembled| < U64_MAX
    ensures r.Contribution(m).Some?
       <==> && !m.rst
            && (if r.isn.Some? then m.syn ==> m.seqno == r.isn.value else m.syn)
            && (m.syn || Unwrap(m.seqno, r.isn.value, |r.store.assembled| + 1) > 0)
    ensures r.Contribution(m).Some? ==> r.Contribution(m).value.data == m.payload && r.Contribution(m).value.last == m.fin
  {
    hide Unwrap;
  }

  function RunReceiver(r: Receiver, ms: seq<SenderMessage>): (after: Receiver)
    requires r.Valid()
    ensures after.Valid()
    decreases |ms|
  {
    if ms == [] then r
    else
      ReceiveValid(r, ms[0]);
      RunReceiver(r.Receive(ms[0]), ms[1..])
  }

  /** The sequence number of the first SYN that is not a reset. */
  function FirstSyn(ms: seq<SenderMessage>): (seqno: Option<u32>) {
    if ms == [] then None
    else if ms[0].syn && !ms[0].rst then Some(ms[0].seqno)
    else FirstSyn(ms[1..])
  }

  predicate AnyReset(ms: seq<SenderMessage>) {
    exists k :: 0 <= k < |ms| && ms[k].rst
  }

  lemma ReceiveRemembers(r: Receiver, m: SenderMessage)
    ensures r.Receive(m).isn == if r.isn.Some? then r.isn else FirstSyn([m])
    ensures r.Receive(m).store.error == (r.store.error || m.rst)
  {
    hide Unwrap, Settle, Store.Judge, Missing;
    assert [m][1..] == [];
  }

  /** Whatever arrives, the receiver counts from the first SYN for ever, and says that it is in error
      exactly after a reset. */
  lemma {:induction false} ReceiverRemembers(r: Receiver, ms: seq<SenderMessage>)
    requires r.Valid()
    ensures RunReceiver(r, ms).isn == if r.isn.Some? then r.isn else FirstSyn(ms)
    ensures RunReceiver(r, ms).store.error == (r.store.error || AnyReset(ms))
    ensures RunReceiver(r, ms).Send().rst == RunReceiver(r, ms).store.error
    decreases |ms|
  {
    hide Receiver.Receive, Receiver.Valid;
    if ms != [] {
      ReceiveValid(r, ms[0]);
      ReceiveRemembers(r, ms[0]);
      assert [ms[0]][1..] == [];
      ReceiverRemembers(r.Receive(ms[0]), ms[1..]);
      if AnyReset(ms) && !ms[0].rst {
        var k :| 0 <= k < |ms| && ms[k].rst;
        assert ms[1..][k - 1].rst;
      }
      if AnyReset(ms[1..]) {
        var k :| 0 <= k < |ms[1..]| && ms[1..][k].rst;
        assert ms[k + 1].rst;
      }
    } else {
      SaysError(r);
    }
  }

  lemma SaysError(r: Receiver)
    requires r.Valid()
    ensures r.Send().rst == r.store.error
  {
  }

  class TcpReceiver {
    const reassembler: Reassembler
    var isn: Option<u32>

    ghost function Model(): (model: Receiver)
      reads this, reassembler, reassembler.output
    {
      Receiver(reassembler.Model(), isn)
    }

    ghost predicate Valid()
      reads this, reassembler, reassembler.output
    {
      reassembler.Valid() && Model().Valid()
    }

    constructor (capacity: nat)
      requires capacity <= U64_MAX
      ensures Valid() && fresh(reassembler) && fresh(reassembler.output)
      ensures Model() == EmptyReceiver(capacity)
    {
      reassembler := new Reassembler(capacity);
      isn := None;
    }

    method Receive(m: SenderMessage) returns (result: Option<ReassemblerError>)
      requires Valid()
      modifies this, reassembler, reassembler.output
      ensures Valid()
      ensures Model() == old(Model()).Receive(m)
      ensures result == None <==> old(Model()).Judge(m).Accepted?
      ensures old(Model()).Contribution(m).None? ==> result == None
      ensures old(Model()).Contribution(m).Some? ==>
                Reports(result, old(Model()).store, old(reassembler.pending), old(Model()).Contribution(m).value)
    {
      hide Unwrap, Store.Insert, Store.Judge, Holds;
      ReceiveValid(Model(), m);
      if m.rst {
        reassembler.output.SetError();
        return None;
      }
      var zero: u32;
      if isn.Some? {
        if m.syn && m.seqno != isn.value {
          return None;
        }
        zero := isn.value;
      } else {
        if !m.syn {
          return None;
        }
        isn := Some(m.seqno);
        zero := m.seqno;
      }
      var checkpoint := SaturatingAdd(reassembler.output.bytesPushed, 1);
      var absolute := Unwrap(m.seqno, zero, checkpoint);
      var index := absolute;
      if !m.syn {
        if absolute < 1 {
          return None;
        }
        index := absolute - 1;
      }
      result := reassembler.TryInsert(index, m.payload, m.fin);
    }

    /** The reader takes the next bytes of the stream. */
    method Read(len: nat) returns (taken: seq<byte>)
      requires Valid()
      modifies reassembler.output
      ensures Valid()
      ensures Model() == old(Model()).(store := old(Model()).store.Read(|taken|))
      ensures old(Model()).store.popped + |taken| <= |Model().store.assembled|
      ensures taken == Model().store.assembled[old(Model()).store.popped..Model().store.popped]
      ensures |taken| <= len
    {
      hide Holds;
      taken := reassembler.Read(len);
    }

    method Send() returns (m: ReceiverMessage)
      requires Valid()
      ensures m == Model().Send()
    {
      var ackno := None;
      if isn.Some? {
        var absolute := SaturatingAdd(reassembler.output.bytesPushed, 1);
        if reassembler.output.closed {
          absolute := SaturatingAdd(absolute, 1);
        }
        ackno := Some(Wrap(absolute, isn.value));
      }
      var available := reassembler.output.capacity - reassembler.output.bytesBuffered;
      m := ReceiverMessage(ackno, Min(available, U16_MAX), reassembler.output.error);
    }
  }
}
