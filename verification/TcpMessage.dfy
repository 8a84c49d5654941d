/** What TCP endpoints tell each other, and the sequence space a message occupies
    (section 3.4 of RFC 9293). */
module TcpMessages {
  import opened Words
  import opened Wrap32

  datatype SenderMessage = SenderMessage(seqno: u32, syn: bool, payload: seq<byte>, fin: bool, rst: bool)
  {
    function SequenceLength(): (length: nat) {
      (if syn then 1 else 0) + |payload| + (if fin then 1 else 0)
    }
  }

  datatype ReceiverMessage = ReceiverMessage(ackno: Option<u32>, window: u16, rst: bool)

  /** What stands at one position of sequence space. */
  datatype Mark = Syn | Octet(value: byte) | Fin

  function Octets(bytes: seq<byte>): (marks: seq<Mark>)
    ensures |marks| == |bytes|
    ensures forall i :: 0 <= i < |bytes| ==> marks[i] == Octet(bytes[i])
  {
    seq(|bytes|, i requires 0 <= i < |bytes| => Octet(bytes[i]))
  }

  /** The sequence space of a stream: SYN, then every byte, then FIN. */
  function Space(written: seq<byte>): (marks: seq<Mark>)
    ensures |marks| == |written| + 2
  {
    [Syn] + Octets(written) + [Fin]
  }

  /** The marks a message carries, in order. */
  function Marks(m: SenderMessage): (marks: seq<Mark>)
    ensures |marks| == m.SequenceLength()
  {
    (if m.syn then [Syn] else []) + Octets(m.payload) + (if m.fin then [Fin] else [])
  }

  /** `m` is the part of the stream's sequence space that starts at the absolute position `start`. */
  ghost predicate Carries(m: SenderMessage, start: nat, isn: u32, written: seq<byte>) {
    && m.seqno == Wrap(start, isn)
    && start + m.SequenceLength() <= |written| + 2
    && Marks(m) == Space(written)[start..start + m.SequenceLength()]
  }

  /** Position by position, what a message carries is what stands in the stream's sequence space. */
  lemma CarriedMark(m: SenderMessage, start: nat, isn: u32, written: seq<byte>, k: nat)
    requires Carries(m, start, isn, written) && k < m.SequenceLength()
    ensures start + k < |written| + 2
    ensures Marks(m)[k] == Space(written)[start + k]
  {
    assert Marks(m)[k] == Space(written)[start..start + m.SequenceLength()][k];
  }

  /** Carrying, field by field. */
  lemma CarriesFields(m: SenderMessage, start: nat, isn: u32, written: seq<byte>)
    requires Carries(m, start, isn, written) && m.SequenceLength() > 0
    ensures m.syn <==> start == 0
    ensures m.fin <==> start + m.SequenceLength() == |written| + 2
    ensures var index := if m.syn then 0 else start - 1;
            && index + |m.payload| <= |written|
            && m.payload == written[index..index + |m.payload|]
            && (m.fin ==> index + |m.payload| == |written|)
  {
    CarriedMark(m, start, isn, written, 0);
    CarriedMark(m, start, isn, written, m.SequenceLength() - 1);
    assert m.syn <==> start == 0;
    assert m.fin <==> start + m.SequenceLength() == |written| + 2;
    CarriesPayload(m, start, isn, written);
  }

  lemma CarriesPayload(m: SenderMessage, start: nat, isn: u32, written: seq<byte>)
    requires Carries(m, start, isn, written) && m.SequenceLength() > 0
    requires m.syn <==> start == 0
    requires m.fin <==> start + m.SequenceLength() == |written| + 2
    ensures var index := if m.syn then 0 else start - 1;
            && index + |m.payload| <= |written|
            && m.payload == written[index..index + |m.payload|]
  {
    var lead := if m.syn then 1 else 0;
    var index := if m.syn then 0 else start - 1;
    forall k | 0 <= k < |m.payload| ensures m.payload[k] == written[index + k] {
      CarriedMark(m, start, isn, written, lead + k);
      assert Marks(m)[lead + k] == Octet(m.payload[k]);
    }
  }

  /** Fields that match the stream make a message that carries it. */
  lemma FieldsCarry(m: SenderMessage, start: nat, isn: u32, written: seq<byte>)
    requires m.seqno == Wrap(start, isn)
    requires m.syn <==> start == 0
    requires var index := if m.syn then 0 else start - 1;
             && index + |m.payload| <= |written|
             && m.payload == written[index..index + |m.payload|]
             && (m.fin ==> index + |m.payload| == |written|)
    ensures Carries(m, start, isn, written)
  {
    var n := m.SequenceLength();
    var lead := if m.syn then 1 else 0;
    forall k | 0 <= k < n ensures Marks(m)[k] == Space(written)[start + k] {
      if lead <= k < lead + |m.payload| {
        assert Marks(m)[k] == Octet(m.payload[k - lead]);
      }
    }
  }

  /** Bytes written later do not change what an earlier message carries, as long as it has no FIN. */
  lemma CarriesLonger(m: SenderMessage, start: nat, isn: u32, written: seq<byte>, more: seq<byte>)
    requires Carries(m, start, isn, written)
    requires start + m.SequenceLength() <= |written| + 1
    ensures Carries(m, start, isn, written + more)
  {
    var n := m.SequenceLength();
    forall k | start <= k < start + n ensures Space(written)[k] == Space(written + more)[k] {
    }
    assert Space(written)[start..start + n] == Space(written + more)[start..start + n];
  }
}
