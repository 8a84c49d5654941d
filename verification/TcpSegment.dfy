/** TCP segments as both endpoints see them: one message for the peer's receiver and one for the
    peer's sender, sharing a header. */
module TcpSegments {
  import opened Words
  import opened TcpMessages

  datatype TcpHeader = TcpHeader(
    srcPort: u16,
    dstPort: u16,
    seqno: u32,
    ackno: Option<u32>,
    window: u16,
    syn: bool,
    fin: bool,
    rst: bool)

  datatype TcpSegment = TcpSegment(header: TcpHeader, payload: seq<byte>) {
    function ToSenderMessage(): (m: SenderMessage) {
      SenderMessage(header.seqno, header.syn, payload, header.fin, header.rst)
    }

    function ToReceiverMessage(): (m: ReceiverMessage) {
      ReceiverMessage(header.ackno, header.window, header.rst)
    }
  }

  function FromMessages(srcPort: u16, dstPort: u16, sender: SenderMessage, receiver: Option<ReceiverMessage>): (segment: TcpSegment) {
    var ackno := if receiver.Some? then receiver.value.ackno else None;
    var window := if receiver.Some? then receiver.value.window else 0;
    var rst := sender.rst || (receiver.Some? && receiver.value.rst);
    TcpSegment(TcpHeader(srcPort, dstPort, sender.seqno, ackno, window, sender.syn, sender.fin, rst),
               sender.payload)
  }

  /** Both messages come back out of a segment as they went in, up to the one reset bit they share. */
  lemma MessagesRoundTrip(srcPort: u16, dstPort: u16, sender: SenderMessage, receiver: ReceiverMessage)
    ensures var segment := FromMessages(srcPort, dstPort, sender, Some(receiver));
            var rst := sender.rst || receiver.rst;
            && segment.ToSenderMessage() == sender.(rst := rst)
            && segment.ToReceiverMessage() == receiver.(rst := rst)
  {
  }
}
