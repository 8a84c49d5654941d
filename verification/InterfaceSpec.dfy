/** A network interface as a value: datagrams wait for their next hop's Ethernet address, which is
    asked for by ARP (RFC 826; sections 2.3.2.1 and 2.3.2.2 of RFC 1122). */
module InterfaceSpecs {
  import opened Words
  import opened Checksums
  import opened Ipv4Datagrams

  const CACHE_TTL_MS: nat := 30_000
  const REQUEST_COOLDOWN_MS: nat := 5_000
  const PENDING_TTL_MS: nat := 5_000

  type EthernetAddress = a: seq<byte> | |a| == 6 witness [0, 0, 0, 0, 0, 0]

  const BROADCAST: EthernetAddress := [0xFF, 0xFF, 0xFF, 0xFF, 0xFF, 0xFF]
  const ZERO: EthernetAddress := [0, 0, 0, 0, 0, 0]

  /** A datagram short enough to be serialised. */
  type Datagram = d: Ipv4Datagram | FitsIpv4(d)
    witness Ipv4Datagram(Ipv4Header([0, 0, 0, 0], [0, 0, 0, 0], 0, 0, 0, 0), [])

  datatype ArpMessage = ArpMessage(
    isRequest: bool,
    senderMac: EthernetAddress,
    senderIp: Address,
    targetMac: EthernetAddress,
    targetIp: Address)

  /** What a frame carries: IPv4 bytes, an ARP message, or something the interface cannot read. */
  datatype Content = Ipv4Bytes(bytes: seq<byte>) | Arp(message: ArpMessage) | Unreadable

  datatype Frame = Frame(dst: EthernetAddress, src: EthernetAddress, content: Content)

  datatype CacheEntry = CacheEntry(mac: EthernetAddress, age: u64)

  datatype PendingResolution = PendingResolution(datagrams: seq<Datagram>, age: u64, requestAge: u64) {
    predicate ShouldRequest() {
      requestAge >= REQUEST_COOLDOWN_MS
    }

    function Tick(ms: u64): (after: PendingResolution) {
      this.(age := SaturatingAdd(age, ms), requestAge := SaturatingAdd(requestAge, ms))
    }

    predicate Expired() {
      age >= PENDING_TTL_MS
    }
  }

  const NEW_PENDING: PendingResolution := PendingResolution([], 0, REQUEST_COOLDOWN_MS)

  function Ipv4Frame(dst: EthernetAddress, src: EthernetAddress, d: Datagram): (frame: Frame) {
    Frame(dst, src, Ipv4Bytes(Ipv4Serialized(d)))
  }

  /** One frame for each datagram, in order. */
  function Ipv4Frames(dst: EthernetAddress, src: EthernetAddress, ds: seq<Datagram>): (frames: seq<Frame>)
    ensures |frames| == |ds|
    ensures forall k :: 0 <= k < |ds| ==> frames[k] == Ipv4Frame(dst, src, ds[k])
  {
    seq(|ds|, k requires 0 <= k < |ds| => Ipv4Frame(dst, src, ds[k]))
  }

  datatype Interface = Interface(
    mac: EthernetAddress,
    ip: Address,
    cache: map<Address, CacheEntry>,
    pending: map<Address, PendingResolution>,
    framesOut: seq<Frame>,
    datagramsIn: seq<Datagram>)
  {
    function Request(target: Address): (frame: Frame) {
      Frame(BROADCAST, mac, Arp(ArpMessage(true, mac, ip, ZERO, target)))
    }

    function Reply(targetMac: EthernetAddress, target: Address): (frame: Frame) {
      Frame(targetMac, mac, Arp(ArpMessage(false, mac, ip, targetMac, target)))
    }

    /** The resolution in progress for a next hop, or a new one. */
    function Resolution(hop: Address): (resolution: PendingResolution) {
      if hop in pending then pending[hop] else NEW_PENDING
    }

    function Send(d: Datagram, hop: Address): (after: Interface) {
      if hop in cache then this.(framesOut := framesOut + [Ipv4Frame(cache[hop].mac, mac, d)])
      else
        var p := Resolution(hop);
        var queued := p.(datagrams := p.datagrams + [d]);
        if p.ShouldRequest() then
          this.(pending := pending[hop := queued.(requestAge := 0)], framesOut := framesOut + [Request(hop)])
        else
          this.(pending := pending[hop := queued])
    }

    /** The datagrams waiting for a next hop. */
    function Waiting(hop: Address): (ds: seq<Datagram>) {
      if hop in pending then pending[hop].datagrams else []
    }

    function Learn(address: Address, learned: EthernetAddress): (after: Interface) {
      this.(
        cache := cache[address := CacheEntry(learned, 0)],
        pending := pending - {address},
        framesOut := framesOut + Ipv4Frames(learned, mac, Waiting(address)))
    }

    predicate IsFor(frame: Frame) {
      frame.dst == mac || frame.dst == BROADCAST
    }

    function Receive(frame: Frame): (after: Interface) {
      if !IsFor(frame) then this
      else match frame.content
        case Ipv4Bytes(bytes) =>
          ParsedFits(bytes);
          (match ParseIpv4(bytes)
           case Ipv4Parsed(d) => this.(datagramsIn := datagramsIn + [d])
           case Ipv4Failed(_) => this)
        case Arp(m) =>
          var learned := Learn(m.senderIp, m.senderMac);
          if m.isRequest && m.targetIp == ip
          then learned.(framesOut := learned.framesOut + [Reply(m.senderMac, m.senderIp)])
          else learned
        case Unreadable => this
    }

    function Aged(hop: Address, ms: u64): (older: CacheEntry)
      requires hop in cache
    {
      cache[hop].(age := SaturatingAdd(cache[hop].age, ms))
    }

    function Tick(ms: u64): (after: Interface) {
      this.(
        cache := map hop | hop in cache && Aged(hop, ms).age < CACHE_TTL_MS :: Aged(hop, ms),
        pending := map hop | hop in pending && !pending[hop].Tick(ms).Expired() :: pending[hop].Tick(ms))
    }

    function PopFrame(): (after: Interface) {
      if framesOut == [] then this else this.(framesOut := framesOut[1..])
    }

    function PopDatagram(): (after: Interface) {
      if datagramsIn == [] then this else this.(datagramsIn := datagramsIn[1..])
    }
  }

  function NewInterface(mac: EthernetAddress, ip: Address): (i: Interface) {
    Interface(mac, ip, map[], map[], [], [])
  }
}
