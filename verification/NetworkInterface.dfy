/** The network interface itself, whose methods change its tables and queues in place. */
module NetworkInterfaces {
  import opened Words
  import opened Checksums
  import opened Ipv4Datagrams
  import opened InterfaceSpecs

  lemma TickCacheIs(i: Interface, aged: map<Address, CacheEntry>, ms: u64)
    requires aged.Keys == i.cache.Keys
    requires forall hop :: hop in aged ==> aged[hop] == i.Aged(hop, ms)
    ensures (map hop | hop in aged && aged[hop].age < CACHE_TTL_MS :: aged[hop]) == i.Tick(ms).cache
  {
    hide Interface.Aged;
  }

  lemma TickPendingIs(i: Interface, aged: map<Address, PendingResolution>, ms: u64)
    requires aged.Keys == i.pending.Keys
    requires forall hop :: hop in aged ==> aged[hop] == i.pending[hop].Tick(ms)
    ensures (map hop | hop in aged && !aged[hop].Expired() :: aged[hop]) == i.Tick(ms).pending
  {
    hide PendingResolution.Tick, PendingResolution.Expired, Interface.Aged;
  }

  lemma TickIs(i: Interface, ms: u64)
    ensures i.Tick(ms) == i.(cache := i.Tick(ms).cache, pending := i.Tick(ms).pending)
  {
    hide Interface.Aged;
  }

  class NetworkInterface {
    const mac: EthernetAddress
    const ip: Address
    var arpCache: map<Address, CacheEntry>
    var pending: map<Address, PendingResolution>
    var framesOut: seq<Frame>
    var datagramsIn: seq<Datagram>

    constructor (mac: EthernetAddress, ip: Address)
      ensures Model() == NewInterface(mac, ip)
    {
      this.mac, this.ip := mac, ip;
      arpCache, pending := map[], map[];
      framesOut, datagramsIn := [], [];
    }

    function Model(): (model: Interface)
      reads this
    {
      Interface(mac, ip, arpCache, pending, framesOut, datagramsIn)
    }

    function LookupEthernetAddress(address: Address): (found: Option<EthernetAddress>)
      reads this
      ensures found.Some? <==> address in arpCache
    {
      if address in arpCache then Some(arpCache[address].mac) else None
    }

    method PopFrame() returns (frame: Option<Frame>)
      modifies this`framesOut
      ensures Model() == old(Model()).PopFrame()
      ensures if old(framesOut) == [] then frame == None else frame == Some(old(framesOut)[0])
    {
      frame := None;
      if framesOut != [] {
        frame := Some(framesOut[0]);
        framesOut := framesOut[1..];
      }
    }

    method PopDatagram() returns (datagram: Option<Datagram>)
      modifies this`datagramsIn
      ensures Model() == old(Model()).PopDatagram()
      ensures if old(datagramsIn) == [] then datagram == None else datagram == Some(old(datagramsIn)[0])
    {
      datagram := None;
      if datagramsIn != [] {
        datagram := Some(datagramsIn[0]);
        datagramsIn := datagramsIn[1..];
      }
    }

    method SendDatagram(datagram: Datagram, nextHop: Address)
      modifies this`pending, this`framesOut
      ensures Model() == old(Model()).Send(datagram, nextHop)
    {
      var found := LookupEthernetAddress(nextHop);
      if found.Some? {
        EmitIpv4Frame(datagram, found.value);
        return;
      }
      if nextHop !in pending {
        pending := pending[nextHop := NEW_PENDING];
      }
      var resolution := pending[nextHop];
      resolution := resolution.(datagrams := resolution.datagrams + [datagram]);
      pending := pending[nextHop := resolution];
      if resolution.ShouldRequest() {
        pending := pending[nextHop := resolution.(requestAge := 0)];
        EmitArpRequest(nextHop);
      }
    }

    method RecvFrame(frame: Frame)
      modifies this
      ensures Model() == old(Model()).Receive(frame)
    {
      hide ParseIpv4;
      if frame.dst != mac && frame.dst != BROADCAST {
        return;
      }
      match frame.content
      case Ipv4Bytes(bytes) =>
        var parsed := ParseIpv4(bytes);
        ParsedFits(bytes);
        if parsed.Ipv4Parsed? {
          datagramsIn := datagramsIn + [parsed.datagram];
        }
      case Arp(message) =>
        LearnArpMapping(message.senderIp, message.senderMac);
        if message.isRequest && message.targetIp == ip {
          EmitArpReply(message.senderMac, message.senderIp);
        }
      case Unreadable =>
    }

    /** Ages every entry of both tables, in whatever order, and then drops the old ones. */
    method Tick(elapsed: u64)
      modifies this`arpCache, this`pending
      ensures Model() == old(Model()).Tick(elapsed)
    {
      hide Interface.Tick, Interface.Aged, PendingResolution.Tick, PendingResolution.Expired;
      ghost var before := Model();
      TickIs(before, elapsed);
      AgeCache(elapsed);
      TickCacheIs(before, arpCache, elapsed);
      arpCache := map hop | hop in arpCache && arpCache[hop].age < CACHE_TTL_MS :: arpCache[hop];
      AgePending(elapsed);
      TickPendingIs(before, pending, elapsed);
      pending := map hop | hop in pending && !pending[hop].Expired() :: pending[hop];
    }

    method AgeCache(elapsed: u64)
      modifies this`arpCache
      ensures arpCache.Keys == old(arpCache).Keys
      ensures forall hop :: hop in arpCache ==> arpCache[hop] == old(Model()).Aged(hop, elapsed)
    {
      var left := arpCache.Keys;
      while left != {}
        invariant left <= arpCache.Keys == old(arpCache).Keys
        invariant forall hop :: hop in arpCache ==>
                    arpCache[hop] == if hop in left then old(arpCache)[hop] else old(Model()).Aged(hop, elapsed)
        decreases left
      {
        var hop :| hop in left;
        var entry := arpCache[hop];
        arpCache := arpCache[hop := entry.(age := SaturatingAdd(entry.age, elapsed))];
        left := left - {hop};
      }
    }

    method AgePending(elapsed: u64)
      modifies this`pending
      ensures pending.Keys == old(pending).Keys
      ensures forall hop :: hop in pending ==> pending[hop] == old(pending)[hop].Tick(elapsed)
    {
      var left := pending.Keys;
      while left != {}
        invariant left <= pending.Keys == old(pending).Keys
        invariant forall hop :: hop in pending ==>
                    pending[hop] == if hop in left then old(pending)[hop] else old(pending)[hop].Tick(elapsed)
        decreases left
      {
        var hop :| hop in left;
        pending := pending[hop := pending[hop].Tick(elapsed)];
        left := left - {hop};
      }
    }

    method LearnArpMapping(address: Address, learned: EthernetAddress)
      modifies this`arpCache, this`pending, this`framesOut
      ensures Model() == old(Model()).Learn(address, learned)
    {
      hide Ipv4Frame;
      arpCache := arpCache[address := CacheEntry(learned, 0)];
      if address in pending {
        var waiting := pending[address].datagrams;
        pending := pending - {address};
        var done := 0;
        while waiting != []
          invariant done + |waiting| == |old(pending)[address].datagrams|
          invariant waiting == old(pending)[address].datagrams[done..]
          invariant framesOut
                 == old(framesOut) + Ipv4Frames(learned, mac, old(pending)[address].datagrams[..done])
          invariant arpCache == old(arpCache)[address := CacheEntry(learned, 0)]
          invariant pending == old(pending) - {address}
          invariant datagramsIn == old(datagramsIn)
        {
          EmitIpv4Frame(waiting[0], learned);
          waiting := waiting[1..];
          done := done + 1;
        }
        assert old(pending)[address].datagrams[..done] == old(pending)[address].datagrams;
      } else {
        assert pending - {address} == pending;
      }
    }

    method EmitIpv4Frame(datagram: Datagram, dst: EthernetAddress)
      modifies this`framesOut
      ensures framesOut == old(framesOut) + [Ipv4Frame(dst, mac, datagram)]
    {
      var payload := SerializeIpv4Datagram(datagram);
      framesOut := framesOut + [Frame(dst, mac, Ipv4Bytes(payload))];
    }

    method EmitArpRequest(target: Address)
      modifies this`framesOut
      ensures framesOut == old(framesOut) + [Model().Request(target)]
    {
      framesOut := framesOut + [Frame(BROADCAST, mac, Arp(ArpMessage(true, mac, ip, ZERO, target)))];
    }

    method EmitArpReply(targetMac: EthernetAddress, target: Address)
      modifies this`framesOut
      ensures framesOut == old(framesOut) + [Model().Reply(targetMac, target)]
    {
      framesOut := framesOut + [Frame(targetMac, mac, Arp(ArpMessage(false, mac, ip, targetMac, target)))];
    }
  }
}
