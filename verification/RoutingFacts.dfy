/** The routing decision is the longest match, and each datagram is disposed of once. */
module RoutingFacts {
  import opened Words
  import opened Checksums
  import opened TcpCodecs
  import opened Ipv4Datagrams
  import opened InterfaceSpecs
  import opened InterfaceRuns
  import opened PrefixMasks
  import opened RoutingSpecs

  lemma WordBitIsAddressBit(a: Address, i: bv8)
    requires i < 32
    ensures WordBit(AddressWord(a), i) == AddressBit(a, i) as bv32
  {
    hide WordBit, FromBigEndian, OctetBit, Octet;
    BitOfOctets(Octet(a, 0), Octet(a, 1), Octet(a, 2), Octet(a, 3), i);
  }

  lemma WidenedEqual(x: bv8, y: bv8)
    ensures x as bv32 == y as bv32 <==> x == y
  {
  }

  /** A route matches exactly the destinations whose leading bits agree with its prefix. */
  lemma MatchesIsSamePrefix(r: Route, destination: Address)
    ensures Matches(r, destination) <==> SamePrefix(r.prefix, destination, r.prefixLength)
  {
    hide Masked, AddressWord, WordBit, AddressBit;
    MaskComparesBits(AddressWord(r.prefix), AddressWord(destination), r.prefixLength);
    forall i: bv8 | i < r.prefixLength
      ensures WordBit(AddressWord(r.prefix), i) == WordBit(AddressWord(destination), i)
         <==> AddressBit(r.prefix, i) == AddressBit(destination, i)
    {
      WordBitIsAddressBit(r.prefix, i);
      WordBitIsAddressBit(destination, i);
      WidenedEqual(AddressBit(r.prefix, i), AddressBit(destination, i));
    }
  }

  /** Among the first `n` routes, place `k` holds the earliest-added of the longest prefixes that
      the destination has. */
  ghost predicate IsLongestMatch(routes: seq<Route>, destination: Address, n: nat, k: nat)
    requires n <= |routes|
  {
    && k < n
    && SamePrefix(routes[k].prefix, destination, routes[k].prefixLength)
    && (forall j :: 0 <= j < n && SamePrefix(routes[j].prefix, destination, routes[j].prefixLength) ==>
          routes[j].prefixLength < routes[k].prefixLength
          || (routes[j].prefixLength == routes[k].prefixLength && k <= j))
  }

  /** The search finds the earliest-added longest prefix that the destination has, and nothing
      exactly when it has none of them. */
  lemma {:induction false} LongestMatchIsRight(routes: seq<Route>, destination: Address, n: nat)
    requires n <= |routes|
    ensures forall k: nat :: LongestMatch(routes, destination, n) == Some(k) <==> IsLongestMatch(routes, destination, n, k)
    ensures LongestMatch(routes, destination, n) == None
       <==> forall j :: 0 <= j < n ==> !SamePrefix(routes[j].prefix, destination, routes[j].prefixLength)
  {
    hide Matches, SamePrefix;
    if n > 0 {
      LongestMatchIsRight(routes, destination, n - 1);
      MatchesIsSamePrefix(routes[n - 1], destination);
    }
  }

  /** What exactly leads to each disposition. */
  lemma DisposeIsRight(routes: seq<Route>, count: nat, d: Datagram)
    ensures Dispose(routes, count, d) == TtlExpired <==> d.header.ttl <= 1
    ensures Dispose(routes, count, d) == NoRoute
       <==> d.header.ttl > 1
            && forall j :: 0 <= j < |routes| ==> !SamePrefix(routes[j].prefix, d.header.dst, routes[j].prefixLength)
    ensures Dispose(routes, count, d) == NoInterface
       <==> d.header.ttl > 1
            && exists k: nat | k < |routes| :: IsLongestMatch(routes, d.header.dst, |routes|, k) && routes[k].interfaceNum >= count
  {
    hide SamePrefix, IsLongestMatch;
    LongestMatchIsRight(routes, d.header.dst, |routes|);
  }

  /** A datagram goes out where the longest match says, to its next hop or else straight to the
      destination. */
  lemma ForwardedIsRight(routes: seq<Route>, count: nat, d: Datagram, k: nat)
    requires d.header.ttl > 1 && IsLongestMatch(routes, d.header.dst, |routes|, k)
    requires routes[k].interfaceNum < count
    ensures Dispose(routes, count, d)
         == Forwarded(
              routes[k].interfaceNum,
              if routes[k].nextHop.Some? then routes[k].nextHop.value else d.header.dst,
              Aged(d))
  {
    LongestMatchIsRight(routes, d.header.dst, |routes|);
  }

  /** A forwarded datagram reads back with its time to live one lower and nothing else changed, and
      on the wire only the time to live and the checksum differ. */
  lemma ForwardedReadsBack(d: Datagram, padding: seq<byte>)
    requires d.header.ttl > 1
    ensures ParseIpv4(Ipv4Serialized(Aged(d)) + padding)
         == Ipv4Parsed(d.(header := d.header.(ttl := d.header.ttl - 1)))
    ensures |Ipv4Serialized(Aged(d))| == |Ipv4Serialized(d)|
    ensures forall k :: 0 <= k < |Ipv4Serialized(d)| && k !in {8, 10, 11} ==>
              Ipv4Serialized(Aged(d))[k] == Ipv4Serialized(d)[k]
  {
    hide ParseIpv4, ChecksumOf, High, Low;
    Ipv4RoundTrip(Aged(d), padding);
  }

  /** The datagrams that are dropped. */
  function Dropped(routes: seq<Route>, count: nat, ds: seq<Datagram>): (dropped: seq<Datagram>) {
    if ds == [] then []
    else
      var d := ds[|ds| - 1];
      Dropped(routes, count, ds[..|ds| - 1]) + (if Dispose(routes, count, d).Forwarded? then [] else [d])
  }

  /** The datagrams that are forwarded, as they came in. */
  function Routed(routes: seq<Route>, count: nat, ds: seq<Datagram>): (routed: seq<Datagram>)
    ensures forall k :: 0 <= k < |routed| ==> Dispose(routes, count, routed[k]).Forwarded?
  {
    if ds == [] then []
    else
      var d := ds[|ds| - 1];
      Routed(routes, count, ds[..|ds| - 1]) + (if Dispose(routes, count, d).Forwarded? then [d] else [])
  }

  /** A datagram handed to an interface for a next hop. */
  datatype Delivery = Delivery(interfaceNum: nat, hop: Address, datagram: Datagram)

  function DeliveryOf(routes: seq<Route>, count: nat, d: Datagram): (delivery: Delivery)
    requires Dispose(routes, count, d).Forwarded?
  {
    var disposition := Dispose(routes, count, d);
    Delivery(disposition.interfaceNum, disposition.hop, disposition.datagram)
  }

  function Deliveries(routes: seq<Route>, count: nat, ds: seq<Datagram>): (deliveries: seq<Delivery>)
    requires forall k :: 0 <= k < |ds| ==> Dispose(routes, count, ds[k]).Forwarded?
    ensures |deliveries| == |ds|
    ensures forall k :: 0 <= k < |ds| ==> deliveries[k] == DeliveryOf(routes, count, ds[k])
  {
    seq(|ds|, k requires 0 <= k < |ds| => DeliveryOf(routes, count, ds[k]))
  }

  /** A delivery by the longest prefix that the destination has: on that route's interface, to its next
      hop or else straight to the destination, with the time to live one lower and nothing else changed. */
  ghost predicate GoesByLongestPrefix(routes: seq<Route>, d: Datagram, delivery: Delivery) {
    exists k: nat ::
      && IsLongestMatch(routes, d.header.dst, |routes|, k)
      && delivery.interfaceNum == routes[k].interfaceNum
      && delivery.hop == (if routes[k].nextHop.Some? then routes[k].nextHop.value else d.header.dst)
      && d.header.ttl > 1
      && delivery.datagram == d.(header := d.header.(ttl := d.header.ttl - 1))
  }

  lemma DeliveryIsRight(routes: seq<Route>, count: nat, d: Datagram)
    requires Dispose(routes, count, d).Forwarded?
    ensures GoesByLongestPrefix(routes, d, DeliveryOf(routes, count, d))
    ensures DeliveryOf(routes, count, d).interfaceNum < count
  {
    hide IsLongestMatch, LongestMatch;
    LongestMatchIsRight(routes, d.header.dst, |routes|);
    assert IsLongestMatch(routes, d.header.dst, |routes|, LongestMatch(routes, d.header.dst, |routes|).value);
  }

  /** What operations on interface `j` hand it. */
  function Carried(ops: seq<Operation>, j: nat): (carried: multiset<Delivery>) {
    if ops == [] then multiset{}
    else
      var op := ops[|ops| - 1];
      Carried(ops[..|ops| - 1], j) + (if op.Send? then multiset{Delivery(j, op.hop, op.datagram)} else multiset{})
  }

  /** What the first `n` interfaces are handed between them. */
  function TotalHandedOver(routes: seq<Route>, count: nat, ds: seq<Datagram>, n: nat): (total: multiset<Delivery>) {
    if n == 0 then multiset{}
    else TotalHandedOver(routes, count, ds, n - 1) + Carried(AllHandedOver(routes, count, ds, n - 1), n - 1)
  }

  lemma {:induction false} NothingHandedOver(routes: seq<Route>, count: nat, n: nat)
    ensures TotalHandedOver(routes, count, [], n) == multiset{}
  {
    if n > 0 {
      NothingHandedOver(routes, count, n - 1);
    }
  }

  /** What one datagram adds to what the interfaces from `lo` up to `hi` are handed. */
  function Share(routes: seq<Route>, count: nat, d: Datagram, lo: nat, hi: nat): (share: multiset<Delivery>) {
    match Dispose(routes, count, d)
    case Forwarded(j, hop, aged) => if lo <= j < hi then multiset{Delivery(j, hop, aged)} else multiset{}
    case _ => multiset{}
  }

  lemma CarriedAfter(ops: seq<Operation>, routes: seq<Route>, count: nat, d: Datagram, j: nat)
    ensures Carried(ops + HandedOver(routes, count, d, j), j)
         == Carried(ops, j) + Share(routes, count, d, j, j + 1)
  {
    hide Dispose;
    var more := HandedOver(routes, count, d, j);
    if more == [] {
      assert ops + more == ops;
    } else {
      assert (ops + more)[..|ops|] == ops;
    }
  }

  lemma ShareSplit(routes: seq<Route>, count: nat, d: Datagram, n: nat)
    ensures n == 0 ==> Share(routes, count, d, 0, n) == multiset{}
    ensures n > 0 ==>
              Share(routes, count, d, 0, n) == Share(routes, count, d, 0, n - 1) + Share(routes, count, d, n - 1, n)
  {
    hide Dispose;
  }

  lemma AllHandedAfter(routes: seq<Route>, count: nat, ds: seq<Datagram>, d: Datagram, j: nat)
    ensures AllHandedOver(routes, count, ds + [d], j)
         == AllHandedOver(routes, count, ds, j) + HandedOver(routes, count, d, j)
  {
    hide HandedOver;
    assert (ds + [d])[..|ds|] == ds;
  }

  lemma {:induction false} TotalAfter(routes: seq<Route>, count: nat, ds: seq<Datagram>, d: Datagram, n: nat)
    ensures TotalHandedOver(routes, count, ds + [d], n)
         == TotalHandedOver(routes, count, ds, n) + Share(routes, count, d, 0, n)
  {
    hide Carried, HandedOver, AllHandedOver, Share;
    ShareSplit(routes, count, d, n);
    if n > 0 {
      TotalAfter(routes, count, ds, d, n - 1);
      AllHandedAfter(routes, count, ds, d, n - 1);
      CarriedAfter(AllHandedOver(routes, count, ds, n - 1), routes, count, d, n - 1);
    }
  }

  lemma SortedAfter(routes: seq<Route>, count: nat, ds: seq<Datagram>, d: Datagram)
    ensures Routed(routes, count, ds + [d])
         == Routed(routes, count, ds) + (if Dispose(routes, count, d).Forwarded? then [d] else [])
    ensures Dropped(routes, count, ds + [d])
         == Dropped(routes, count, ds) + (if Dispose(routes, count, d).Forwarded? then [] else [d])
  {
    hide Dispose;
    assert (ds + [d])[..|ds|] == ds;
  }

  lemma ShareIsDelivery(routes: seq<Route>, count: nat, d: Datagram)
    ensures Share(routes, count, d, 0, count)
         == if Dispose(routes, count, d).Forwarded? then multiset{DeliveryOf(routes, count, d)} else multiset{}
  {
    hide LongestMatch;
  }

  lemma {:induction false} DroppedOrRouted(routes: seq<Route>, count: nat, ds: seq<Datagram>)
    ensures multiset(ds) == multiset(Dropped(routes, count, ds)) + multiset(Routed(routes, count, ds))
  {
    hide Dispose;
    if ds != [] {
      var front, d := ds[..|ds| - 1], ds[|ds| - 1];
      assert front + [d] == ds;
      DroppedOrRouted(routes, count, front);
      SortedAfter(routes, count, front, d);
    }
  }

  lemma RoutedAfter(routes: seq<Route>, count: nat, ds: seq<Datagram>, d: Datagram)
    ensures multiset(Deliveries(routes, count, Routed(routes, count, ds + [d])))
         == multiset(Deliveries(routes, count, Routed(routes, count, ds))) + Share(routes, count, d, 0, count)
  {
    hide Dispose, Share, Routed, Dropped, DeliveryOf;
    SortedAfter(routes, count, ds, d);
    ShareIsDelivery(routes, count, d);
    var routed := Routed(routes, count, ds);
    if Dispose(routes, count, d).Forwarded? {
      assert Deliveries(routes, count, routed + [d])
          == Deliveries(routes, count, routed) + [DeliveryOf(routes, count, d)];
    } else {
      assert Routed(routes, count, ds + [d]) == routed;
    }
  }

  lemma {:induction false} HandedOverIsDelivered(routes: seq<Route>, count: nat, ds: seq<Datagram>)
    ensures TotalHandedOver(routes, count, ds, count)
         == multiset(Deliveries(routes, count, Routed(routes, count, ds)))
  {
    hide Dispose, Share, Deliveries, TotalHandedOver;
    if ds == [] {
      NothingHandedOver(routes, count, count);
      assert Deliveries(routes, count, []) == [];
    } else {
      var front, d := ds[..|ds| - 1], ds[|ds| - 1];
      assert front + [d] == ds;
      HandedOverIsDelivered(routes, count, front);
      TotalAfter(routes, count, front, d, count);
      RoutedAfter(routes, count, front, d);
    }
  }

  /** Every datagram is dropped or forwarded, once, and what the interfaces are handed between them is
      exactly one delivery for each forwarded one: by the longest prefix, to its next hop, with its time
      to live one lower. */
  lemma DisposedOnce(routes: seq<Route>, count: nat, ds: seq<Datagram>)
    ensures multiset(ds) == multiset(Dropped(routes, count, ds)) + multiset(Routed(routes, count, ds))
    ensures var routed := Routed(routes, count, ds);
            && TotalHandedOver(routes, count, ds, count) == multiset(Deliveries(routes, count, routed))
            && forall k :: 0 <= k < |routed| ==>
                 GoesByLongestPrefix(routes, routed[k], Deliveries(routes, count, routed)[k])
  {
    hide Dropped, Routed, TotalHandedOver, Dispose, DeliveryOf, GoesByLongestPrefix;
    DroppedOrRouted(routes, count, ds);
    HandedOverIsDelivered(routes, count, ds);
    var routed := Routed(routes, count, ds);
    forall k | 0 <= k < |routed|
      ensures GoesByLongestPrefix(routes, routed[k], Deliveries(routes, count, routed)[k])
    {
      DeliveryIsRight(routes, count, routed[k]);
    }
  }

  lemma InputsFrom(start: seq<Interface>, i: nat)
    requires i <= |start|
    ensures Inputs(start, i) == if i == |start| then [] else start[i].datagramsIn + Inputs(start, i + 1)
  {
  }

  /** The inputs of all interfaces are all that waits at any of them, each as often as it waits. */
  lemma {:induction false} InputsAreComplete(interfaces: seq<Interface>, k: nat)
    requires k <= |interfaces|
    ensures multiset(Inputs(interfaces, 0)) == Queued(interfaces, k) + multiset(Inputs(interfaces, k))
    decreases k
  {
    hide Inputs;
    if k > 0 {
      InputsAreComplete(interfaces, k - 1);
      InputsFrom(interfaces, k - 1);
    }
  }

  /** What waits at the first `k` interfaces. */
  function Queued(interfaces: seq<Interface>, k: nat): (queued: multiset<Datagram>)
    requires k <= |interfaces|
  {
    if k == 0 then multiset{} else Queued(interfaces, k - 1) + multiset(interfaces[k - 1].datagramsIn)
  }

  /** A path through routers: each has its routes and its number of interfaces. */
  datatype Table = Table(routes: seq<Route>, count: nat)

  /** The datagram after a whole path, when every router on it forwards it. */
  function Travelled(path: seq<Table>, d: Datagram): (arrived: Option<Datagram>) {
    if path == [] then Some(d)
    else
      match Dispose(path[0].routes, path[0].count, d)
      case Forwarded(_, _, aged) => Travelled(path[1..], aged)
      case _ => None
  }

  /** However the routes lead, loops included, a datagram is forwarded fewer times than its time to
      live, and arrives with that much less of it. */
  lemma {:induction false} TtlBoundsThePath(path: seq<Table>, d: Datagram)
    requires path != [] && Travelled(path, d).Some?
    ensures |path| < d.header.ttl
    ensures Travelled(path, d).value == d.(header := d.header.(ttl := d.header.ttl - |path|))
  {
    hide LongestMatch;
    var aged := Aged(d);
    if |path| > 1 {
      TtlBoundsThePath(path[1..], aged);
    }
  }
}
