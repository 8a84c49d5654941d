/** Routing decisions: longest-prefix match (section 5.2.4.3 of RFC 1812) and what becomes of each
    datagram. */
module RoutingSpecs {
  import opened Words
  import opened Checksums
  import opened InterfaceSpecs
  import opened InterfaceRuns
  import opened PrefixMasks

  datatype Route = Route(prefix: Address, prefixLength: PrefixLength, nextHop: Option<Address>, interfaceNum: nat)

  function Octet(a: Address, k: nat): (octet: bv8)
    requires k < 4
  {
    a[k] as bv8
  }

  function AddressWord(a: Address): (word: bv32) {
    FromBigEndian(Octet(a, 0), Octet(a, 1), Octet(a, 2), Octet(a, 3))
  }

  predicate Matches(r: Route, destination: Address) {
    Masked(AddressWord(r.prefix), r.prefixLength) == Masked(AddressWord(destination), r.prefixLength)
  }

  /** Bit `i` of an address, counted from the most significant bit of its first octet. */
  function AddressBit(a: Address, i: bv8): (bit: bv8)
    requires i < 32
  {
    OctetBit(Octet(a, 0), Octet(a, 1), Octet(a, 2), Octet(a, 3), i)
  }

  /** Whether two addresses have the same first `n` bits. */
  ghost predicate SamePrefix(a: Address, b: Address, n: PrefixLength) {
    forall i: bv8 :: i < n ==> AddressBit(a, i) == AddressBit(b, i)
  }

  /** The place of the first of the longest routes that match, among the first `n` routes. */
  function LongestMatch(routes: seq<Route>, destination: Address, n: nat): (best: Option<nat>)
    requires n <= |routes|
    ensures best.Some? ==> best.value < n
  {
    if n == 0 then None
    else
      var best := LongestMatch(routes, destination, n - 1);
      if Matches(routes[n - 1], destination)
         && (best == None || routes[n - 1].prefixLength > routes[best.value].prefixLength)
      then Some(n - 1) else best
  }

  datatype Disposition =
    | TtlExpired
    | NoRoute
    | NoInterface
    | Forwarded(interfaceNum: nat, hop: Address, datagram: Datagram)

  /** The datagram as it leaves a router. */
  function Aged(d: Datagram): (older: Datagram)
    requires d.header.ttl > 1
  {
    d.(header := d.header.(ttl := d.header.ttl - 1))
  }

  /** What a router with `count` interfaces does with a datagram. */
  function Dispose(routes: seq<Route>, count: nat, d: Datagram): (disposition: Disposition)
    ensures disposition.Forwarded? ==> disposition.interfaceNum < count
  {
    if d.header.ttl <= 1 then TtlExpired
    else
      var destination := d.header.dst;
      match LongestMatch(routes, destination, |routes|)
      case None => NoRoute
      case Some(k) =>
        if routes[k].interfaceNum >= count then NoInterface
        else
          var hop := if routes[k].nextHop.Some? then routes[k].nextHop.value else destination;
          Forwarded(routes[k].interfaceNum, hop, Aged(d))
  }

  /** What the router hands to its interface `j` for one datagram. */
  function HandedOver(routes: seq<Route>, count: nat, d: Datagram, j: nat): (ops: seq<Operation>) {
    var disposition := Dispose(routes, count, d);
    if disposition.Forwarded? && disposition.interfaceNum == j
    then [Send(disposition.datagram, disposition.hop)] else []
  }

  /** What the router hands to its interface `j` for many datagrams, in order. */
  function AllHandedOver(routes: seq<Route>, count: nat, ds: seq<Datagram>, j: nat): (ops: seq<Operation>) {
    if ds == [] then []
    else AllHandedOver(routes, count, ds[..|ds| - 1], j) + HandedOver(routes, count, ds[|ds| - 1], j)
  }

  /** The datagrams waiting at the interfaces from `k` on, interface by interface. */
  function Inputs(interfaces: seq<Interface>, k: nat): (ds: seq<Datagram>)
    requires k <= |interfaces|
    decreases |interfaces| - k
  {
    if k == |interfaces| then [] else interfaces[k].datagramsIn + Inputs(interfaces, k + 1)
  }
}
