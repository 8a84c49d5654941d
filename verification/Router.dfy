/** The router: it owns its interfaces and drains their input queues in place. */
module Routers {
  import opened Words
  import opened Checksums
  import opened InterfaceSpecs
  import opened InterfaceRuns
  import opened NetworkInterfaces
  import opened PrefixMasks
  import opened RoutingSpecs
  import opened RoutingFacts

  /** An interface that has been handed `ops` and whose input queue is now `left`. */
  function Handed(i: Interface, ops: seq<Operation>, left: seq<Datagram>): (after: Interface) {
    RunInterface(i, ops).(datagramsIn := left)
  }

  lemma HandNone(interfaces: seq<Interface>)
    ensures forall j :: 0 <= j < |interfaces| ==> RunInterface(interfaces[j], []) == interfaces[j]
  {
  }

  lemma HandOne(i: Interface, d: Datagram, hop: Address)
    ensures RunInterface(i, [Send(d, hop)]) == i.Send(d, hop)
  {
    hide Interface.Send;
    assert [Send(d, hop)][1..] == [];
  }

  /** Handing one more datagram to an interface does not depend on its input queue. */
  lemma HandOneMore(i: Interface, ops: seq<Operation>, left: seq<Datagram>, d: Datagram, hop: Address)
    ensures Handed(i, ops, left).Send(d, hop) == Handed(i, ops + [Send(d, hop)], left)
  {
    hide Ipv4Frame;
    RunOneMore(i, ops, Send(d, hop));
  }

  /** What one datagram does to the interfaces, in terms of the longest prefix its destination has: that
      route's interface is given it for the route's next hop, or else for its destination, with its time
      to live one lower, and no other interface changes; without such a route, or without its interface,
      or with no time left to live, nothing changes at all. */
  ghost predicate Moved(routes: seq<Route>, before: seq<Interface>, d: Datagram, after: seq<Interface>) {
    && (forall k: nat | k < |routes| :: IsLongestMatch(routes, d.header.dst, |routes|, k) ==>
          if d.header.ttl > 1 && routes[k].interfaceNum < |before| then
            var j := routes[k].interfaceNum;
            var hop := if routes[k].nextHop.Some? then routes[k].nextHop.value else d.header.dst;
            after == before[j := before[j].Send(d.(header := d.header.(ttl := d.header.ttl - 1)), hop)]
          else after == before)
    && ((forall k: nat | k < |routes| :: !SamePrefix(routes[k].prefix, d.header.dst, routes[k].prefixLength)) ==>
          after == before)
  }

  /** Every interface of `now` has been handed its share of `done` since `start`. */
  ghost predicate Shared(routes: seq<Route>, start: seq<Interface>, done: seq<Datagram>, now: seq<Interface>) {
    && |now| == |start|
    && forall j :: 0 <= j < |start| ==>
         now[j] == Handed(start[j], AllHandedOver(routes, |start|, done, j), now[j].datagramsIn)
  }

  lemma SharedAtStart(routes: seq<Route>, start: seq<Interface>)
    ensures Shared(routes, start, [], start)
  {
    hide Dispose, HandedOver;
  }

  /** The first `n` input queues are empty and the others are as they were. */
  ghost predicate Waiting(start: seq<Interface>, n: nat, now: seq<Interface>) {
    && |now| == |start|
    && forall j :: 0 <= j < |now| ==> now[j].datagramsIn == if j < n then [] else start[j].datagramsIn
  }

  ghost predicate WaitingElsewhere(start: seq<Interface>, n: nat, now: seq<Interface>) {
    && |now| == |start|
    && forall j :: 0 <= j < |now| && j != n ==> now[j].datagramsIn == if j < n then [] else start[j].datagramsIn
  }

  lemma SharedAtEnd(routes: seq<Route>, start: seq<Interface>, done: seq<Datagram>, now: seq<Interface>)
    requires Shared(routes, start, done, now)
    requires forall j :: 0 <= j < |now| ==> now[j].datagramsIn == []
    ensures forall j :: 0 <= j < |start| ==> now[j] == Handed(start[j], AllHandedOver(routes, |start|, done, j), [])
  {
    hide AllHandedOver, Handed;
  }

  /** While interface `n` is drained: `done` has been taken from its queue and handed over. */
  ghost predicate Draining(
    routes: seq<Route>, start: seq<Interface>, n: nat, before: seq<Datagram>, done: seq<Datagram>, now: seq<Interface>)
  {
    && n < |start|
    && Shared(routes, start, before + done, now)
    && WaitingElsewhere(start, n, now)
    && done + now[n].datagramsIn == start[n].datagramsIn
  }

  lemma DrainStart(routes: seq<Route>, start: seq<Interface>, n: nat, before: seq<Datagram>, now: seq<Interface>)
    requires n < |start| && Shared(routes, start, before, now) && Waiting(start, n, now)
    ensures Draining(routes, start, n, before, [], now)
  {
    hide Shared;
    assert before + [] == before;
  }

  lemma DrainNone(
    routes: seq<Route>, start: seq<Interface>, n: nat, before: seq<Datagram>, done: seq<Datagram>, now: seq<Interface>)
    requires Draining(routes, start, n, before, done, now) && now[n].datagramsIn == []
    ensures now[n := now[n].PopDatagram()] == now
  {
    hide Shared;
  }

  lemma DrainOne(
    routes: seq<Route>, start: seq<Interface>, n: nat, before: seq<Datagram>, done: seq<Datagram>,
    was: seq<Interface>, now: seq<Interface>, after: seq<Interface>)
    requires Draining(routes, start, n, before, done, was) && was[n].datagramsIn != []
    requires now == was[n := was[n].PopDatagram()] && |after| == |now|
    requires forall j :: 0 <= j < |now| ==>
               after[j] == RunInterface(now[j], HandedOver(routes, |now|, was[n].datagramsIn[0], j))
    ensures Draining(routes, start, n, before, done + [was[n].datagramsIn[0]], after)
    ensures |after[n].datagramsIn| < |was[n].datagramsIn|
  {
    hide Shared, RunInterface, HandedOver;
    var d := was[n].datagramsIn[0];
    SharedAfterPop(routes, start, before + done, was, now);
    SharedAfterOne(routes, start, before + done, now, d, after);
    assert before + done + [d] == before + (done + [d]);
    assert was[n].datagramsIn == [d] + now[n].datagramsIn;
  }

  lemma DrainEnd(
    routes: seq<Route>, start: seq<Interface>, n: nat, before: seq<Datagram>, done: seq<Datagram>, now: seq<Interface>)
    requires Draining(routes, start, n, before, done, now) && now[n].datagramsIn == []
    ensures Shared(routes, start, before + start[n].datagramsIn, now)
    ensures Waiting(start, n + 1, now)
  {
    hide Shared;
    assert done == start[n].datagramsIn;
  }

  /** Draining input queues hands nothing over. */
  lemma SharedAfterPop(
    routes: seq<Route>, start: seq<Interface>, done: seq<Datagram>, now: seq<Interface>, after: seq<Interface>)
    requires Shared(routes, start, done, now) && |after| == |now|
    requires forall j :: 0 <= j < |now| ==> after[j] == now[j].(datagramsIn := after[j].datagramsIn)
    ensures Shared(routes, start, done, after)
  {
    hide AllHandedOver, RunInterface;
  }

  lemma HandOver(i: Interface, ops: seq<Operation>, routes: seq<Route>, count: nat, d: Datagram, j: nat, left: seq<Datagram>)
    ensures RunInterface(Handed(i, ops, left), HandedOver(routes, count, d, j))
         == Handed(i, ops + HandedOver(routes, count, d, j), left)
  {
    hide Dispose, Handed, Interface.Send;
    var disposition := Dispose(routes, count, d);
    if disposition.Forwarded? && disposition.interfaceNum == j {
      var op := Send(disposition.datagram, disposition.hop);
      assert [op][1..] == [];
      HandOneMore(i, ops, left, disposition.datagram, disposition.hop);
    } else {
      assert ops + [] == ops;
    }
  }

  lemma SharedAfterOne(
    routes: seq<Route>, start: seq<Interface>, done: seq<Datagram>, now: seq<Interface>,
    d: Datagram, after: seq<Interface>)
    requires Shared(routes, start, done, now) && |after| == |now|
    requires forall j :: 0 <= j < |now| ==> after[j] == RunInterface(now[j], HandedOver(routes, |now|, d, j))
    ensures Shared(routes, start, done + [d], after)
    ensures forall j :: 0 <= j < |now| ==> after[j].datagramsIn == now[j].datagramsIn
  {
    hide HandedOver, RunInterface, Handed;
    forall j | 0 <= j < |now|
      ensures after[j] == Handed(start[j], AllHandedOver(routes, |start|, done + [d], j), now[j].datagramsIn)
      ensures after[j].datagramsIn == now[j].datagramsIn
    {
      AllHandedAfter(routes, |start|, done, d, j);
      HandOver(start[j], AllHandedOver(routes, |start|, done, j), routes, |start|, d, j, now[j].datagramsIn);
      HandedQueue(start[j], AllHandedOver(routes, |start|, done + [d], j), now[j].datagramsIn);
    }
  }

  lemma HandedQueue(i: Interface, ops: seq<Operation>, left: seq<Datagram>)
    ensures Handed(i, ops, left).datagramsIn == left
  {
  }

  class Router {
    var interfaces: seq<NetworkInterface>
    var routes: seq<Route>

    constructor ()
      ensures interfaces == [] && routes == []
    {
      interfaces, routes := [], [];
    }

    ghost predicate Valid()
      reads this
    {
      forall j, k :: 0 <= j < k < |interfaces| ==> interfaces[j] != interfaces[k]
    }

    function Models(): (models: seq<Interface>)
      reads this, interfaces
      ensures |models| == |interfaces|
      ensures forall j :: 0 <= j < |models| ==> models[j] == interfaces[j].Model()
    {
      seq(|interfaces|, j requires 0 <= j < |interfaces| reads this, interfaces => interfaces[j].Model())
    }

    method AddInterface(i: NetworkInterface) returns (interfaceNum: nat)
      requires Valid() && i !in interfaces
      modifies this`interfaces
      ensures Valid()
      ensures interfaces == old(interfaces) + [i] && interfaceNum == |old(interfaces)|
    {
      interfaceNum := |interfaces|;
      interfaces := interfaces + [i];
    }

    method AddRoute(prefix: Address, prefixLength: PrefixLength, nextHop: Option<Address>, interfaceNum: nat)
      modifies this`routes
      ensures routes == old(routes) + [RoutingSpecs.Route(prefix, prefixLength, nextHop, interfaceNum)]
    {
      routes := routes + [RoutingSpecs.Route(prefix, prefixLength, nextHop, interfaceNum)];
    }

    /** The earliest-added of the longest matching routes. */
    method FindRoute(destination: Address) returns (found: Option<Route>)
      ensures found.Some? <==> LongestMatch(routes, destination, |routes|).Some?
      ensures found.Some? ==>
                exists k: nat | k < |routes| :: IsLongestMatch(routes, destination, |routes|, k) && found.value == routes[k]
      ensures found.Some? ==> found.value == routes[LongestMatch(routes, destination, |routes|).value]
    {
      hide Matches, SamePrefix, IsLongestMatch;
      var best: Option<nat> := None;
      for n := 0 to |routes|
        invariant best == LongestMatch(routes, destination, n)
      {
        if Matches(routes[n], destination)
           && (best == None || routes[n].prefixLength > routes[best.value].prefixLength) {
          best := Some(n);
        }
      }
      LongestMatchIsRight(routes, destination, |routes|);
      found := if best.Some? then Some(routes[best.value]) else None;
    }

    /** Drops a datagram, or hands it on with its time to live one lower to one interface. */
    method RouteOneDatagram(datagram: Datagram)
      requires Valid()
      modifies interfaces
      ensures forall j :: 0 <= j < |interfaces| ==>
                Models()[j] == RunInterface(old(Models())[j], HandedOver(routes, |interfaces|, datagram, j))
      ensures Moved(routes, old(Models()), datagram, Models())
    {
      hide Interface.Send, RunInterface, LongestMatch, IsLongestMatch, SamePrefix;
      HandNone(Models());
      DisposeIsRight(routes, |interfaces|, datagram);
      LongestMatchIsRight(routes, datagram.header.dst, |routes|);
      if datagram.header.ttl <= 1 {
        return;
      }
      var destination := datagram.header.dst;
      var found := FindRoute(destination);
      if found.None? {
        return;
      }
      var hop := if found.value.nextHop.Some? then found.value.nextHop.value else destination;
      if found.value.interfaceNum >= |interfaces| {
        return;
      }
      var aged := datagram.(header := datagram.header.(ttl := datagram.header.ttl - 1));
      interfaces[found.value.interfaceNum].SendDatagram(aged, hop);
      HandOne(old(Models())[found.value.interfaceNum], aged, hop);
    }

    /** Takes the next datagram waiting at one interface. */
    method PopFrom(interfaceNum: nat) returns (popped: Option<Datagram>)
      requires Valid() && interfaceNum < |interfaces|
      modifies interfaces
      ensures Models() == old(Models())[interfaceNum := old(Models())[interfaceNum].PopDatagram()]
      ensures popped == if old(Models())[interfaceNum].datagramsIn == [] then None
                        else Some(old(Models())[interfaceNum].datagramsIn[0])
    {
      popped := interfaces[interfaceNum].PopDatagram();
    }

    /** Routes until no interface has an input left: every input was dropped or handed over once, and
        each interface was handed its datagrams in order. */
    method Route()
      requires Valid()
      modifies interfaces
      ensures forall j :: 0 <= j < |interfaces| ==>
                Models()[j] == Handed(old(Models())[j], AllHandedOver(routes, |interfaces|, Inputs(old(Models()), 0), j), [])
    {
      hide Shared, AllHandedOver, HandedOver, RunInterface, Handed, Inputs;
      ghost var start := Models();
      ghost var done: seq<Datagram> := [];
      SharedAtStart(routes, start);
      for i := 0 to |interfaces|
        invariant Shared(routes, start, done, Models())
        invariant done + Inputs(start, i) == Inputs(start, 0)
        invariant Waiting(start, i, Models())
      {
        InputsFrom(start, i);
        DrainInput(i, start, done);
        done := done + start[i].datagramsIn;
      }
      InputsFrom(start, |start|);
      assert done == Inputs(start, 0);
      SharedAtEnd(routes, start, done, Models());
    }

    /** Routes everything that waits at one interface. */
    method DrainInput(interfaceNum: nat, ghost start: seq<Interface>, ghost before: seq<Datagram>)
      requires Valid() && interfaceNum < |interfaces|
      requires Shared(routes, start, before, Models()) && Waiting(start, interfaceNum, Models())
      modifies interfaces
      ensures Shared(routes, start, before + start[interfaceNum].datagramsIn, Models())
      ensures Waiting(start, interfaceNum + 1, Models())
    {
      hide Draining, HandedOver, RunInterface, Interface.PopDatagram;
      var more := true;
      ghost var done: seq<Datagram> := [];
      DrainStart(routes, start, interfaceNum, before, Models());
      while more
        invariant Draining(routes, start, interfaceNum, before, done, Models())
        invariant !more ==> Models()[interfaceNum].datagramsIn == []
        decreases |Models()[interfaceNum].datagramsIn|, more
      {
        ghost var was := Models();
        var popped := PopFrom(interfaceNum);
        if popped.Some? {
          ghost var now := Models();
          RouteOneDatagram(popped.value);
          DrainOne(routes, start, interfaceNum, before, done, was, now, Models());
          done := done + [popped.value];
        } else {
          DrainNone(routes, start, interfaceNum, before, done, was);
          more := false;
        }
      }
      DrainEnd(routes, start, interfaceNum, before, done, Models());
    }
  }
}
