// Runs of a small router on which the ARP code goes wrong: one interface, and one default route
// through a gateway on it.

module ArpWitness {
  import opened Machine
  import opened Routing
  import opened ArpSpec
  import opened ArpInvariant
  import opened ArpDelivery
  import opened IpForwarding
  import opened Routers

  const OWN := Ip(10, 0, 0, 1)
  const GATEWAY := Ip(10, 0, 0, 254)
  const OWN_MAC: Mac := [2, 0, 0, 0, 0, 1]
  const OTHER_MAC: Mac := [2, 0, 0, 0, 0, 2]
  const DEFAULT_ROUTE := Route(NO_ADDRESS, GATEWAY, NO_ADDRESS, "eth0")

  function Small(order: HostOrder): Config {
    Config(order, [DEFAULT_ROUTE], map["eth0" := Interface(OWN, OWN_MAC)])
  }

  lemma OneRoute(order: HostOrder, ip: Ip)
    ensures Routable(Small(order).table, ip)
    ensures RouteTo(Small(order), ip) == DEFAULT_ROUTE
    ensures InterfaceOf(Small(order), "eth0") == Interface(OWN, OWN_MAC)
  {
    hide Raw, And8;
    var c := Small(order);
    NoBits(0);
    NoBits(ip.a);
    NoBits(ip.b);
    NoBits(ip.c);
    NoBits(ip.d);
    assert Matches(c.table[0], ip);
    SomeLargest(order, c.table, ip);
    assert c.table[SelectedIndex(order, c.table, ip)] == DEFAULT_ROUTE;
  }

  // ---------- An answer that cannot be addressed ----------

  // The first packet the router sees is an ARP request from a neighbour: the neighbour is cached, but
  // its answer goes by the default route, whose gateway is not.
  lemma ReplyUndefined(order: HostOrder, now: int)
    ensures var h := ArpHeader(ARP_REQUEST, OTHER_MAC, Ip(10, 0, 0, 7), None, OWN);
            !ReplyDefined(Small(order), Initial().entries, h, now)
  {
    hide CacheLookup, RouteTo;
    var h := ArpHeader(ARP_REQUEST, OTHER_MAC, Ip(10, 0, 0, 7), None, OWN);
    OneRoute(order, h.sip);
    LookupNoneIff(Initial().entries, GATEWAY);
    ReplyDefinedIff(Small(order), Initial().entries, h, now);
  }

  // ---------- A full cache ----------

  // A hundred addresses 10.1.0.0 to 10.1.0.99.
  function Host(k: nat): Ip {
    Ip(10, 1, 0, k % 0x100)
  }

  lemma HostsDiffer(j: nat, k: nat)
    requires j < k < SR_ARPCACHE_SZ
    ensures Host(j) != Host(k)
  {
  }

  function FromHost(k: nat): Event {
    Arp(ArpHeader(ARP_REPLY, OTHER_MAC, Host(k), Some(OWN_MAC), OWN), "eth0", 2)
  }

  function Filling(n: nat): (events: seq<Event>)
    requires n <= SR_ARPCACHE_SZ
    ensures |events| == n && forall k | 0 <= k < n :: events[k] == FromHost(k)
  {
    seq(n, k requires 0 <= k < n => FromHost(k))
  }

  function FilledSlots(n: nat): (entries: seq<Entry>)
    requires n <= SR_ARPCACHE_SZ
    ensures |entries| == SR_ARPCACHE_SZ
    ensures forall k | 0 <= k < n :: entries[k] == Entry(OTHER_MAC, Host(k), 2, true)
    ensures forall k | n <= k < SR_ARPCACHE_SZ :: entries[k] == EMPTY_SLOT
  {
    seq(SR_ARPCACHE_SZ, k requires 0 <= k < SR_ARPCACHE_SZ =>
      if k < n then Entry(OTHER_MAC, Host(k), 2, true) else EMPTY_SLOT)
  }

  function Filled(n: nat): State
    requires n <= SR_ARPCACHE_SZ
  {
    Initial().(entries := FilledSlots(n))
  }

  lemma FilledFree(n: nat)
    requires n <= SR_ARPCACHE_SZ
    ensures FreeSlot(FilledSlots(n)) == n
    ensures CacheLookup(FilledSlots(n), GATEWAY).None?
    ensures n < SR_ARPCACHE_SZ ==> CacheLookup(FilledSlots(n), Host(n)).None?
  {
    hide FreeSlot, CacheLookup, FilledSlots, Host;
    var entries := FilledSlots(n);
    forall k | 0 <= k < n ensures Host(k) != GATEWAY && (n < SR_ARPCACHE_SZ ==> Host(k) != Host(n)) {
      HostIsNotGateway(k);
      if n < SR_ARPCACHE_SZ {
        HostsDiffer(k, n);
      }
    }
    LookupNoneIff(entries, GATEWAY);
    if n < SR_ARPCACHE_SZ {
      assert !entries[n].valid;
      assert forall k | 0 <= k < |entries| && entries[k].valid :: k < n && entries[k].ip != Host(n);
      LookupNoneIff(entries, Host(n));
    }
  }

  lemma HostIsNotGateway(k: nat)
    ensures Host(k) != GATEWAY
  {
  }

  lemma FillOne(order: HostOrder, n: nat)
    requires n < SR_ARPCACHE_SZ
    ensures Step(Small(order), Filled(n), FromHost(n)) == Filled(n + 1)
  {
    hide Small, FreeSlot, CacheLookup, FilledSlots, Host, InterfaceOf, ReplyFrame, SendAll, SendIp, Matches, Routable,
         RouteTo;
    OneRoute(order, OWN);
    FilledFree(n);
    assert InsertEntry(FilledSlots(n), OTHER_MAC, Host(n), 2) == FilledSlots(n + 1);
  }

  lemma {:induction false} FillMany(order: HostOrder, n: nat)
    requires n <= SR_ARPCACHE_SZ
    ensures Run(Small(order), Initial(), Filling(n)) == Filled(n)
  {
    hide Step, Filling;
    if n == 0 {
      assert FilledSlots(0) == Initial().entries;
    } else {
      assert Filling(n)[..n - 1] == Filling(n - 1);
      FillMany(order, n - 1);
      FillOne(order, n - 1);
    }
  }

  function Waits(p: IpPacket, now: int): Request {
    Request(GATEWAY, now, 1, [Waiting(p, "eth0")])
  }

  lemma ForwardWaits(order: HostOrder, p: IpPacket)
    ensures var s := Filled(SR_ARPCACHE_SZ);
            var t := Step(Small(order), s, Forward(p, 2));
            && t.entries == s.entries && t.requests == [Waits(p, 2)]
            && |t.sent| == 1 && t.sent[0].payload.ArpData?
  {
    hide CacheLookup, FilledSlots, RouteTo, Destination, ArpRequestFrame, SendIp, Small, Routable;
    OneRoute(order, Destination(p));
    FilledFree(SR_ARPCACHE_SZ);
    var c, s, w := Small(order), Filled(SR_ARPCACHE_SZ), Waiting(p, "eth0");
    FirstAsked(c, s.(accepted := s.accepted + multiset{p}), w, GATEWAY, 2);
    RequestFrameIsArp(c, Request(GATEWAY, 0, 0, [w]));
  }

  lemma RequestFrameIsArp(c: Config, r: Request)
    ensures ArpRequestFrame(c, r).payload.ArpData?
  {
    hide RouteTo, InterfaceOf;
  }

  const FROM_GATEWAY := Arp(ArpHeader(ARP_REPLY, OTHER_MAC, GATEWAY, Some(OWN_MAC), OWN), "eth0", 3)

  lemma EarlyEnough(order: HostOrder, p: IpPacket, e: Event)
    requires e == Forward(p, 2) || (e.Arp? && e.now == 2)
    ensures Admissible(Small(order), e)
  {
    hide Destination;
    OneRoute(order, Destination(p));
  }

  lemma RunSnoc(c: Config, events: seq<Event>, e: Event)
    ensures Run(c, Initial(), events + [e]) == Step(c, Run(c, Initial(), events), e)
  {
    hide Step;
    assert (events + [e])[..|events|] == events;
  }

  // A hundred neighbours fill the cache, and a packet is forwarded.
  function Starving(p: IpPacket): seq<Event> {
    Filling(SR_ARPCACHE_SZ) + [Forward(p, 2)]
  }

  lemma StarvingIsAdmissible(order: HostOrder, p: IpPacket)
    ensures forall j | 0 <= j < |Starving(p)| :: Admissible(Small(order), Starving(p)[j])
  {
    hide Filling, Admissible, Destination;
    forall j | 0 <= j < |Starving(p)| ensures Admissible(Small(order), Starving(p)[j]) {
      EarlyEnough(order, p, Starving(p)[j]);
    }
  }

  lemma StarvingWaits(order: HostOrder, p: IpPacket)
    ensures var s := Run(Small(order), Initial(), Starving(p));
            && FreeSlot(s.entries) == |s.entries| && s.requests == [Waits(p, 2)]
            && |s.sent| == 1 && s.sent[0].payload.ArpData?
  {
    hide Run, Step, Filling, FreeSlot, FilledSlots, Waits;
    FillMany(order, SR_ARPCACHE_SZ);
    RunSnoc(Small(order), Filling(SR_ARPCACHE_SZ), Forward(p, 2));
    ForwardWaits(order, p);
    FilledFree(SR_ARPCACHE_SZ);
  }

  // All within the expiry time; then the gateway answers: nothing was delivered, and the packet waits
  // as before.
  lemma AnswerLost(order: HostOrder, p: IpPacket)
    ensures forall j | 0 <= j < |Starving(p)| :: Admissible(Small(order), Starving(p)[j])
    ensures var s := Run(Small(order), Initial(), Starving(p));
            var t := Run(Small(order), Initial(), Starving(p) + [FROM_GATEWAY]);
            && FreeSlot(s.entries) == |s.entries| && s.requests == [Waits(p, 2)]
            && t.requests == [Waits(p, 3)] && Delivered(t.sent) == multiset{}
  {
    hide Run, Starving, FreeSlot, Delivered, Inv, ArpStep, Admissible, InterfaceOf, Small, Matches, Routable, RouteTo;
    var c, events := Small(order), Starving(p);
    StarvingIsAdmissible(order, p);
    StarvingWaits(order, p);
    OneRoute(order, OWN);
    RunKeeps(c, events);
    RunSnoc(c, events, FROM_GATEWAY);
    AnswerStarves(c, Run(c, Initial(), events), FROM_GATEWAY.header, "eth0", 3, Waiting(p, "eth0"));
  }

  lemma AnswerStarves(c: Config, s: State, h: ArpHeader, interface: string, now: int, w: Waiting)
    requires Inv(c, s, multiset{}) && now > 1 && InterfaceOf(c, interface).ip == h.tip && h.op == ARP_REPLY
    requires FreeSlot(s.entries) == |s.entries|
    requires |s.requests| == 1 && s.requests[0].ip == h.sip && s.requests[0].packets == [w]
    requires forall f | f in s.sent :: f.payload.ArpData?
    ensures var t := ArpStep(c, s, h, interface, now);
            t.requests == [Request(h.sip, now, 1, [w])] && Delivered(t.sent) == multiset{}
  {
    hide Inv, FreeSlot, InterfaceOf, ArpStep, Delivered, ArpRequestFrame;
    FullCacheRequeues(c, s, h, interface, now, 0);
    assert Reverse([w]) == [w];
    assert Without(s.requests, 0) == [];
    var t := ArpStep(c, s, h, interface, now);
    RequestFrameIsArp(c, Request(h.sip, 0, 0, [w]));
    assert [] + t.sent == t.sent;
    ArpFramesDeliverNothing([], t.sent);
    NothingDelivered();
  }

  lemma NothingDelivered()
    ensures Delivered([]) == multiset{}
  {
  }

  // ---------- One frame in, one frame out ----------

  lemma GatewayLearned(order: HostOrder)
    ensures var s := Run(Small(order), Initial(), [FROM_GATEWAY]);
            && s.sent == [] && s.requests == [] && CacheLookup(s.entries, GATEWAY) == Some(OTHER_MAC)
  {
    hide Small, FreeSlot, CacheLookup, InsertEntry, InterfaceOf, ReplyFrame, SendAll, SendIp, UniqueValid, Matches,
         Routable, RouteTo;
    var entries := Initial().entries;
    OneRoute(order, OWN);
    assert [] + [FROM_GATEWAY] == [FROM_GATEWAY];
    RunSnoc(Small(order), [], FROM_GATEWAY);
    LookupNoneIff(entries, GATEWAY);
    assert UniqueValid(entries) by { EmptySlots(); }
    InsertLookup(entries, OTHER_MAC, GATEWAY, 3, GATEWAY);
    assert !entries[0].valid;
  }

  lemma EmptySlots()
    ensures UniqueValid(Initial().entries)
  {
  }

  // Once the gateway is known, every valid frame for another host leaves at once as the only frame.
  lemma OneFrameThrough(order: HostOrder, bytes: seq<byte>)
    requires ValidFrame(bytes) && !ToThisRouter(Small(order), bytes)
    requires 20 <= 0x100 * bytes[16] as int + bytes[17] as int <= |bytes| - 14
    ensures Forwardable(Small(order), bytes) && Rewritten(bytes, HopFrame(bytes))
    ensures var s := Run(Small(order), Initial(), [FROM_GATEWAY]);
            var t := IpStep(Small(order), s, bytes, 4);
            t.sent == [Frame(OTHER_MAC, OWN_MAC, IpData(Datagram(HopFrame(bytes))), "eth0")] && t.requests == []
  {
    hide Run, Small, Accepts, HopFrame, Destination, ToThisRouter, Rewritten, CacheLookup, RouteTo, InterfaceOf,
         Routable;
    var c := Small(order);
    GatewayLearned(order);
    OneRoute(order, Destination(bytes[14..]));
    TransitDelivered(c, Run(c, Initial(), [FROM_GATEWAY]), bytes, 4);
  }
}
