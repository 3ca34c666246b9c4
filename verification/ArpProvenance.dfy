// Where packets go: every delivered packet leaves by its own longest-prefix route, to a hardware
// address that an ARP packet of the run announced for that route's gateway.

module ArpProvenance {
  import opened Machine
  import opened Routing
  import opened ArpSpec
  import opened ArpInvariant
  import opened ArpCacheMap

  // Somebody said that mac has the address ip.
  datatype Claim = Claim(ip: Ip, mac: Mac)

  // The ARP packets the router listens to are those for the address of the receiving interface.
  predicate Announces(c: Config, e: Event, claim: Claim) {
    && e.Arp? && InterfaceOf(c, e.interface).ip == e.header.tip
    && claim == Claim(e.header.sip, e.header.sha)
  }

  function ClaimsOf(c: Config, e: Event): set<Claim> {
    if e.Arp? && InterfaceOf(c, e.interface).ip == e.header.tip then {Claim(e.header.sip, e.header.sha)} else {}
  }

  function Claims(c: Config, events: seq<Event>): set<Claim> {
    if events == [] then {} else Claims(c, events[..|events| - 1]) + ClaimsOf(c, events[|events| - 1])
  }

  lemma {:induction false} ClaimsAreAnnounced(c: Config, events: seq<Event>, claim: Claim)
    ensures claim in Claims(c, events) <==> exists j | 0 <= j < |events| :: Announces(c, events[j], claim)
  {
    if events != [] {
      var front := events[..|events| - 1];
      ClaimsAreAnnounced(c, front, claim);
      assert forall j | 0 <= j < |front| :: front[j] == events[j];
    }
  }

  predicate Backed(entries: seq<Entry>, known: set<Claim>) {
    forall i | 0 <= i < |entries| && entries[i].valid :: Claim(entries[i].ip, entries[i].mac) in known
  }

  // An IP packet on the wire: its route's interface as source, a known address of its gateway as
  // destination. The same holds of an ARP answer, if it could be addressed at all.
  ghost predicate Addressed(c: Config, f: Frame, known: set<Claim>) {
    match f.payload
    case IpData(p) =>
      var route := RouteTo(c, Destination(p));
      && f.interface == route.interface
      && f.shost == InterfaceOf(c, route.interface).mac
      && Claim(route.gw, f.dhost) in known
    case ArpData(h) =>
      h.op != ARP_REQUEST && f.dhost != [] ==> Claim(RouteTo(c, h.tip).gw, f.dhost) in known
  }

  ghost predicate AllAddressed(c: Config, sent: seq<Frame>, known: set<Claim>) {
    forall k | 0 <= k < |sent| :: Addressed(c, sent[k], known)
  }

  lemma {:induction false} LookupIsBacked(entries: seq<Entry>, ip: Ip, known: set<Claim>)
    requires Backed(entries, known) && CacheLookup(entries, ip).Some?
    ensures Claim(ip, CacheLookup(entries, ip).value) in known
  {
    var last, front := entries[|entries| - 1], entries[..|entries| - 1];
    if !(last.valid && last.ip == ip) {
      assert forall i | 0 <= i < |front| :: front[i] == entries[i];
      LookupIsBacked(front, ip, known);
    }
  }

  lemma SendIpAddressed(c: Config, s: State, p: IpPacket, now: int, known: set<Claim>)
    requires Backed(s.entries, known) && AllAddressed(c, s.sent, known)
    ensures AllAddressed(c, SendIp(c, s, p, now).sent, known)
  {
    hide RouteTo, Destination, CacheLookup, Enqueue, Packets, Backed;
    var gw := RouteTo(c, Destination(p)).gw;
    if CacheLookup(s.entries, gw).Some? {
      LookupIsBacked(s.entries, gw, known);
    }
  }

  lemma {:induction false} SendAllAddressed(c: Config, s: State, ws: seq<Waiting>, now: int, known: set<Claim>)
    requires Backed(s.entries, known) && AllAddressed(c, s.sent, known)
    ensures AllAddressed(c, SendAll(c, s, ws, now).sent, known)
    decreases |ws|
  {
    hide SendIp, Backed, AllAddressed;
    if ws != [] {
      SendIpAddressed(c, s, ws[0].packet, now, known);
      SendIpKeepsEntries(c, s, ws[0].packet, now);
      SendAllAddressed(c, SendIp(c, s, ws[0].packet, now), ws[1..], now, known);
    }
  }

  lemma InsertIsBacked(entries: seq<Entry>, mac: Mac, ip: Ip, now: int, known: set<Claim>)
    requires Backed(entries, known) && Claim(ip, mac) in known
    ensures Backed(InsertEntry(entries, mac, ip, now), known)
  {
    hide FreeSlot;
  }

  lemma LearnAddressed(c: Config, s: State, mac: Mac, ip: Ip, now: int, known: set<Claim>)
    requires Backed(s.entries, known) && AllAddressed(c, s.sent, known) && Claim(ip, mac) in known
    ensures var t := LearnStep(c, s, mac, ip, now);
            Backed(t.entries, known) && AllAddressed(c, t.sent, known)
  {
    hide InsertEntry, SendAll, Backed, AllAddressed, FindRequest;
    InsertIsBacked(s.entries, mac, ip, now, known);
    LearnEntries(c, s, mac, ip, now);
    var i := FindRequest(s.requests, ip);
    if i < |s.requests| {
      var t := s.(entries := InsertEntry(s.entries, mac, ip, now), requests := Without(s.requests, i));
      SendAllAddressed(c, t, s.requests[i].packets, now, known);
    }
  }

  lemma ForwardAddressed(c: Config, s: State, p: IpPacket, now: int, known: set<Claim>)
    requires Backed(s.entries, known) && AllAddressed(c, s.sent, known)
    ensures var t := ForwardStep(c, s, p, now);
            Backed(t.entries, known) && AllAddressed(c, t.sent, known)
  {
    hide SendIp, Backed, AllAddressed;
    SendIpAddressed(c, s.(accepted := s.accepted + multiset{p}), p, now, known);
    SendIpKeepsEntries(c, s.(accepted := s.accepted + multiset{p}), p, now);
  }

  lemma ReplyAddressed(c: Config, entries: seq<Entry>, h: ArpHeader, interface: string, known: set<Claim>)
    requires Backed(entries, known)
    ensures Addressed(c, ReplyFrame(c, entries, h, interface), known)
  {
    hide CacheLookup, RouteTo, InterfaceOf, Backed;
    var gw := RouteTo(c, h.sip).gw;
    if CacheLookup(entries, gw).Some? {
      LookupIsBacked(entries, gw, known);
    }
  }

  lemma ArpAddressed(c: Config, s: State, h: ArpHeader, interface: string, now: int, known: set<Claim>)
    requires Backed(s.entries, known) && AllAddressed(c, s.sent, known)
    requires InterfaceOf(c, interface).ip == h.tip ==> Claim(h.sip, h.sha) in known
    ensures var t := ArpStep(c, s, h, interface, now);
            Backed(t.entries, known) && AllAddressed(c, t.sent, known)
  {
    hide LearnStep, CacheLookup, InterfaceOf, Backed, Addressed, ReplyFrame;
    if InterfaceOf(c, interface).ip == h.tip {
      LearnAddressed(c, s, h.sha, h.sip, now, known);
      var t := if CacheLookup(s.entries, h.sip).Some? then s else LearnStep(c, s, h.sha, h.sip, now);
      ReplyAddressed(c, t.entries, h, interface, known);
    }
  }

  lemma {:induction false} SweepOnlyAsks(c: Config, requests: seq<Request>, now: int)
    ensures forall f | f in SweepRequests(c, requests, now).sent ::
              f.payload.ArpData? && f.payload.header.op == ARP_REQUEST
  {
    hide RouteTo, InterfaceOf, Packets;
    if requests != [] {
      SweepOnlyAsks(c, requests[1..], now);
    }
  }

  lemma SweepAddressed(c: Config, s: State, now: int, known: set<Claim>)
    requires Backed(s.entries, known) && AllAddressed(c, s.sent, known)
    ensures var t := SweepStep(c, s, now);
            Backed(t.entries, known) && AllAddressed(c, t.sent, known)
  {
    hide SweepRequests, RouteTo, Destination, InterfaceOf;
    SweepOnlyAsks(c, s.requests, now);
  }

  lemma StepAddressed(c: Config, s: State, e: Event, known: set<Claim>)
    requires Backed(s.entries, known) && AllAddressed(c, s.sent, known) && ClaimsOf(c, e) <= known
    ensures var t := Step(c, s, e);
            Backed(t.entries, known) && AllAddressed(c, t.sent, known)
  {
    hide ForwardStep, ArpStep, SweepStep, InterfaceOf, Backed, AllAddressed;
    match e
    case Forward(p, now) => ForwardAddressed(c, s, p, now, known);
    case Arp(h, interface, now) => ArpAddressed(c, s, h, interface, now, known);
    case Sweep(now) => SweepAddressed(c, s, now, known);
  }

  lemma MoreKnown(c: Config, s: State, known: set<Claim>, more: set<Claim>)
    requires Backed(s.entries, known) && AllAddressed(c, s.sent, known) && known <= more
    ensures Backed(s.entries, more) && AllAddressed(c, s.sent, more)
  {
    hide RouteTo, Destination, InterfaceOf;
  }

  lemma {:induction false} RunAddressed(c: Config, s: State, events: seq<Event>)
    requires Backed(s.entries, {}) && AllAddressed(c, s.sent, {})
    ensures Backed(Run(c, s, events).entries, Claims(c, events))
    ensures AllAddressed(c, Run(c, s, events).sent, Claims(c, events))
  {
    hide Step, Backed, AllAddressed, ClaimsOf;
    if events != [] {
      var front := events[..|events| - 1];
      RunAddressed(c, s, front);
      MoreKnown(c, Run(c, s, front), Claims(c, front), Claims(c, events));
      StepAddressed(c, Run(c, s, front), events[|events| - 1], Claims(c, events));
    }
  }

  lemma FromTheStart(c: Config, events: seq<Event>)
    ensures AllAddressed(c, Run(c, Initial(), events).sent, Claims(c, events))
  {
    hide Run, Backed, AllAddressed, Claims;
    EmptyIsBacked();
    NothingSent(c);
    RunAddressed(c, Initial(), events);
  }

  lemma EmptyIsBacked()
    ensures Backed(Initial().entries, {})
  {
  }

  lemma NothingSent(c: Config)
    ensures AllAddressed(c, [], {})
  {
  }

  // In every run, each delivered packet left by the interface of its own route, to a hardware address
  // that some ARP packet of the run gave for the gateway of that route.
  lemma DeliveredAsAnnounced(c: Config, events: seq<Event>, k: nat)
    requires k < |Run(c, Initial(), events).sent| && Run(c, Initial(), events).sent[k].payload.IpData?
    ensures var f := Run(c, Initial(), events).sent[k];
            var route := RouteTo(c, Destination(f.payload.packet));
            && f.interface == route.interface && f.shost == InterfaceOf(c, route.interface).mac
            && exists j | 0 <= j < |events| :: Announces(c, events[j], Claim(route.gw, f.dhost))
  {
    hide Run, RouteTo, Destination, Announces, Claims;
    FromTheStart(c, events);
    var f := Run(c, Initial(), events).sent[k];
    ClaimsAreAnnounced(c, events, Claim(RouteTo(c, Destination(f.payload.packet)).gw, f.dhost));
  }

  // An ARP answer that could be addressed went to a hardware address given for the gateway of its
  // route in the same way.
  lemma AnsweredAsAnnounced(c: Config, events: seq<Event>, k: nat)
    requires k < |Run(c, Initial(), events).sent|
    requires var f := Run(c, Initial(), events).sent[k];
             f.payload.ArpData? && f.payload.header.op != ARP_REQUEST && f.dhost != []
    ensures var f := Run(c, Initial(), events).sent[k];
            var claim := Claim(RouteTo(c, f.payload.header.tip).gw, f.dhost);
            exists j | 0 <= j < |events| :: Announces(c, events[j], claim)
  {
    hide Run, RouteTo, Announces, Claims;
    FromTheStart(c, events);
    var f := Run(c, Initial(), events).sent[k];
    assert Addressed(c, f, Claims(c, events));
    ClaimsAreAnnounced(c, events, Claim(RouteTo(c, f.payload.header.tip).gw, f.dhost));
  }
}
