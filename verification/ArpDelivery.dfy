// What happens to the waiting packets when an ARP packet from the awaited address comes, and when an
// ARP request can be answered.

module ArpDelivery {
  import opened Machine
  import opened Routing
  import opened ArpSpec
  import opened ArpInvariant
  import opened ArpCacheMap

  // The router's answer to an ARP packet: one frame for a request, none for a reply.
  ghost function Answer(c: Config, entries: seq<Entry>, h: ArpHeader, interface: string): seq<Frame> {
    if h.op == ARP_REQUEST then [ReplyFrame(c, entries, h, interface)] else []
  }

  lemma LearnThenAnswer(c: Config, s: State, h: ArpHeader, interface: string, now: int)
    requires InterfaceOf(c, interface).ip == h.tip && CacheLookup(s.entries, h.sip).None?
    ensures var t := LearnStep(c, s, h.sha, h.sip, now);
            ArpStep(c, s, h, interface, now) == t.(sent := t.sent + Answer(c, t.entries, h, interface))
  {
    hide LearnStep, ReplyFrame, CacheLookup, InterfaceOf;
  }

  // ---------- A reply with a free slot ----------

  ghost function Frames(c: Config, ws: seq<Waiting>, mac: Mac): seq<Frame> {
    if ws == [] then [] else [IpFrame(c, ws[0].packet, mac)] + Frames(c, ws[1..], mac)
  }

  lemma {:induction false} SendAllHits(c: Config, s: State, ws: seq<Waiting>, ip: Ip, mac: Mac, now: int)
    requires CacheLookup(s.entries, ip) == Some(mac)
    requires forall w | w in ws :: Routed(c, w, ip)
    ensures SendAll(c, s, ws, now) == s.(sent := s.sent + Frames(c, ws, mac))
    decreases |ws|
  {
    hide CacheLookup, Destination, RouteTo, IpFrame, Routable;
    if ws == [] {
      assert s.sent + [] == s.sent;
    } else {
      var f := IpFrame(c, ws[0].packet, mac);
      assert Routed(c, ws[0], ip);
      assert SendIp(c, s, ws[0].packet, now) == s.(sent := s.sent + [f]);
      SendAllHits(c, s.(sent := s.sent + [f]), ws[1..], ip, mac, now);
      assert s.sent + [f] + Frames(c, ws[1..], mac) == s.sent + Frames(c, ws, mac);
    }
  }

  // The sender's address takes a free slot: every packet that waited for it is sent, once, in queue
  // order, to the sender's hardware address; none is queued again, and nothing else happens but the
  // answer, if the ARP packet is itself a request.
  lemma ReplyDeliversAll(c: Config, s: State, h: ArpHeader, interface: string, now: int, i: nat)
    requires Inv(c, s, multiset{}) && InterfaceOf(c, interface).ip == h.tip
    requires i < |s.requests| && s.requests[i].ip == h.sip && FreeSlot(s.entries) < |s.entries|
    ensures var entries := InsertEntry(s.entries, h.sha, h.sip, now);
            && CacheLookup(entries, h.sip) == Some(h.sha)
            && ArpStep(c, s, h, interface, now) ==
               s.(entries := entries,
                  requests := Without(s.requests, i),
                  sent := s.sent + Frames(c, s.requests[i].packets, h.sha) + Answer(c, entries, h, interface))
  {
    hide CacheLookup, Routed, UniqueValid, Spaced, Conserved, LastAsked, InsertEntry, SendAll, FreeSlot, Frames,
         Answer, ArpStep;
    FirstRequest(s.requests, h.sip, i);
    assert RequestOk(c, s.entries, s.asked, s.requests[i]);
    InsertLookup(s.entries, h.sha, h.sip, now, h.sip);
    var entries, rest := InsertEntry(s.entries, h.sha, h.sip, now), Without(s.requests, i);
    SendAllHits(c, s.(entries := entries, requests := rest), s.requests[i].packets, h.sip, h.sha, now);
    LearnThenAnswer(c, s, h, interface, now);
  }

  // ---------- A reply that finds the cache full ----------

  function Reverse(ws: seq<Waiting>): seq<Waiting> {
    if ws == [] then [] else Reverse(ws[1..]) + [ws[0]]
  }

  // Packets sent while their request heads the queue, freshly sent, pile up in front of it.
  lemma {:induction false} SendAllJoins(c: Config, s: State, ws: seq<Waiting>, ip: Ip, now: int)
    requires CacheLookup(s.entries, ip).None?
    requires s.requests != [] && s.requests[0].ip == ip && s.requests[0].sent == now
    requires forall w | w in ws :: Routed(c, w, ip)
    ensures SendAll(c, s, ws, now) ==
            s.(requests := s.requests[0 := s.requests[0].(packets := Reverse(ws) + s.requests[0].packets)])
    decreases |ws|
  {
    hide CacheLookup, Destination, RouteTo, Routable, ArpRequestFrame;
    if ws == [] {
      assert [] + s.requests[0].packets == s.requests[0].packets;
    } else {
      var w, r := ws[0], s.requests[0];
      assert Routed(c, w, ip);
      assert Waiting(w.packet, w.interface) == w;
      var t := s.(requests := s.requests[0 := r.(packets := [w] + r.packets)]);
      assert SendIp(c, s, w.packet, now) == t;
      SendAllJoins(c, t, ws[1..], ip, now);
      assert Reverse(ws[1..]) + ([w] + r.packets) == Reverse(ws) + r.packets;
    }
  }

  // With no free slot the answered request starts over: same packets, in reverse order, in a new
  // request at the head of the queue that is asked once, at once.
  lemma FullCacheRequeues(c: Config, s: State, h: ArpHeader, interface: string, now: int, i: nat)
    requires Inv(c, s, multiset{}) && now > 1 && InterfaceOf(c, interface).ip == h.tip
    requires i < |s.requests| && s.requests[i].ip == h.sip && FreeSlot(s.entries) == |s.entries|
    ensures var r := s.requests[i];
            var again := Request(r.ip, now, 1, Reverse(r.packets));
            var first := Request(r.ip, 0, 0, [r.packets[0]]);
            ArpStep(c, s, h, interface, now) ==
            s.(requests := [again] + Without(s.requests, i),
               sent := s.sent + [ArpRequestFrame(c, first)] + Answer(c, s.entries, h, interface),
               asked := s.asked + [Asked(r.ip, now, 1)])
  {
    hide CacheLookup, Routed, UniqueValid, Spaced, Conserved, LastAsked, FreeSlot, SendAll, ArpRequestFrame,
         Answer, ArpStep;
    var r := s.requests[i];
    FirstRequest(s.requests, h.sip, i);
    assert RequestOk(c, s.entries, s.asked, r);
    RestStaysOk(c, s.entries, s.asked, s.requests, i);
    StartsOver(c, s.(requests := Without(s.requests, i)), r, now);
    LearnThenAnswer(c, s, h, interface, now);
  }

  // The first packet for an address that is neither cached nor queued makes a request, asked at once.
  lemma FirstAsked(c: Config, s: State, w: Waiting, ip: Ip, now: int)
    requires now > 1 && CacheLookup(s.entries, ip).None? && Routed(c, w, ip)
    requires forall j | 0 <= j < |s.requests| :: s.requests[j].ip != ip
    ensures SendIp(c, s, w.packet, now) ==
            s.(requests := [Request(ip, now, 1, [w])] + s.requests,
               sent := s.sent + [ArpRequestFrame(c, Request(ip, 0, 0, [w]))],
               asked := s.asked + [Asked(ip, now, 1)])
  {
    hide CacheLookup, Destination, RouteTo, Routable, ArpRequestFrame, FindRequest;
    AbsentRequest(s.requests, ip);
    var first, asked := Request(ip, 0, 0, [w]), Request(ip, now, 1, [w]);
    assert Waiting(w.packet, w.interface) == w;
    assert ([first] + s.requests)[0 := asked] == [asked] + s.requests;
  }

  // Sending what waited for an address that is neither cached nor queued.
  lemma StartsOver(c: Config, s: State, r: Request, now: int)
    requires now > 1 && r.packets != [] && CacheLookup(s.entries, r.ip).None?
    requires forall j | 0 <= j < |s.requests| :: s.requests[j].ip != r.ip
    requires forall w | w in r.packets :: Routed(c, w, r.ip)
    ensures SendAll(c, s, r.packets, now) ==
            s.(requests := [Request(r.ip, now, 1, Reverse(r.packets))] + s.requests,
               sent := s.sent + [ArpRequestFrame(c, Request(r.ip, 0, 0, [r.packets[0]]))],
               asked := s.asked + [Asked(r.ip, now, 1)])
  {
    hide CacheLookup, Routed, SendAll, SendIp, ArpRequestFrame;
    var w := r.packets[0];
    var u := SendIp(c, s, w.packet, now);
    FirstAsked(c, s, w, r.ip, now);
    SendAllStep(c, s, r.packets, now);
    assert forall x | x in r.packets[1..] :: x in r.packets;
    SendAllJoins(c, u, r.packets[1..], r.ip, now);
    var again := Request(r.ip, now, 1, Reverse(r.packets));
    assert u.requests[0 := again] == [again] + s.requests;
  }

  lemma SendAllStep(c: Config, s: State, ws: seq<Waiting>, now: int)
    requires ws != []
    ensures SendAll(c, s, ws, now) == SendAll(c, SendIp(c, s, ws[0].packet, now), ws[1..], now)
  {
    hide SendIp;
  }

  // ---------- Answering a request ----------

  // The slots once the sender of an ARP packet has been looked up and, if need be, learned.
  function EntriesAfter(entries: seq<Entry>, h: ArpHeader, now: int): seq<Entry> {
    if CacheLookup(entries, h.sip).Some? then entries else InsertEntry(entries, h.sha, h.sip, now)
  }

  lemma LearnedEntries(c: Config, s: State, h: ArpHeader, now: int)
    requires CacheLookup(s.entries, h.sip).None?
    ensures LearnStep(c, s, h.sha, h.sip, now).entries == EntriesAfter(s.entries, h, now)
  {
    hide CacheLookup, InsertEntry, LearnStep;
    LearnEntries(c, s, h.sha, h.sip, now);
  }

  lemma AnswersFrom(c: Config, s: State, h: ArpHeader, interface: string, now: int)
    requires InterfaceOf(c, interface).ip == h.tip
    ensures ArpStep(c, s, h, interface, now).entries == EntriesAfter(s.entries, h, now)
  {
    hide CacheLookup, LearnStep, ReplyFrame, InterfaceOf;
    if CacheLookup(s.entries, h.sip).None? {
      LearnedEntries(c, s, h, now);
    }
  }

  // The reply to an ARP request is addressed from the cache entry of the next hop towards the
  // sender; there is one under this condition.
  ghost predicate ReplyDefined(c: Config, entries: seq<Entry>, h: ArpHeader, now: int) {
    CacheLookup(EntriesAfter(entries, h, now), RouteTo(c, h.sip).gw).Some?
  }

  // A sender that is its own next hop can be answered exactly when it was cached or a slot was free;
  // any other sender exactly when its next hop was cached.
  lemma ReplyDefinedIff(c: Config, entries: seq<Entry>, h: ArpHeader, now: int)
    requires UniqueValid(entries)
    ensures ReplyDefined(c, entries, h, now) <==>
            if RouteTo(c, h.sip).gw == h.sip
            then CacheLookup(entries, h.sip).Some? || FreeSlot(entries) < |entries|
            else CacheLookup(entries, RouteTo(c, h.sip).gw).Some?
  {
    hide CacheLookup, RouteTo, InsertEntry, UniqueValid, FreeSlot;
    if CacheLookup(entries, h.sip).None? {
      InsertLookup(entries, h.sha, h.sip, now, RouteTo(c, h.sip).gw);
    }
  }
}
