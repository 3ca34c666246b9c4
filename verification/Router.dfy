// The router: FillAndSendPkt, the retry logic, and the three entry points (ARP frame, IP frame,
// one-second sweep), each refining the corresponding step of ArpSpec.

module Routers {
  import opened Machine
  import opened Routing
  import opened ArpSpec
  import opened ArpCaching
  import opened ArpInvariant
  import opened ArpDelivery
  import opened IpForwarding

  // Every route leaves by an existing interface, and every gateway has a route itself.
  ghost predicate ConfigOk(c: Config) {
    forall i | 0 <= i < |c.table| :: c.table[i].interface in c.interfaces && Routable(c.table, c.table[i].gw)
  }

  // An ARP packet on the wire: broadcast for a request, to the cached next hop for a reply.
  ghost function ArpFrame(c: Config, entries: seq<Entry>, h: ArpHeader, dip: Ip): Frame {
    var route := RouteTo(c, dip);
    var mac := if h.op == ARP_REQUEST then BROADCAST
               else match CacheLookup(entries, route.gw) case Some(m) => m case None => [];
    Frame(mac, InterfaceOf(c, route.interface).mac, ArpData(h), route.interface)
  }

  lemma RouteIsOk(c: Config, ip: Ip)
    requires ConfigOk(c) && Routable(c.table, ip)
    ensures Lookup(c.order, c.table, ip) == Some(RouteTo(c, ip))
    ensures RouteTo(c, ip).interface in c.interfaces && Routable(c.table, RouteTo(c, ip).gw)
  {
    hide LastLargest;
    LargestMatches(c.order, c.table, ip, SelectedIndex(c.order, c.table, ip));
  }

  class Router {
    const config: Config
    const routing: RoutingTable
    const cache: ArpCache

    ghost var sent: seq<Frame>
    ghost var asked: seq<Asked>
    ghost var accepted: multiset<IpPacket>
    ghost var dropped: multiset<IpPacket>

    ghost predicate Valid()
      reads this, routing, cache
    {
      cache.Valid() && routing.routes == config.table && ConfigOk(config)
    }

    ghost function Model(): State
      reads this, cache, cache.entries, cache.requests
    {
      State(cache.entries[..], cache.Values(), sent, asked, accepted, dropped)
    }

    ghost function Objects(): set<ArpRequest>
      reads cache
    {
      set r | r in cache.requests
    }

    constructor (config: Config)
      requires ConfigOk(config)
      ensures Valid() && Model() == Initial() && this.config == config
      ensures fresh(routing) && fresh(cache) && fresh(cache.entries) && cache.requests == []
    {
      hide ConfigOk;
      this.config := config;
      routing := new RoutingTable();
      cache := new ArpCache();
      sent, asked, accepted, dropped := [], [], multiset{}, multiset{};
      new;
      var i := 0;
      while i < |config.table|
        invariant i <= |config.table| && routing.routes == config.table[..i]
        invariant cache.Valid() && cache.requests == [] && cache.entries[..] == Initial().entries
        invariant sent == [] && asked == [] && accepted == multiset{} && dropped == multiset{}
      {
        var r := config.table[i];
        routing.AddEntry(r.dest, r.gw, r.mask, r.interface);
        i := i + 1;
      }
    }

    // sr_send_packet: the frame leaves by the interface.
    ghost method SendPacket(frame: Frame)
      modifies this`sent
      ensures sent == old(sent) + [frame]
    {
      sent := sent + [frame];
    }

    method FillAndSendPkt(payload: Payload, dip: Ip, now: int)
      requires Valid() && Routable(config.table, dip)
      requires payload.IpData? ==> dip == Destination(payload.packet)
      requires payload.ArpData? && payload.header.op != ARP_REQUEST ==>
                 CacheLookup(cache.entries[..], RouteTo(config, dip).gw).Some?
      modifies this`sent, this`asked, this`dropped, cache`requests, if payload.IpData? then Objects() else {}
      ensures Valid()
      ensures forall r | r in cache.requests :: r in old(cache.requests) || fresh(r)
      ensures payload.IpData? ==> Model() == SendIp(config, old(Model()), payload.packet, now)
      ensures payload.ArpData? ==>
                && cache.requests == old(cache.requests) && cache.Values() == old(cache.Values())
                && asked == old(asked) && dropped == old(dropped)
                && sent == old(sent) + [ArpFrame(config, cache.entries[..], payload.header, dip)]
      decreases if payload.IpData? then 2 else 0, 0
    {
      hide Destination, CacheLookup, ConfigOk, RouteTo, HandleRequest, Enqueue, ArpRequestFrame, NoRepeats, FindRequest;
      RouteIsOk(config, dip);
      var route := routing.LongestPrefixMatch(config.order, dip);
      var rt := route.value;
      var entry := cache.Lookup(rt.gw);
      if entry.Some? || payload.ArpData? {
        var dhost := if payload.ArpData? && payload.header.op == ARP_REQUEST then BROADCAST else entry.value.mac;
        var interface := config.interfaces[rt.interface];
        SendPacket(Frame(dhost, interface.mac, payload, rt.interface));
      } else {
        QueueAndAsk(payload.packet, rt, now);
      }
    }

    // The branch that finds no cache entry: queue the packet, ask for the address if it is time to.
    method QueueAndAsk(p: IpPacket, rt: Route, now: int)
      requires Valid() && rt.interface in config.interfaces && Routable(config.table, rt.gw)
      modifies this`sent, this`asked, this`dropped, cache`requests, cache.requests
      ensures Valid()
      ensures forall r | r in cache.requests :: r in old(cache.requests) || fresh(r)
      ensures var queued := Enqueue(old(cache.Values()), rt.gw, Waiting(p, rt.interface));
              Model() == HandleRequest(config, old(Model()).(requests := queued), FindRequest(queued, rt.gw), now)
      decreases 1, 2
    {
      hide ConfigOk, HandleRequest, Enqueue, Routable, NoRepeats;
      ghost var w, before := Waiting(p, rt.interface), cache.Values();
      QueuedInFront(before, rt.gw, w);
      var request := cache.QueueRequest(rt.gw, Waiting(p, rt.interface));
      ghost var i := FindRequest(cache.Values(), rt.gw);
      assert cache.Values()[i] == request.Value();
      ArpReqHandle(request, i, now);
    }

    // sr_arpreq_handle.
    method ArpReqHandle(request: ArpRequest, ghost i: nat, now: int)
      requires Valid() && i < |cache.requests| && cache.requests[i] == request
      requires request.packets != [] && request.packets[0].interface in config.interfaces
      requires Routable(config.table, request.ip)
      modifies this`sent, this`asked, this`dropped, cache`requests, request
      ensures Valid()
      ensures cache.requests == old(cache.requests) ||
              cache.requests == old(cache.requests[..i] + cache.requests[i + 1..])
      ensures Model() == HandleRequest(config, old(Model()), i, now)
      decreases 1, 1
    {
      hide ArpRequestFrame, ConfigOk, Packets, NoRepeats, Without, ValuesOf;
      assert cache.Values()[i] == request.Value() by { ValueAt(cache.requests, i); }
      if now - request.sent > 1 {
        if request.timesSent >= MAX_SENDS {
          dropped := dropped + Packets(request.packets);
          cache.Destroy(request);
        } else {
          Resend(request, i, now);
        }
      }
    }

    // Ask again and restart the timer.
    method Resend(request: ArpRequest, ghost i: nat, now: int)
      requires Valid() && i < |cache.requests| && cache.requests[i] == request
      requires request.packets != [] && request.packets[0].interface in config.interfaces
      requires Routable(config.table, request.ip)
      modifies this`sent, this`asked, this`dropped, cache`requests, request
      ensures Valid() && cache.requests == old(cache.requests)
      ensures cache.Values() ==
              old(cache.Values())[i := old(request.Value()).(sent := now, timesSent := old(request.timesSent) + 1)]
      ensures sent == old(sent) + [ArpRequestFrame(config, old(request.Value()))]
      ensures asked == old(asked) + [Asked(request.ip, now, old(request.timesSent) + 1)] && dropped == old(dropped)
      decreases 1, 0, 1
    {
      hide ArpRequestFrame, ConfigOk, NoRepeats, ValuesOf;
      SendArpRequest(request, now);
      asked := asked + [Asked(request.ip, now, request.timesSent + 1)];
      MarkSent(request, i, now);
    }

    method MarkSent(request: ArpRequest, ghost i: nat, now: int)
      requires Valid() && i < |cache.requests| && cache.requests[i] == request
      modifies request
      ensures cache.Values() ==
              old(cache.Values())[i := old(request.Value()).(sent := now, timesSent := old(request.timesSent) + 1)]
    {
      request.sent := now;
      request.timesSent := request.timesSent + 1;
    }

    // send_arp_request.
    method SendArpRequest(request: ArpRequest, now: int)
      requires Valid() && request in cache.requests
      requires request.packets != [] && request.packets[0].interface in config.interfaces
      requires Routable(config.table, request.ip)
      modifies this`sent, this`asked, this`dropped, cache`requests
      ensures Valid() && cache.requests == old(cache.requests)
      ensures sent == old(sent) + [ArpRequestFrame(config, request.Value())]
      ensures asked == old(asked) && dropped == old(dropped)
      decreases 1, 0, 0
    {
      hide ConfigOk, RouteTo;
      var interface := config.interfaces[request.packets[0].interface];
      var header := ArpHeader(ARP_REQUEST, interface.mac, interface.ip, None, request.ip);
      FillAndSendPkt(ArpData(header), request.ip, now);
    }

    // sr_arpreq_send_packets, on a request that has left the queue.
    method SendPackets(request: ArpRequest, now: int)
      requires Valid() && request !in cache.requests
      requires forall w | w in request.packets :: Routable(config.table, Destination(w.packet))
      modifies this`sent, this`asked, this`dropped, cache`requests, cache.requests
      ensures Valid() && Model() == SendAll(config, old(Model()), old(request.packets), now)
      ensures forall r | r in cache.requests :: r in old(cache.requests) || fresh(r)
    {
      hide Destination, SendIp, ConfigOk, NoRepeats, Routable, SendAll;
      var ws, j := request.packets, 0;
      while j < |ws|
        invariant j <= |ws| && Valid()
        invariant forall r | r in cache.requests :: r in old(cache.requests) || fresh(r)
        invariant SendAll(config, Model(), ws[j..], now) == SendAll(config, old(Model()), ws, now)
      {
        SendAllStep(config, Model(), ws[j..], now);
        assert ws[j..][1..] == ws[j + 1..];
        FillAndSendPkt(IpData(ws[j].packet), Destination(ws[j].packet), now);
        j := j + 1;
      }
      assert ws[j..] == [];
      SendNothing(config, Model(), now);
    }

    // sr_arpcache_insert followed by the sending of what waited.
    method Learn(mac: Mac, ip: Ip, now: int)
      requires Valid() && QueueOk(config, cache.entries[..], asked, cache.Values())
      modifies this`sent, this`asked, this`dropped, cache`requests, cache.requests, cache.entries
      ensures Valid() && Model() == LearnStep(config, old(Model()), mac, ip, now)
    {
      hide Destination, ConfigOk, Routable, SendAll, CacheLookup, LastAsked, InsertEntry;
      ghost var before, i := cache.Values(), FindRequest(cache.Values(), ip);
      ghost var objects := cache.requests;
      assert i < |objects| ==> before[i] == objects[i].Value();
      assert i < |objects| ==> RequestOk(config, cache.entries[..], asked, before[i]);
      var request := cache.Insert(mac, ip, now);
      if request != null {
        assert forall k | 0 <= k < |cache.requests| :: cache.requests[k] in objects;
        SendPackets(request, now);
      }
    }

    // HandleArpRequst: answer with the address of the receiving interface.
    method AnswerRequest(h: ArpHeader, interface: string, now: int)
      requires Valid() && Routable(config.table, h.sip) && interface in config.interfaces
      requires CacheLookup(cache.entries[..], RouteTo(config, h.sip).gw).Some?
      modifies this`sent, this`asked, this`dropped, cache`requests
      ensures Valid()
      ensures Model() == old(Model()).(sent := old(sent) + [ReplyFrame(config, cache.entries[..], h, interface)])
    {
      hide RouteTo, CacheLookup, ConfigOk, NoRepeats, ValuesOf;
      var own := config.interfaces[interface];
      FillAndSendPkt(ArpData(ArpHeader(ARP_REPLY, own.mac, own.ip, Some(h.sha), h.sip)), h.sip, now);
    }

    // The ARP branch of sr_handlepacket.
    method HandleArp(h: ArpHeader, interface: string, now: int)
      requires Valid() && Inv(config, Model(), multiset{}) && now > 1
      requires interface in config.interfaces
      requires h.op == ARP_REQUEST && config.interfaces[interface].ip == h.tip ==>
                 Routable(config.table, h.sip) && ReplyDefined(config, cache.entries[..], h, now)
      modifies this`sent, this`asked, this`dropped, cache`requests, cache.requests, cache.entries
      ensures Valid() && Model() == ArpStep(config, old(Model()), h, interface, now)
      ensures Inv(config, Model(), multiset{})
    {
      hide CacheLookup, ConfigOk, NoRepeats, RouteTo, LearnStep, QueueOk, Conserved, Spaced, UniqueValid, ReplyFrame,
           ValuesOf, InsertEntry;
      StepKeeps(config, Model(), Arp(h, interface, now));
      ghost var before := Model();
      if config.interfaces[interface].ip != h.tip {
        return;
      }
      var entry := cache.Lookup(h.sip);
      if entry.None? {
        LearnedEntries(config, before, h, now);
        Learn(h.sha, h.sip, now);
      }
      if h.op == ARP_REQUEST {
        AnswerRequest(h, interface, now);
      }
    }

    // Every queued request can be asked for.
    ghost predicate Ready()
      reads this, cache, cache.requests
    {
      forall r | r in cache.Values() :: CanAsk(config, r)
    }

    // sr_arpreq_handle on the request at position n of the walk.
    method SweepNext(request: ArpRequest, ghost n: nat, now: int)
      requires Valid() && n < |cache.requests| && cache.requests[n] == request
      requires CanAsk(config, cache.Values()[n])
      modifies this`sent, this`asked, this`dropped, cache`requests, request
      ensures Valid()
      ensures var v, o := old(cache.Values()), SweepOne(config, old(cache.Values()[n]), NOTHING_SWEPT, now);
              && cache.Values() == v[..n] + o.requests + v[n + 1..]
              && sent == old(sent) + o.sent && asked == old(asked) + o.asked && dropped == old(dropped) + o.dropped
              && (var more := if o.requests == [] then [] else [request];
                  cache.requests == old(cache.requests[..n]) + more + old(cache.requests[n + 1..]))
    {
      hide ConfigOk, NoRepeats, HandleRequest, SweepOne;
      ghost var s := Model();
      assert s.requests == s.requests[..n] + ([s.requests[n]] + s.requests[n + 1..]);
      HandleSplit(config, s, s.requests[..n], s.requests[n], s.requests[n + 1..], now);
      OneOrNone(config, s.requests[n], now);
      assert cache.requests == cache.requests[..n] + [request] + cache.requests[n + 1..];
      ArpReqHandle(request, n, now);
    }

    // The walk has handled w's share of the queue; kept are the request objects it left in place.
    ghost predicate Walked(kept: seq<ArpRequest>, w: Swept, pending: seq<ArpRequest>, values: seq<Request>,
                           before: State)
      reads this, cache, cache.requests
    {
      && |pending| == |values| && |kept| == |w.requests|
      && cache.requests == kept + pending
      && cache.Values() == w.requests + values
      && sent == before.sent + w.sent && asked == before.asked + w.asked && dropped == before.dropped + w.dropped
    }

    method SweepOneMore(request: ArpRequest, now: int, ghost kept: seq<ArpRequest>, ghost w: Swept,
                        ghost pending: seq<ArpRequest>, ghost values: seq<Request>, ghost before: State)
      requires Valid() && pending != [] && pending[0] == request
      requires Walked(kept, w, pending, values, before) && CanAsk(config, values[0])
      modifies this`sent, this`asked, this`dropped, cache`requests, request
      ensures Valid()
      ensures var o := SweepOne(config, values[0], NOTHING_SWEPT, now);
              var more := if o.requests == [] then [] else [request];
              Walked(kept + more, Join(w, o), pending[1..], values[1..], before)
    {
      hide ConfigOk, NoRepeats, CanAsk, SweepOne, ValuesOf;
      ghost var o := SweepOne(config, values[0], NOTHING_SWEPT, now);
      OneOrNone(config, values[0], now);
      ReplaceNext(kept, pending, if o.requests == [] then [] else [request]);
      ReplaceNext(w.requests, values, o.requests);
      SweepNext(request, |kept|, now);
    }

    // sr_arpcache_sweepreqs: walk the queue as it was, handling each request.
    method SweepQueue(now: int)
      requires Valid() && Ready()
      modifies this`sent, this`asked, this`dropped, cache`requests, cache.requests
      ensures Valid()
      ensures var w := SweepRequests(config, old(cache.Values()), now);
              && cache.Values() == w.requests && sent == old(sent) + w.sent && asked == old(asked) + w.asked
              && dropped == old(dropped) + w.dropped
    {
      hide ConfigOk, NoRepeats, CanAsk, SweepRequests, SweepOne, ValuesOf, Walked, Join;
      ghost var values, s := cache.Values(), Model();
      var pending := cache.requests;
      ghost var kept: seq<ArpRequest>, w, done := [], NOTHING_SWEPT, [];
      SweepEmpty(config, now);
      WalkStarts(s);
      while pending != []
        invariant |pending| == |values| && Valid()
        invariant forall r | r in pending :: r in old(cache.requests)
        invariant forall r | r in values :: CanAsk(config, r)
        invariant w == SweepRequests(config, done, now) && done + values == s.requests
        invariant Walked(kept, w, pending, values, s)
        decreases |pending|
      {
        var current := pending[0];
        assert current in pending && current in old(cache.requests);
        assert values[0] in values;
        ghost var o := SweepOne(config, values[0], NOTHING_SWEPT, now);
        SweepSnoc(config, done, values[0], now);
        MoveNext(done, values);
        SweepOneMore(current, now, kept, w, pending, values, s);
        kept, w, done := kept + (if o.requests == [] then [] else [current]), Join(w, o), done + [values[0]];
        pending, values := pending[1..], values[1..];
      }
      WalkEnds(kept, w, s);
      assert done == s.requests;
    }

    lemma WalkStarts(s: State)
      requires s == Model()
      ensures Walked([], NOTHING_SWEPT, cache.requests, cache.Values(), s)
    {
    }

    lemma WalkEnds(kept: seq<ArpRequest>, w: Swept, s: State)
      requires Walked(kept, w, [], [], s)
      ensures cache.Values() == w.requests && sent == s.sent + w.sent && asked == s.asked + w.asked
      ensures dropped == s.dropped + w.dropped
    {
    }

    // One iteration of the loop in sr_arpcache_timeout.
    method Timeout(now: int)
      requires Valid() && Inv(config, Model(), multiset{})
      modifies this`sent, this`asked, this`dropped, cache`requests, cache.requests, cache.entries
      ensures Valid() && Model() == SweepStep(config, old(Model()), now)
      ensures Inv(config, Model(), multiset{})
    {
      hide ConfigOk, NoRepeats, QueueOk, Conserved, Spaced, UniqueValid, Expire, SweepRequests, CanAsk;
      SweepKeeps(config, Model(), now);
      forall r | r in cache.Values() ensures CanAsk(config, r) {
        QueuedCanAsk(config, Model(), r);
      }
      cache.ExpireAll(now);
      SweepQueue(now);
    }

    // The IP branch of sr_handlepacket; packets for the router itself are not modelled further.
    method HandleIp(frame: array<byte>, now: int)
      requires Valid() && Inv(config, Model(), multiset{}) && now > 1
      requires Forwardable(config, frame[..])
      modifies this`sent, this`asked, this`dropped, this`accepted, cache`requests, cache.requests, frame
      ensures Valid() && Model() == IpStep(config, old(Model()), old(frame[..]), now)
      ensures Inv(config, Model(), multiset{})
      ensures if ValidFrame(old(frame[..])) && !ToThisRouter(config, old(frame[..])) then
                Rewritten(old(frame[..]), frame[..]) && accepted == old(accepted) + multiset{Datagram(frame[..])}
              else Model() == old(Model())
    {
      hide ConfigOk, NoRepeats, QueueOk, Conserved, Spaced, UniqueValid, Accepts, Hop, SetSum, TotalLength,
           HeaderLength, Destination, SendIp, LocalAddress, Routable, ValuesOf,
           Rewritten, ToThisRouter;
      assert frame as object != cache.entries as object;
      ghost var bytes, s := frame[..], Model();
      var accepted := Receive(config.order, frame);
      assert Model() == s;
      if !accepted {
        return;
      }
      ghost var p := bytes[ETHERNET_HEADER..];
      AcceptedLengths(p);
      SumIsIgnored(p, [0, 0]);
      DestinationKept(p, [0, 0], TotalLength(p));
      assert frame[ETHERNET_HEADER..] == SetSum(p, [0, 0]);
      IpStepBytes(config, bytes, bytes[..ETHERNET_HEADER] + Hop(p));
      if LocalAddress(config, Destination(frame[ETHERNET_HEADER..])) {
        return;
      }
      var copy := ForwardToNextHop(config.order, frame);
      assert copy == Hop(p)[..TotalLength(p)];
      assert frame[..] == bytes[..ETHERNET_HEADER] + Hop(p);
      ghost var after := frame[..];
      StepKeeps(config, s, Forward(copy, now));
      this.accepted := this.accepted + multiset{copy};
      assert Model() == s.(accepted := s.accepted + multiset{copy});
      FillAndSendPkt(IpData(copy), Destination(copy), now);
    }
  }

  const NOTHING_SWEPT := Swept([], [], [], multiset{})

  // send_arp_request has an interface to take the sender addresses from and a route to leave by.
  ghost predicate CanAsk(c: Config, r: Request) {
    r.packets != [] && r.packets[0].interface in c.interfaces && Routable(c.table, r.ip)
  }

  lemma QueuedCanAsk(c: Config, s: State, r: Request)
    requires ConfigOk(c) && Inv(c, s, multiset{}) && r in s.requests
    ensures CanAsk(c, r)
  {
    hide ConfigOk, RouteTo, Destination, CacheLookup, Routable, Spaced, Conserved, UniqueValid, LastAsked;
    assert RequestOk(c, s.entries, s.asked, r);
    var w := r.packets[0];
    assert Routed(c, w, r.ip);
    RouteIsOk(c, Destination(w.packet));
  }

  // Position |front| of front + items holds items[0]; replacing it extends the front.
  lemma ReplaceNext<T>(front: seq<T>, items: seq<T>, middle: seq<T>)
    requires items != []
    ensures var all := front + items;
            && |front| < |all| && all[|front|] == items[0]
            && all[..|front|] + middle + all[|front| + 1..] == (front + middle) + items[1..]
  {
    var all := front + items;
    assert all[..|front|] == front && all[|front| + 1..] == items[1..];
  }

  lemma MoveNext<T>(front: seq<T>, items: seq<T>)
    requires items != []
    ensures front + [items[0]] + items[1..] == front + items
  {
  }

  lemma SweepEmpty(c: Config, now: int)
    ensures SweepRequests(c, [], now) == NOTHING_SWEPT
  {
  }

  ghost function Join(x: Swept, y: Swept): Swept {
    Swept(x.requests + y.requests, x.sent + y.sent, x.asked + y.asked, x.dropped + y.dropped)
  }

  lemma {:induction false} SweepSnoc(c: Config, requests: seq<Request>, r: Request, now: int)
    ensures SweepRequests(c, requests + [r], now) ==
            Join(SweepRequests(c, requests, now), SweepOne(c, r, NOTHING_SWEPT, now))
  {
    hide SweepOne;
    var o := SweepOne(c, r, NOTHING_SWEPT, now);
    if requests == [] {
      assert [] + [r] == [r] && [r][1..] == [];
      assert Join(NOTHING_SWEPT, o) == o;
    } else {
      assert (requests + [r])[1..] == requests[1..] + [r];
      SweepSnoc(c, requests[1..], r, now);
      SweepOneJoin(c, requests[0], SweepRequests(c, requests[1..], now), o, now);
    }
  }

  lemma SweepOneJoin(c: Config, r: Request, x: Swept, y: Swept, now: int)
    ensures SweepOne(c, r, Join(x, y), now) == Join(SweepOne(c, r, x, now), y)
  {
    hide ArpRequestFrame, Packets;
  }

  lemma OneOrNone(c: Config, r: Request, now: int)
    ensures |SweepOne(c, r, NOTHING_SWEPT, now).requests| <= 1
  {
    hide ArpRequestFrame, Packets;
  }

  // Handling the request behind those already swept is sweeping it alone.
  lemma HandleSplit(c: Config, s: State, front: seq<Request>, r: Request, back: seq<Request>, now: int)
    requires s.requests == front + ([r] + back)
    ensures var o := SweepOne(c, r, NOTHING_SWEPT, now);
            HandleRequest(c, s, |front|, now) ==
            s.(requests := front + o.requests + back, sent := s.sent + o.sent, asked := s.asked + o.asked,
               dropped := s.dropped + o.dropped)
  {
    hide ArpRequestFrame, Packets, Without;
    var r' := r.(sent := now, timesSent := r.timesSent + 1);
    assert s.requests[|front|] == r;
    SplitAt(s.requests, front, r, r', back);
  }

  lemma SplitAt(requests: seq<Request>, front: seq<Request>, r: Request, r': Request, back: seq<Request>)
    requires requests == front + ([r] + back)
    ensures Without(requests, |front|) == front + [] + back
    ensures requests[|front| := r'] == front + [r'] + back
    ensures requests == front + [r] + back
  {
  }

  // ---------- IP frames ----------

  // sr_interface_ip_match.
  predicate LocalAddress(c: Config, ip: Ip) {
    exists n | n in c.interfaces :: c.interfaces[n].ip == ip
  }

  // What the source takes for granted of a frame it forwards: the total length covers the header
  // and lies within the frame, and the destination has a route.
  ghost predicate Forwardable(c: Config, frame: seq<byte>) {
    |frame| >= ETHERNET_HEADER && Accepts(frame[ETHERNET_HEADER..]) ==>
      && IP_HEADER <= TotalLength(frame[ETHERNET_HEADER..]) <= |frame| - ETHERNET_HEADER
      && Routable(c.table, Destination(frame[ETHERNET_HEADER..]))
  }

  // The IP branch: an invalid or local packet changes nothing here, any other is forwarded.
  ghost function IpStep(c: Config, s: State, frame: seq<byte>, now: int): State
    requires Forwardable(c, frame)
  {
    if |frame| < ETHERNET_HEADER || !Accepts(frame[ETHERNET_HEADER..]) then s
    else
      var p := frame[ETHERNET_HEADER..];
      if LocalAddress(c, Destination(p)) then s else ForwardStep(c, s, Hop(p)[..TotalLength(p)], now)
  }

  // The address as it stands in a header.
  function AddressBytes(ip: Ip): seq<byte> {
    [ip.a, ip.b, ip.c, ip.d]
  }

  lemma LocalBytes(c: Config, p: IpPacket)
    ensures LocalAddress(c, Destination(p)) <==>
            exists n | n in c.interfaces :: AddressBytes(c.interfaces[n].ip) == p[16..20]
  {
    hide Destination, AddressBytes;
    forall n | n in c.interfaces
      ensures c.interfaces[n].ip == Destination(p) <==> AddressBytes(c.interfaces[n].ip) == p[16..20]
    {
      DestinationBytes(p, c.interfaces[n].ip);
      AddressIs(c.interfaces[n].ip);
    }
  }

  lemma AddressIs(ip: Ip)
    ensures AddressBytes(ip) == [ip.a, ip.b, ip.c, ip.d]
  {
  }

  // ---------- The same on the bytes of the frame ----------

  predicate ValidFrame(bytes: seq<byte>) {
    |bytes| >= 34 && Accepts(bytes[14..])
  }

  // Bytes 30 to 33, the destination, are the address of an interface.
  predicate ToThisRouter(c: Config, bytes: seq<byte>)
    requires |bytes| >= 34
  {
    exists n | n in c.interfaces :: AddressBytes(c.interfaces[n].ip) == bytes[30..34]
  }

  // One hop: byte 22, the time to live, goes down by one modulo 256, bytes 24 and 25 make the header
  // valid again, and every other byte stays; the packet ends within the frame.
  predicate Rewritten(bytes: seq<byte>, after: seq<byte>) {
    && |after| == |bytes| && ValidFrame(after)
    && after[22] as int == (bytes[22] as int + 255) % 256
    && after[..22] == bytes[..22] && after[23] == bytes[23] && after[26..] == bytes[26..]
    && 20 <= 0x100 * after[16] as int + after[17] as int <= |after| - 14
  }

  // The IP packet in the frame, as long as bytes 16 and 17 say.
  function Datagram(bytes: seq<byte>): IpPacket
    requires |bytes| >= 34 && 20 <= 0x100 * bytes[16] as int + bytes[17] as int <= |bytes| - 14
  {
    bytes[14..14 + 0x100 * bytes[16] as int + bytes[17] as int]
  }

  lemma IpStepBytes(c: Config, bytes: seq<byte>, after: seq<byte>)
    requires Forwardable(c, bytes) && ValidFrame(bytes)
    requires after == bytes[..14] + Hop(bytes[14..])
    ensures LocalAddress(c, Destination(bytes[14..])) <==> ToThisRouter(c, bytes)
    ensures Rewritten(bytes, after) && Hop(bytes[14..])[..TotalLength(bytes[14..])] == Datagram(after)
  {
    hide HeaderChecksum, HeaderLength, Destination, AddressBytes, LocalAddress, Routable;
    var p := bytes[14..];
    LocalBytes(c, p);
    assert p[16..20] == bytes[30..34];
    AcceptedLengths(p);
    AgedIsAccepted(p, Decrement(p[TTL]));
    assert after[14..] == Hop(p);
    assert forall i | 14 <= i < |bytes| && i != 22 && i != 24 && i != 25 ::
        after[i] == Hop(p)[i - 14] == p[i - 14] == bytes[i];
  }

  // The frame after the hop.
  function HopFrame(bytes: seq<byte>): (after: seq<byte>)
    requires ValidFrame(bytes)
    ensures |after| == |bytes|
  {
    AcceptedLengths(bytes[14..]);
    bytes[..14] + Hop(bytes[14..])
  }

  // In the model, a valid frame for another host whose next hop is cached goes out at once, rewritten,
  // to the cached hardware address, and nothing else changes.
  lemma TransitDelivered(c: Config, s: State, bytes: seq<byte>, now: int)
    requires ValidFrame(bytes) && Forwardable(c, bytes) && !ToThisRouter(c, bytes)
    ensures Rewritten(bytes, HopFrame(bytes))
    ensures var route, p := RouteTo(c, Destination(bytes[14..])), Datagram(HopFrame(bytes));
            match CacheLookup(s.entries, route.gw)
            case None => true
            case Some(mac) =>
              IpStep(c, s, bytes, now) ==
              s.(accepted := s.accepted + multiset{p},
                 sent := s.sent + [Frame(mac, InterfaceOf(c, route.interface).mac, IpData(p), route.interface)])
  {
    hide Accepts, Hop, TotalLength, LocalAddress, ToThisRouter, RouteTo, CacheLookup, InterfaceOf, Destination,
         Rewritten;
    var p := bytes[14..];
    IpStepBytes(c, bytes, HopFrame(bytes));
    AcceptedLengths(p);
    DestinationKept(p, [0, 0], TotalLength(p));
  }

  lemma AcceptedLengths(p: seq<byte>)
    requires Accepts(p)
    ensures |p| >= IP_HEADER && HeaderLength(p) <= |p|
  {
  }

  // Neither the cleared checksum nor the hop nor the cut touches the destination.
  lemma DestinationKept(p: seq<byte>, s: seq<byte>, n: nat)
    requires |p| >= IP_HEADER && HeaderLength(p) <= |p| && |s| == 2 && IP_HEADER <= n <= |p|
    ensures Destination(SetSum(p, s)) == Destination(p)
    ensures Destination(Hop(p)[..n]) == Destination(p)
  {
    hide HeaderChecksum, HeaderLength;
  }

  lemma SendNothing(c: Config, s: State, now: int)
    ensures SendAll(c, s, [], now) == s
  {
  }

  lemma ValueAt(requests: seq<ArpRequest>, i: nat)
    requires i < |requests|
    ensures ValuesOf(requests)[i] == requests[i].Value()
  {
  }
}
