// What every reachable state of the ARP machinery satisfies: one request per address, no address
// both cached and queued, packets waiting where their route says, bounded and spaced retries, and
// no packet lost or duplicated.

module ArpInvariant {
  import opened Machine
  import opened Routing
  import opened ArpSpec

  // ---------- The invariant ----------

  predicate UniqueValid(entries: seq<Entry>) {
    forall i, j | 0 <= i < j < |entries| && entries[i].valid && entries[j].valid :: entries[i].ip != entries[j].ip
  }

  predicate DistinctIps(requests: seq<Request>) {
    forall i, j | 0 <= i < j < |requests| :: requests[i].ip != requests[j].ip
  }

  // The waiting packet's own route has this gateway and leaves by this interface.
  ghost predicate Routed(c: Config, w: Waiting, ip: Ip) {
    && Routable(c.table, Destination(w.packet))
    && RouteTo(c, Destination(w.packet)).gw == ip
    && RouteTo(c, Destination(w.packet)).interface == w.interface
  }

  function LastAsked(asked: seq<Asked>, ip: Ip): Option<Asked> {
    if asked == [] then None
    else if asked[|asked| - 1].ip == ip then Some(asked[|asked| - 1])
    else LastAsked(asked[..|asked| - 1], ip)
  }

  // Attempts are numbered 1 to 5, and a repeated attempt follows the previous one for the same
  // address by at least two seconds.
  predicate Spaced(asked: seq<Asked>) {
    asked == [] ||
    var last, before := asked[|asked| - 1], asked[..|asked| - 1];
    && Spaced(before)
    && 1 <= last.attempt <= 5
    && (last.attempt > 1 ==>
          match LastAsked(before, last.ip)
          case None => false
          case Some(a) => a.attempt + 1 == last.attempt && last.at - a.at >= 2)
  }

  ghost predicate RequestOk(c: Config, entries: seq<Entry>, asked: seq<Asked>, r: Request) {
    && CacheLookup(entries, r.ip).None?
    && r.packets != []
    && (forall w | w in r.packets :: Routed(c, w, r.ip))
    && 1 <= r.timesSent <= 5
    && LastAsked(asked, r.ip) == Some(Asked(r.ip, r.sent, r.timesSent))
  }

  ghost predicate QueueOk(c: Config, entries: seq<Entry>, asked: seq<Asked>, requests: seq<Request>) {
    DistinctIps(requests) && forall i | 0 <= i < |requests| :: RequestOk(c, entries, asked, requests[i])
  }

  function Queued(requests: seq<Request>): multiset<IpPacket> {
    if requests == [] then multiset{} else Packets(requests[0].packets) + Queued(requests[1..])
  }

  function Delivered(sent: seq<Frame>): multiset<IpPacket> {
    if sent == [] then multiset{}
    else
      var last := sent[|sent| - 1];
      Delivered(sent[..|sent| - 1]) + if last.payload.IpData? then multiset{last.payload.packet} else multiset{}
  }

  // Every accepted packet is queued, delivered, dropped, or one of those in hand.
  predicate Conserved(s: State, inHand: multiset<IpPacket>) {
    s.accepted == Queued(s.requests) + Delivered(s.sent) + s.dropped + inHand
  }

  ghost predicate Inv(c: Config, s: State, inHand: multiset<IpPacket>) {
    && |s.entries| == SR_ARPCACHE_SZ && UniqueValid(s.entries)
    && QueueOk(c, s.entries, s.asked, s.requests)
    && Spaced(s.asked)
    && Conserved(s, inHand)
  }

  // ---------- Cache lemmas ----------

  lemma {:induction false} LookupNoneIff(entries: seq<Entry>, ip: Ip)
    ensures CacheLookup(entries, ip).None? <==>
            forall i | 0 <= i < |entries| :: !(entries[i].valid && entries[i].ip == ip)
  {
    if entries != [] {
      var front := entries[..|entries| - 1];
      LookupNoneIff(front, ip);
      assert forall i | 0 <= i < |front| :: entries[i] == front[i];
    }
  }

  // With at most one valid slot per address the scan direction does not matter.
  lemma {:induction false} LookupFinds(entries: seq<Entry>, i: nat)
    requires UniqueValid(entries) && i < |entries| && entries[i].valid
    ensures CacheLookup(entries, entries[i].ip) == Some(entries[i].mac)
  {
    var n := |entries| - 1;
    if i < n {
      assert forall j | 0 <= j < n :: entries[..n][j] == entries[j];
      LookupFinds(entries[..n], i);
    }
  }

  // Inserting an address that is not cached: found if there was a free slot, other addresses as before.
  lemma InsertLookup(entries: seq<Entry>, mac: Mac, ip: Ip, now: int, other: Ip)
    requires UniqueValid(entries) && CacheLookup(entries, ip).None?
    ensures UniqueValid(InsertEntry(entries, mac, ip, now))
    ensures other != ip ==> CacheLookup(InsertEntry(entries, mac, ip, now), other) == CacheLookup(entries, other)
    ensures CacheLookup(InsertEntry(entries, mac, ip, now), ip) ==
            if FreeSlot(entries) < |entries| then Some(mac) else None
  {
    hide FreeSlot, CacheLookup;
    var i, r := FreeSlot(entries), InsertEntry(entries, mac, ip, now);
    LookupNoneIff(entries, ip);
    if i < |entries| {
      assert forall j | 0 <= j < |r| && j != i :: r[j] == entries[j];
      assert UniqueValid(r);
      LookupFinds(r, i);
      if other != ip {
        SameLookup(entries, r, i, other);
      }
    }
  }

  // Changing a slot that is not valid for an address, before or after, keeps its lookup.
  lemma {:induction false} SameLookup(x: seq<Entry>, y: seq<Entry>, i: nat, ip: Ip)
    requires |x| == |y| && i < |x| && forall j | 0 <= j < |x| && j != i :: x[j] == y[j]
    requires !(x[i].valid && x[i].ip == ip) && !(y[i].valid && y[i].ip == ip)
    ensures CacheLookup(x, ip) == CacheLookup(y, ip)
  {
    var n := |x| - 1;
    if i == n {
      assert x[..n] == y[..n];
    } else {
      SameLookup(x[..n], y[..n], i, ip);
    }
  }

  lemma ExpireKeeps(entries: seq<Entry>, now: int, ip: Ip)
    requires UniqueValid(entries)
    ensures UniqueValid(Expire(entries, now))
    ensures CacheLookup(entries, ip).None? ==> CacheLookup(Expire(entries, now), ip).None?
  {
    hide CacheLookup, Expire;
    LookupNoneIff(entries, ip);
    LookupNoneIff(Expire(entries, now), ip);
  }

  // ---------- Multiset lemmas ----------

  lemma {:induction false} QueuedWithout(requests: seq<Request>, i: nat)
    requires i < |requests|
    ensures Queued(requests) == Queued(Without(requests, i)) + Packets(requests[i].packets)
  {
    hide Packets;
    if i == 0 {
      assert Without(requests, 0) == requests[1..];
    } else {
      QueuedWithout(requests[1..], i - 1);
      assert Without(requests, i) == [requests[0]] + Without(requests[1..], i - 1);
      assert Without(requests, i)[1..] == Without(requests[1..], i - 1);
    }
  }

  lemma QueuedUpdate(requests: seq<Request>, i: nat, r: Request)
    requires i < |requests|
    ensures Queued(requests) == Queued(Without(requests, i)) + Packets(requests[i].packets)
    ensures Queued(requests[i := r]) == Queued(Without(requests, i)) + Packets(r.packets)
  {
    hide Packets, Queued;
    QueuedWithout(requests, i);
    QueuedWithout(requests[i := r], i);
    assert Without(requests[i := r], i) == Without(requests, i);
  }

  lemma DeliveredAppend(sent: seq<Frame>, f: Frame)
    ensures Delivered(sent + [f]) ==
            Delivered(sent) + if f.payload.IpData? then multiset{f.payload.packet} else multiset{}
  {
    assert (sent + [f])[..|sent|] == sent;
  }

  lemma LastAskedAppend(asked: seq<Asked>, a: Asked, ip: Ip)
    ensures LastAsked(asked + [a], ip) == if a.ip == ip then Some(a) else LastAsked(asked, ip)
  {
    assert (asked + [a])[..|asked|] == asked;
  }

  lemma SpacedAppend(asked: seq<Asked>, a: Asked)
    requires Spaced(asked) && 1 <= a.attempt <= MAX_SENDS
    requires a.attempt > 1 ==>
               LastAsked(asked, a.ip).Some? && LastAsked(asked, a.ip).value.attempt + 1 == a.attempt &&
               a.at - LastAsked(asked, a.ip).value.at >= 2
    ensures Spaced(asked + [a])
  {
    hide LastAsked;
    assert (asked + [a])[..|asked|] == asked;
  }

  // ---------- Handling one request ----------

  lemma RestStaysOk(c: Config, entries: seq<Entry>, asked: seq<Asked>, requests: seq<Request>, i: nat)
    requires QueueOk(c, entries, asked, requests) && i < |requests|
    ensures QueueOk(c, entries, asked, Without(requests, i))
    ensures forall j | 0 <= j < |Without(requests, i)| :: Without(requests, i)[j].ip != requests[i].ip
  {
    hide RequestOk;
    var w := Without(requests, i);
    assert forall j | 0 <= j < |w| :: w[j] == requests[if j < i then j else j + 1];
  }

  // Asking for one address leaves the log of the others alone.
  lemma OthersStayOk(c: Config, entries: seq<Entry>, asked: seq<Asked>, requests: seq<Request>, a: Asked)
    requires QueueOk(c, entries, asked, requests)
    requires forall j | 0 <= j < |requests| :: requests[j].ip != a.ip
    ensures QueueOk(c, entries, asked + [a], requests)
  {
    hide LastAsked, Routed;
    forall j | 0 <= j < |requests| ensures RequestOk(c, entries, asked + [a], requests[j]) {
      LastAskedAppend(asked, a, requests[j].ip);
    }
  }

  lemma UpdateStaysOk(c: Config, entries: seq<Entry>, asked: seq<Asked>, requests: seq<Request>, i: nat, r: Request)
    requires i < |requests| && r.ip == requests[i].ip && DistinctIps(requests)
    requires QueueOk(c, entries, asked, Without(requests, i)) && RequestOk(c, entries, asked, r)
    ensures QueueOk(c, entries, asked, requests[i := r])
  {
    hide RequestOk;
    var w, u := Without(requests, i), requests[i := r];
    assert forall j | 0 <= j < i :: u[j] == w[j];
    assert forall j | i < j < |u| :: u[j] == w[j - 1];
  }

  lemma HandleKeeps(c: Config, s: State, i: nat, now: int, inHand: multiset<IpPacket>)
    requires Inv(c, s, inHand) && i < |s.requests|
    ensures Inv(c, HandleRequest(c, s, i, now), inHand)
  {
    hide Queued, Delivered, Packets, LastAsked, Spaced, Routed, CacheLookup, UniqueValid;
    var r, t := s.requests[i], HandleRequest(c, s, i, now);
    if now - r.sent > 1 {
      RestStaysOk(c, s.entries, s.asked, s.requests, i);
      if r.timesSent >= MAX_SENDS {
        QueuedWithout(s.requests, i);
      } else {
        var a, r' := Asked(r.ip, now, r.timesSent + 1), r.(sent := now, timesSent := r.timesSent + 1);
        SpacedAppend(s.asked, a);
        LastAskedAppend(s.asked, a, r.ip);
        OthersStayOk(c, s.entries, s.asked, Without(s.requests, i), a);
        UpdateStaysOk(c, s.entries, s.asked + [a], s.requests, i, r');
        QueuedUpdate(s.requests, i, r');
        DeliveredAppend(s.sent, ArpRequestFrame(c, r));
      }
    }
  }

  // ---------- Sending one packet ----------

  lemma {:induction false} PacketsAppend(x: seq<Waiting>, y: seq<Waiting>)
    ensures Packets(x + y) == Packets(x) + Packets(y)
  {
    if x == [] {
      assert x + y == y;
    } else {
      assert (x + y)[1..] == x[1..] + y;
      PacketsAppend(x[1..], y);
    }
  }

  lemma PacketsCons(w: Waiting, ws: seq<Waiting>)
    ensures Packets([w] + ws) == multiset{w.packet} + Packets(ws)
  {
    assert ([w] + ws)[1..] == ws;
  }

  lemma JoinKeeps(c: Config, s: State, i: nat, w: Waiting, inHand: multiset<IpPacket>)
    requires Inv(c, s, inHand + multiset{w.packet}) && i < |s.requests|
    requires Routed(c, w, s.requests[i].ip)
    ensures Inv(c, s.(requests := s.requests[i := s.requests[i].(packets := [w] + s.requests[i].packets)]), inHand)
  {
    hide Queued, Delivered, Packets, LastAsked, Spaced, Routed, CacheLookup, UniqueValid;
    var r := s.requests[i];
    var r' := r.(packets := [w] + r.packets);
    PacketsCons(w, r.packets);
    QueuedUpdate(s.requests, i, r');
    RestStaysOk(c, s.entries, s.asked, s.requests, i);
    UpdateStaysOk(c, s.entries, s.asked, s.requests, i, r');
  }

  lemma NewRequestKeeps(c: Config, s: State, w: Waiting, ip: Ip, now: int, inHand: multiset<IpPacket>)
    requires Inv(c, s, inHand + multiset{w.packet}) && now > 1
    requires Routed(c, w, ip) && CacheLookup(s.entries, ip).None?
    requires forall j | 0 <= j < |s.requests| :: s.requests[j].ip != ip
    ensures Inv(c, HandleRequest(c, s.(requests := [Request(ip, 0, 0, [w])] + s.requests), 0, now), inHand)
  {
    hide Queued, Delivered, Packets, LastAsked, Spaced, Routed, CacheLookup, UniqueValid;
    var r, r', a := Request(ip, 0, 0, [w]), Request(ip, now, 1, [w]), Asked(ip, now, 1);
    assert ([r] + s.requests)[0 := r'] == [r'] + s.requests;
    SpacedAppend(s.asked, a);
    LastAskedAppend(s.asked, a, ip);
    OthersStayOk(c, s.entries, s.asked, s.requests, a);
    HeadStaysOk(c, s.entries, s.asked + [a], s.requests, r');
    DeliveredAppend(s.sent, ArpRequestFrame(c, r));
    QueuedCons(r', s.requests);
    PacketsCons(w, []);
    assert [w] + [] == [w] && Packets([]) == multiset{} by { NoPackets(); }
  }

  lemma NoPackets()
    ensures Packets([]) == multiset{} && Queued([]) == multiset{}
  {
  }

  lemma QueuedCons(r: Request, requests: seq<Request>)
    ensures Queued([r] + requests) == Packets(r.packets) + Queued(requests)
  {
    assert ([r] + requests)[1..] == requests;
  }

  lemma HeadStaysOk(c: Config, entries: seq<Entry>, asked: seq<Asked>, requests: seq<Request>, r: Request)
    requires QueueOk(c, entries, asked, requests) && RequestOk(c, entries, asked, r)
    requires forall j | 0 <= j < |requests| :: requests[j].ip != r.ip
    ensures QueueOk(c, entries, asked, [r] + requests)
  {
    hide RequestOk;
    var u := [r] + requests;
    assert forall j | 0 < j < |u| :: u[j] == requests[j - 1];
  }

  // FillAndSendPkt takes one packet out of hand: it is delivered, or it waits with its request, or
  // it is dropped with it.
  lemma SendIpKeeps(c: Config, s: State, p: IpPacket, now: int, inHand: multiset<IpPacket>)
    requires Inv(c, s, inHand + multiset{p}) && now > 1
    requires Routable(c.table, Destination(p))
    ensures Inv(c, SendIp(c, s, p, now), inHand)
  {
    hide Queued, Delivered, Packets, QueueOk, Spaced, CacheLookup, UniqueValid, HandleRequest, FindRequest,
         Destination, RouteTo;
    var route := RouteTo(c, Destination(p));
    if CacheLookup(s.entries, route.gw).Some? {
      DeliveredAppend(s.sent, IpFrame(c, p, CacheLookup(s.entries, route.gw).value));
    } else {
      var w, i := Waiting(p, route.interface), FindRequest(s.requests, route.gw);
      if i < |s.requests| {
        JoinKeeps(c, s, i, w, inHand);
        HandleKeeps(c, s.(requests := Enqueue(s.requests, route.gw, w)), i, now, inHand);
      } else {
        NewRequestKeeps(c, s, w, route.gw, now, inHand);
      }
    }
  }

  lemma {:induction false} SendAllKeeps(c: Config, s: State, ws: seq<Waiting>, now: int, inHand: multiset<IpPacket>)
    requires Inv(c, s, inHand + Packets(ws)) && now > 1
    requires forall w | w in ws :: Routable(c.table, Destination(w.packet))
    ensures Inv(c, SendAll(c, s, ws, now), inHand)
    decreases |ws|
  {
    hide Inv, SendIp, Destination;
    if ws == [] {
      assert inHand + Packets([]) == inHand;
    } else {
      assert inHand + Packets(ws) == (inHand + Packets(ws[1..])) + multiset{ws[0].packet};
      SendIpKeeps(c, s, ws[0].packet, now, inHand + Packets(ws[1..]));
      SendAllKeeps(c, SendIp(c, s, ws[0].packet, now), ws[1..], now, inHand);
    }
  }

  // ---------- Learning an address ----------

  lemma EntriesStayOk(c: Config, entries: seq<Entry>, entries': seq<Entry>, asked: seq<Asked>, requests: seq<Request>)
    requires QueueOk(c, entries, asked, requests)
    requires forall j | 0 <= j < |requests| :: CacheLookup(entries', requests[j].ip).None?
    ensures QueueOk(c, entries', asked, requests)
  {
    hide CacheLookup, LastAsked, Routed;
  }

  lemma LearnKeeps(c: Config, s: State, mac: Mac, ip: Ip, now: int)
    requires Inv(c, s, multiset{}) && now > 1
    requires CacheLookup(s.entries, ip).None?
    ensures Inv(c, LearnStep(c, s, mac, ip, now), multiset{})
  {
    hide Queued, Delivered, Packets, LastAsked, Spaced, CacheLookup, UniqueValid, InsertEntry, SendAll, RouteTo,
         Destination;
    var i, entries := FindRequest(s.requests, ip), InsertEntry(s.entries, mac, ip, now);
    forall other ensures other != ip ==> CacheLookup(entries, other) == CacheLookup(s.entries, other) {
      InsertLookup(s.entries, mac, ip, now, other);
    }
    InsertLookup(s.entries, mac, ip, now, ip);
    if i < |s.requests| {
      var ws := s.requests[i].packets;
      RestStaysOk(c, s.entries, s.asked, s.requests, i);
      EntriesStayOk(c, s.entries, entries, s.asked, Without(s.requests, i));
      QueuedWithout(s.requests, i);
      SendAllKeeps(c, s.(entries := entries, requests := Without(s.requests, i)), ws, now, multiset{});
    } else {
      EntriesStayOk(c, s.entries, entries, s.asked, s.requests);
    }
  }

  // ---------- Sweeping ----------

  lemma {:induction false} ArpFramesDeliverNothing(sent: seq<Frame>, more: seq<Frame>)
    requires forall f | f in more :: f.payload.ArpData?
    ensures Delivered(sent + more) == Delivered(sent)
  {
    if more == [] {
      assert sent + more == sent;
    } else {
      var n := |more| - 1;
      assert sent + more == (sent + more[..n]) + [more[n]];
      DeliveredAppend(sent + more[..n], more[n]);
      ArpFramesDeliverNothing(sent, more[..n]);
    }
  }

  predicate Mentions(requests: seq<Request>, ip: Ip) {
    exists j | 0 <= j < |requests| :: requests[j].ip == ip
  }

  lemma {:induction false} SweepFrames(c: Config, requests: seq<Request>, now: int)
    ensures forall f | f in SweepRequests(c, requests, now).sent :: f.payload.ArpData?
    ensures Queued(requests) ==
            Queued(SweepRequests(c, requests, now).requests) + SweepRequests(c, requests, now).dropped
  {
    hide SweepOne, Queued;
    if requests == [] {
      NoPackets();
    } else {
      SweepFrames(c, requests[1..], now);
      assert requests == [requests[0]] + requests[1..];
      QueuedCons(requests[0], requests[1..]);
      SweepOneFrames(c, requests[0], SweepRequests(c, requests[1..], now), now);
    }
  }

  lemma SweepOneFrames(c: Config, r: Request, rest: Swept, now: int)
    requires forall f | f in rest.sent :: f.payload.ArpData?
    ensures forall f | f in SweepOne(c, r, rest, now).sent :: f.payload.ArpData?
    ensures var w := SweepOne(c, r, rest, now);
            Queued(w.requests) + w.dropped == Packets(r.packets) + (Queued(rest.requests) + rest.dropped)
  {
    hide Packets, Queued, RouteTo;
    QueuedCons(r, rest.requests);
    QueuedCons(r.(sent := now, timesSent := r.timesSent + 1), rest.requests);
  }

  // What a sweep of the given requests leaves behind, in terms of the log before it.
  ghost predicate SweptOk(c: Config, entries: seq<Entry>, asked: seq<Asked>, requests: seq<Request>, w: Swept) {
    && Spaced(asked + w.asked)
    && QueueOk(c, entries, asked + w.asked, w.requests)
    && (forall ip | Mentions(w.requests, ip) :: Mentions(requests, ip))
    && (forall ip | !Mentions(requests, ip) :: LastAsked(asked + w.asked, ip) == LastAsked(asked, ip))
  }

  lemma {:induction false} SweepQueue(c: Config, entries: seq<Entry>, asked: seq<Asked>, requests: seq<Request>,
                                      now: int)
    requires QueueOk(c, entries, asked, requests) && Spaced(asked)
    ensures SweptOk(c, entries, asked, requests, SweepRequests(c, requests, now))
    decreases |requests|
  {
    hide RequestOk, Spaced, LastAsked, SweepOne, SweptOk;
    if requests == [] {
      NothingSwept(c, entries, asked);
    } else {
      var r, rest := requests[0], requests[1..];
      assert Without(requests, 0) == rest && requests == [r] + rest;
      RestStaysOk(c, entries, asked, requests, 0);
      var w := SweepRequests(c, rest, now);
      if now - r.sent > 1 && r.timesSent < MAX_SENDS {
        var a := Asked(r.ip, now, r.timesSent + 1);
        ResendOk(c, entries, asked, rest, r, now);
        SweepQueue(c, entries, asked + [a], rest, now);
        SweptResend(c, entries, asked, rest, r, w, now);
      } else {
        SweepQueue(c, entries, asked, rest, now);
        SweptOther(c, entries, asked, rest, r, w, now);
      }
    }
  }

  lemma NothingSwept(c: Config, entries: seq<Entry>, asked: seq<Asked>)
    requires QueueOk(c, entries, asked, []) && Spaced(asked)
    ensures SweptOk(c, entries, asked, [], Swept([], [], [], multiset{}))
  {
    assert asked + [] == asked;
  }

  lemma ResendOk(c: Config, entries: seq<Entry>, asked: seq<Asked>, rest: seq<Request>, r: Request, now: int)
    requires QueueOk(c, entries, asked, rest) && RequestOk(c, entries, asked, r) && Spaced(asked)
    requires forall j | 0 <= j < |rest| :: rest[j].ip != r.ip
    requires now - r.sent > 1 && r.timesSent < MAX_SENDS
    ensures QueueOk(c, entries, asked + [Asked(r.ip, now, r.timesSent + 1)], rest)
    ensures Spaced(asked + [Asked(r.ip, now, r.timesSent + 1)])
  {
    hide Spaced, LastAsked;
    SpacedAppend(asked, Asked(r.ip, now, r.timesSent + 1));
    OthersStayOk(c, entries, asked, rest, Asked(r.ip, now, r.timesSent + 1));
  }

  lemma SweptResend(c: Config, entries: seq<Entry>, asked: seq<Asked>, rest: seq<Request>, r: Request, w: Swept,
                    now: int)
    requires RequestOk(c, entries, asked, r) && !Mentions(rest, r.ip)
    requires now - r.sent > 1 && r.timesSent < MAX_SENDS
    requires SweptOk(c, entries, asked + [Asked(r.ip, now, r.timesSent + 1)], rest, w)
    ensures SweptOk(c, entries, asked, [r] + rest, SweepOne(c, r, w, now))
  {
    hide Spaced, LastAsked, Routed, CacheLookup, Mentions, ArpRequestFrame;
    var a, r' := Asked(r.ip, now, r.timesSent + 1), r.(sent := now, timesSent := r.timesSent + 1);
    var log := asked + [a] + w.asked;
    assert log == asked + SweepOne(c, r, w, now).asked;
    forall ip ensures LastAsked(asked + [a], ip) == if ip == r.ip then Some(a) else LastAsked(asked, ip) {
      LastAskedAppend(asked, a, ip);
    }
    MentionsCons(r, rest);
    MentionsCons(r', w.requests);
    NotMentioned(w.requests, r.ip);
    HeadStaysOk(c, entries, log, w.requests, r');
  }

  lemma SweptOther(c: Config, entries: seq<Entry>, asked: seq<Asked>, rest: seq<Request>, r: Request, w: Swept,
                   now: int)
    requires RequestOk(c, entries, asked, r) && !Mentions(rest, r.ip)
    requires !(now - r.sent > 1 && r.timesSent < MAX_SENDS)
    requires SweptOk(c, entries, asked, rest, w)
    ensures SweptOk(c, entries, asked, [r] + rest, SweepOne(c, r, w, now))
  {
    hide Spaced, LastAsked, Routed, CacheLookup, Mentions, Packets;
    MentionsCons(r, rest);
    MentionsCons(r, w.requests);
    NotMentioned(w.requests, r.ip);
    if now - r.sent <= 1 {
      HeadStaysOk(c, entries, asked + w.asked, w.requests, r);
    }
  }

  lemma NotMentioned(requests: seq<Request>, ip: Ip)
    ensures !Mentions(requests, ip) <==> forall j | 0 <= j < |requests| :: requests[j].ip != ip
  {
  }

  lemma MentionsCons(r: Request, rest: seq<Request>)
    ensures forall ip :: Mentions([r] + rest, ip) <==> ip == r.ip || Mentions(rest, ip)
  {
    var u := [r] + rest;
    forall ip ensures Mentions(u, ip) <==> ip == r.ip || Mentions(rest, ip) {
      if Mentions(rest, ip) {
        var j :| 0 <= j < |rest| && rest[j].ip == ip;
        assert u[j + 1].ip == ip;
      }
      assert u[0].ip == r.ip;
      assert forall j | 0 < j < |u| :: u[j] == rest[j - 1];
    }
  }

  lemma SweepKeeps(c: Config, s: State, now: int)
    requires Inv(c, s, multiset{})
    ensures Inv(c, SweepStep(c, s, now), multiset{})
  {
    hide Queued, Delivered, CacheLookup, LastAsked, Spaced, UniqueValid, SweepRequests, Expire, Routed, Mentions;
    var w := SweepRequests(c, s.requests, now);
    SweepQueue(c, s.entries, s.asked, s.requests, now);
    SweepFrames(c, s.requests, now);
    ArpFramesDeliverNothing(s.sent, w.sent);
    forall ip ensures CacheLookup(s.entries, ip).None? ==> CacheLookup(Expire(s.entries, now), ip).None? {
      ExpireKeeps(s.entries, now, ip);
    }
    ExpireKeeps(s.entries, now, NO_ADDRESS);
    EntriesStayOk(c, s.entries, Expire(s.entries, now), s.asked + w.asked, w.requests);
  }

  // ---------- Every run ----------

  // The clock is past the first second of the epoch, and a forwarded packet has a route.
  ghost predicate Admissible(c: Config, e: Event) {
    e.now > 1 && (e.Forward? ==> Routable(c.table, Destination(e.packet)))
  }

  lemma StepKeeps(c: Config, s: State, e: Event)
    requires Inv(c, s, multiset{}) && Admissible(c, e)
    ensures Inv(c, Step(c, s, e), multiset{})
  {
    hide Queued, Delivered, QueueOk, Spaced, CacheLookup, UniqueValid, SweepStep, LearnStep, SendIp, Destination;
    match e
    case Forward(p, now) =>
      var t := s.(accepted := s.accepted + multiset{p});
      assert Inv(c, t, multiset{} + multiset{p});
      SendIpKeeps(c, t, p, now, multiset{});
    case Arp(h, interface, now) =>
      if InterfaceOf(c, interface).ip == h.tip {
        if CacheLookup(s.entries, h.sip).None? {
          LearnKeeps(c, s, h.sha, h.sip, now);
        }
        var t := if CacheLookup(s.entries, h.sip).Some? then s else LearnStep(c, s, h.sha, h.sip, now);
        DeliveredAppend(t.sent, ReplyFrame(c, t.entries, h, interface));
      }
    case Sweep(now) =>
      SweepKeeps(c, s, now);
  }

  lemma InitialOk(c: Config)
    ensures Inv(c, Initial(), multiset{})
  {
    var s := Initial();
    assert forall i | 0 <= i < |s.entries| :: !s.entries[i].valid;
  }

  // Every state reached from the empty router, over any sequence of events.
  lemma {:induction false} RunKeeps(c: Config, events: seq<Event>)
    requires forall i | 0 <= i < |events| :: Admissible(c, events[i])
    ensures Inv(c, Run(c, Initial(), events), multiset{})
  {
    hide Inv, Step, Admissible;
    if events == [] {
      InitialOk(c);
    } else {
      RunKeeps(c, events[..|events| - 1]);
      StepKeeps(c, Run(c, Initial(), events[..|events| - 1]), events[|events| - 1]);
    }
  }
}
