// The ARP cache, the queue of outstanding requests and the router's sending path as functions on
// values: one function per operation of sr_arpcache.c and per sending function of sr_router.c.

module ArpSpec {
  import opened Machine
  import opened Routing

  const SR_ARPCACHE_SZ := 100
  const SR_ARPCACHE_TO := 15
  const MAX_SENDS := 5
  const ARP_REQUEST: uint16 := 1
  const ARP_REPLY: uint16 := 2

  type Mac = seq<byte>

  const BROADCAST: Mac := [255, 255, 255, 255, 255, 255]

  // An IP packet long enough to hold a header.
  type IpPacket = p: seq<byte> | |p| >= 20 witness seq(20, _ => 0)

  function Destination(p: IpPacket): Ip {
    Ip(p[16], p[17], p[18], p[19])
  }

  // The destination of a packet is an address exactly when bytes 16 to 19 are those of the address.
  lemma DestinationBytes(p: IpPacket, ip: Ip)
    ensures Destination(p) == ip <==> p[16..20] == [ip.a, ip.b, ip.c, ip.d]
  {
    assert p[16..20] == [p[16], p[17], p[18], p[19]];
  }

  datatype Interface = Interface(ip: Ip, mac: Mac)

  datatype Config = Config(order: HostOrder, table: seq<Route>, interfaces: map<string, Interface>)

  // struct sr_arpentry.
  datatype Entry = Entry(mac: Mac, ip: Ip, added: int, valid: bool)

  // struct sr_packet: a packet waiting for a reply, and the interface it will leave by.
  datatype Waiting = Waiting(packet: IpPacket, interface: string)

  // struct sr_arpreq.
  datatype Request = Request(ip: Ip, sent: int, timesSent: nat, packets: seq<Waiting>)

  // The target hardware address of a request is left unset.
  datatype ArpHeader = ArpHeader(op: uint16, sha: Mac, sip: Ip, tha: Option<Mac>, tip: Ip)

  datatype Payload = IpData(packet: IpPacket) | ArpData(header: ArpHeader)

  datatype Frame = Frame(dhost: Mac, shost: Mac, payload: Payload, interface: string)

  // One transmission of an ARP request: which address, when, and the how-manyeth.
  datatype Asked = Asked(ip: Ip, at: int, attempt: nat)

  // The cache and the queue, with the history of the run: frames sent, ARP requests sent, packets
  // taken in for forwarding and packets dropped with their request.
  datatype State = State(entries: seq<Entry>, requests: seq<Request>, sent: seq<Frame>, asked: seq<Asked>,
                         accepted: multiset<IpPacket>, dropped: multiset<IpPacket>)

  // ---------- Routes ----------

  const NO_ADDRESS := Ip(0, 0, 0, 0)

  ghost function RouteTo(c: Config, ip: Ip): Route {
    match Lookup(c.order, c.table, ip)
    case Some(route) => route
    case None => Route(NO_ADDRESS, NO_ADDRESS, NO_ADDRESS, "")
  }

  function InterfaceOf(c: Config, name: string): Interface {
    if name in c.interfaces then c.interfaces[name] else Interface(NO_ADDRESS, [])
  }

  // ---------- The cache ----------

  // sr_arpcache_lookup: the last valid slot with the address.
  function CacheLookup(entries: seq<Entry>, ip: Ip): Option<Mac> {
    if entries == [] then None
    else
      var last := entries[|entries| - 1];
      if last.valid && last.ip == ip then Some(last.mac) else CacheLookup(entries[..|entries| - 1], ip)
  }

  function FreeSlot(entries: seq<Entry>): (i: nat)
    ensures i <= |entries|
    ensures forall j | 0 <= j < i :: entries[j].valid
    ensures i < |entries| ==> !entries[i].valid
  {
    if entries == [] || !entries[0].valid then 0 else 1 + FreeSlot(entries[1..])
  }

  // The second half of sr_arpcache_insert.
  function InsertEntry(entries: seq<Entry>, mac: Mac, ip: Ip, now: int): (r: seq<Entry>)
    ensures |r| == |entries|
  {
    var i := FreeSlot(entries);
    if i < |entries| then entries[i := Entry(mac, ip, now, true)] else entries
  }

  function ExpireEntry(e: Entry, now: int): Entry {
    if e.valid && now - e.added > SR_ARPCACHE_TO then e.(valid := false) else e
  }

  function Expire(entries: seq<Entry>, now: int): (r: seq<Entry>)
    ensures |r| == |entries|
    ensures forall i | 0 <= i < |entries| :: r[i] == ExpireEntry(entries[i], now)
  {
    seq(|entries|, i requires 0 <= i < |entries| => ExpireEntry(entries[i], now))
  }

  // ---------- The queue ----------

  function FindRequest(requests: seq<Request>, ip: Ip): (i: nat)
    ensures i <= |requests|
    ensures forall j | 0 <= j < i :: requests[j].ip != ip
    ensures i < |requests| ==> requests[i].ip == ip
  {
    if requests == [] || requests[0].ip == ip then 0 else 1 + FindRequest(requests[1..], ip)
  }

  lemma FirstRequest(requests: seq<Request>, ip: Ip, i: nat)
    requires i < |requests| && requests[i].ip == ip
    requires forall j | 0 <= j < i :: requests[j].ip != ip
    ensures FindRequest(requests, ip) == i
  {
    hide FindRequest;
  }

  lemma AbsentRequest(requests: seq<Request>, ip: Ip)
    requires forall j | 0 <= j < |requests| :: requests[j].ip != ip
    ensures FindRequest(requests, ip) == |requests|
  {
    hide FindRequest;
  }

  function Without(requests: seq<Request>, i: nat): seq<Request>
    requires i < |requests|
  {
    requests[..i] + requests[i + 1..]
  }

  // sr_arpcache_queuereq: a request with the packet in front, a new one at the head if needed.
  function Enqueue(requests: seq<Request>, ip: Ip, w: Waiting): (r: seq<Request>)
    ensures var i := FindRequest(requests, ip);
            FindRequest(r, ip) == (if i < |requests| then i else 0) < |r|
  {
    var i := FindRequest(requests, ip);
    if i < |requests| then
      var joined := requests[i := requests[i].(packets := [w] + requests[i].packets)];
      FirstRequest(joined, ip, i);
      joined
    else [Request(ip, 0, 0, [w])] + requests
  }

  // The queue after sr_arpcache_queuereq: the request for the address has the packet in front.
  lemma QueuedInFront(requests: seq<Request>, ip: Ip, w: Waiting)
    ensures var queued := Enqueue(requests, ip, w);
            var i := FindRequest(queued, ip);
            i < |queued| && queued[i].ip == ip && queued[i].packets != [] && queued[i].packets[0] == w
  {
    hide FindRequest;
  }

  function Packets(ws: seq<Waiting>): multiset<IpPacket> {
    if ws == [] then multiset{} else multiset{ws[0].packet} + Packets(ws[1..])
  }

  // ---------- Sending ----------

  // send_arp_request: built for the interface of the first waiting packet, sent by the route to
  // the address asked for.
  ghost function ArpRequestFrame(c: Config, r: Request): Frame {
    var from := InterfaceOf(c, if r.packets != [] then r.packets[0].interface else "");
    var route := RouteTo(c, r.ip);
    Frame(BROADCAST, InterfaceOf(c, route.interface).mac,
          ArpData(ArpHeader(ARP_REQUEST, from.mac, from.ip, None, r.ip)), route.interface)
  }

  ghost function IpFrame(c: Config, p: IpPacket, mac: Mac): Frame {
    var route := RouteTo(c, Destination(p));
    Frame(mac, InterfaceOf(c, route.interface).mac, IpData(p), route.interface)
  }

  // sr_arpreq_handle on request i.
  ghost function HandleRequest(c: Config, s: State, i: nat, now: int): State
    requires i < |s.requests|
  {
    var r := s.requests[i];
    if now - r.sent > 1 then
      if r.timesSent >= MAX_SENDS then
        s.(requests := Without(s.requests, i), dropped := s.dropped + Packets(r.packets))
      else
        s.(requests := s.requests[i := r.(sent := now, timesSent := r.timesSent + 1)],
           sent := s.sent + [ArpRequestFrame(c, r)],
           asked := s.asked + [Asked(r.ip, now, r.timesSent + 1)])
    else s
  }

  // FillAndSendPkt for an IP packet.
  ghost function SendIp(c: Config, s: State, p: IpPacket, now: int): State {
    var route := RouteTo(c, Destination(p));
    match CacheLookup(s.entries, route.gw)
    case Some(mac) => s.(sent := s.sent + [IpFrame(c, p, mac)])
    case None =>
      var requests := Enqueue(s.requests, route.gw, Waiting(p, route.interface));
      HandleRequest(c, s.(requests := requests), FindRequest(requests, route.gw), now)
  }

  // sr_arpreq_send_packets.
  ghost function SendAll(c: Config, s: State, ws: seq<Waiting>, now: int): State
    decreases |ws|
  {
    if ws == [] then s else SendAll(c, SendIp(c, s, ws[0].packet, now), ws[1..], now)
  }

  // ---------- Steps ----------

  // A packet leaves ForwardToNextHop.
  ghost function ForwardStep(c: Config, s: State, p: IpPacket, now: int): State {
    SendIp(c, s.(accepted := s.accepted + multiset{p}), p, now)
  }

  // sr_arpcache_insert and the sending of what waited for the address.
  ghost function LearnStep(c: Config, s: State, mac: Mac, ip: Ip, now: int): State {
    var i := FindRequest(s.requests, ip);
    var entries := InsertEntry(s.entries, mac, ip, now);
    if i < |s.requests| then
      SendAll(c, s.(entries := entries, requests := Without(s.requests, i)), s.requests[i].packets, now)
    else s.(entries := entries)
  }

  ghost function ReplyFrame(c: Config, entries: seq<Entry>, h: ArpHeader, interface: string): Frame {
    var own := InterfaceOf(c, interface);
    var route := RouteTo(c, h.sip);
    var mac := match CacheLookup(entries, route.gw) case Some(m) => m case None => [];
    Frame(mac, InterfaceOf(c, route.interface).mac,
          ArpData(ArpHeader(ARP_REPLY, own.mac, own.ip, Some(h.sha), h.sip)), route.interface)
  }

  // The ARP branch of sr_handlepacket.
  ghost function ArpStep(c: Config, s: State, h: ArpHeader, interface: string, now: int): State {
    if InterfaceOf(c, interface).ip != h.tip then s
    else
      var t := if CacheLookup(s.entries, h.sip).Some? then s else LearnStep(c, s, h.sha, h.sip, now);
      if h.op == ARP_REQUEST then t.(sent := t.sent + [ReplyFrame(c, t.entries, h, interface)]) else t
  }

  // The result of sweeping the queue.
  datatype Swept = Swept(requests: seq<Request>, sent: seq<Frame>, asked: seq<Asked>, dropped: multiset<IpPacket>)

  // sr_arpreq_handle on the request in front of those already swept.
  ghost function SweepOne(c: Config, r: Request, rest: Swept, now: int): Swept {
    if now - r.sent > 1 then
      if r.timesSent >= MAX_SENDS then rest.(dropped := Packets(r.packets) + rest.dropped)
      else
        rest.(requests := [r.(sent := now, timesSent := r.timesSent + 1)] + rest.requests,
              sent := [ArpRequestFrame(c, r)] + rest.sent,
              asked := [Asked(r.ip, now, r.timesSent + 1)] + rest.asked)
    else rest.(requests := [r] + rest.requests)
  }

  // sr_arpcache_sweepreqs: sr_arpreq_handle on every request, in queue order.
  ghost function SweepRequests(c: Config, requests: seq<Request>, now: int): Swept {
    if requests == [] then Swept([], [], [], multiset{})
    else SweepOne(c, requests[0], SweepRequests(c, requests[1..], now), now)
  }

  // One iteration of the loop in sr_arpcache_timeout.
  ghost function SweepStep(c: Config, s: State, now: int): State {
    var swept := SweepRequests(c, s.requests, now);
    s.(entries := Expire(s.entries, now), requests := swept.requests, sent := s.sent + swept.sent,
       asked := s.asked + swept.asked, dropped := s.dropped + swept.dropped)
  }

  const EMPTY_SLOT := Entry([], NO_ADDRESS, 0, false)

  function Initial(): State {
    State(seq(SR_ARPCACHE_SZ, _ => EMPTY_SLOT), [], [], [], multiset{}, multiset{})
  }

  // ---------- Events and runs ----------

  datatype Event =
    | Forward(packet: IpPacket, now: int)
    | Arp(header: ArpHeader, interface: string, now: int)
    | Sweep(now: int)

  ghost function Step(c: Config, s: State, e: Event): State {
    match e
    case Forward(p, now) => ForwardStep(c, s, p, now)
    case Arp(h, interface, now) => ArpStep(c, s, h, interface, now)
    case Sweep(now) => SweepStep(c, s, now)
  }

  ghost function Run(c: Config, s: State, events: seq<Event>): State {
    if events == [] then s else Step(c, Run(c, s, events[..|events| - 1]), events[|events| - 1])
  }
}
