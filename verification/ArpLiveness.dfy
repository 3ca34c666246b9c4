// How long an unanswered request can stay in the queue: at most eleven sweeps.

module ArpLiveness {
  import opened Machine
  import opened Routing
  import opened ArpSpec
  import opened ArpInvariant

  datatype Timing = Timing(sent: int, times: nat)

  // When the request for an address was last sent, and how often.
  function Timer(requests: seq<Request>, ip: Ip): Option<Timing> {
    if requests == [] then None
    else if requests[0].ip == ip then Some(Timing(requests[0].sent, requests[0].timesSent))
    else Timer(requests[1..], ip)
  }

  // ---------- How the operations move a timer ----------

  lemma {:induction false} TimerNone(requests: seq<Request>, ip: Ip)
    ensures Timer(requests, ip).None? <==> !Mentions(requests, ip)
  {
    if requests != [] {
      TimerNone(requests[1..], ip);
      assert forall j | 0 < j < |requests| :: requests[j] == requests[1..][j - 1];
    }
  }

  lemma {:induction false} TimerUpdate(requests: seq<Request>, i: nat, r: Request, ip: Ip)
    requires i < |requests| && r.ip == requests[i].ip
    ensures ip != r.ip ==> Timer(requests[i := r], ip) == Timer(requests, ip)
    ensures ip == r.ip && DistinctIps(requests) ==>
              Timer(requests, ip) == Some(Timing(requests[i].sent, requests[i].timesSent)) &&
              Timer(requests[i := r], ip) == Some(Timing(r.sent, r.timesSent))
  {
    if i > 0 {
      assert requests[i := r][1..] == requests[1..][i - 1 := r];
      TimerUpdate(requests[1..], i - 1, r, ip);
    } else {
      assert requests[0 := r][1..] == requests[1..];
    }
  }

  lemma {:induction false} TimerWithout(requests: seq<Request>, i: nat, ip: Ip)
    requires i < |requests|
    ensures ip != requests[i].ip ==> Timer(Without(requests, i), ip) == Timer(requests, ip)
    ensures ip == requests[i].ip && DistinctIps(requests) ==> Timer(Without(requests, i), ip).None?
  {
    if i > 0 {
      assert Without(requests, i) == [requests[0]] + Without(requests[1..], i - 1);
      assert Without(requests, i)[1..] == Without(requests[1..], i - 1);
      TimerWithout(requests[1..], i - 1, ip);
    } else {
      assert Without(requests, 0) == requests[1..];
      TimerNone(requests[1..], ip);
    }
  }

  lemma TimerCons(r: Request, requests: seq<Request>, ip: Ip)
    ensures Timer([r] + requests, ip) == if r.ip == ip then Some(Timing(r.sent, r.timesSent)) else Timer(requests, ip)
  {
    assert ([r] + requests)[1..] == requests;
  }

  // A timer stays, fires (only after more than a second, for an attempt after the first), or goes.
  predicate Moves(before: Timing, after: Option<Timing>, now: int) {
    || after == Some(before)
    || after == None
    || (now - before.sent > 1 && after == Some(Timing(now, before.times + 1)))
  }

  lemma HandleTimer(c: Config, s: State, i: nat, now: int, ip: Ip)
    requires i < |s.requests|
    ensures ip != s.requests[i].ip ==> Timer(HandleRequest(c, s, i, now).requests, ip) == Timer(s.requests, ip)
    ensures ip == s.requests[i].ip && DistinctIps(s.requests) ==>
              Timer(s.requests, ip).Some? &&
              Moves(Timer(s.requests, ip).value, Timer(HandleRequest(c, s, i, now).requests, ip), now)
  {
    hide Timer, ArpRequestFrame, Packets, DistinctIps;
    var r := s.requests[i];
    TimerWithout(s.requests, i, ip);
    TimerUpdate(s.requests, i, r.(sent := now, timesSent := r.timesSent + 1), ip);
  }

  // Queueing a packet starts a timer that has never fired, unless one is running.
  lemma EnqueueTimer(requests: seq<Request>, gw: Ip, w: Waiting, ip: Ip)
    ensures ip != gw || (DistinctIps(requests) && Timer(requests, ip).Some?) ==>
              Timer(Enqueue(requests, gw, w), ip) == Timer(requests, ip)
    ensures DistinctIps(requests) ==> DistinctIps(Enqueue(requests, gw, w))
  {
    hide Timer, FindRequest;
    var i := FindRequest(requests, gw);
    if i < |requests| {
      TimerUpdate(requests, i, requests[i].(packets := [w] + requests[i].packets), ip);
      DistinctUpdate(requests, i, requests[i].(packets := [w] + requests[i].packets));
    } else {
      TimerCons(Request(gw, 0, 0, [w]), requests, ip);
      TimerNone(requests, gw);
      NotMentioned(requests, gw);
      var queued := Enqueue(requests, gw, w);
      assert forall j | 0 < j < |queued| :: queued[j] == requests[j - 1];
    }
  }

  lemma SendIpElsewhere(c: Config, s: State, p: IpPacket, now: int, ip: Ip)
    requires ip != RouteTo(c, Destination(p)).gw
    ensures Timer(SendIp(c, s, p, now).requests, ip) == Timer(s.requests, ip)
  {
    hide Timer, HandleRequest, RouteTo, Destination, CacheLookup, FindRequest, Enqueue;
    var route := RouteTo(c, Destination(p));
    if CacheLookup(s.entries, route.gw).None? {
      var w := Waiting(p, route.interface);
      var queued := Enqueue(s.requests, route.gw, w);
      EnqueueTimer(s.requests, route.gw, w, ip);
      HandleTimer(c, s.(requests := queued), FindRequest(queued, route.gw), now, ip);
    }
  }

  lemma SendIpMoves(c: Config, s: State, p: IpPacket, now: int, ip: Ip)
    requires DistinctIps(s.requests) && Timer(s.requests, ip).Some?
    ensures Moves(Timer(s.requests, ip).value, Timer(SendIp(c, s, p, now).requests, ip), now)
  {
    hide Timer, HandleRequest, RouteTo, Destination, CacheLookup, FindRequest, DistinctIps, Enqueue;
    var route := RouteTo(c, Destination(p));
    if ip != route.gw {
      SendIpElsewhere(c, s, p, now, ip);
    } else if CacheLookup(s.entries, route.gw).None? {
      var w := Waiting(p, route.interface);
      var queued := Enqueue(s.requests, route.gw, w);
      EnqueueTimer(s.requests, route.gw, w, ip);
      HandleTimer(c, s.(requests := queued), FindRequest(queued, route.gw), now, ip);
    }
  }

  lemma DistinctUpdate(requests: seq<Request>, i: nat, r: Request)
    requires i < |requests| && r.ip == requests[i].ip
    ensures DistinctIps(requests) ==> DistinctIps(requests[i := r])
  {
  }

  lemma {:induction false} SendAllTimer(c: Config, s: State, ws: seq<Waiting>, now: int, gw: Ip, ip: Ip)
    requires forall w | w in ws :: Routed(c, w, gw)
    requires ip != gw
    ensures Timer(SendAll(c, s, ws, now).requests, ip) == Timer(s.requests, ip)
    decreases |ws|
  {
    hide Timer, SendIp, RouteTo, Destination, Routable;
    if ws != [] {
      assert Routed(c, ws[0], gw);
      SendIpElsewhere(c, s, ws[0].packet, now, ip);
      SendAllTimer(c, SendIp(c, s, ws[0].packet, now), ws[1..], now, gw, ip);
    }
  }

  lemma LearnTimer(c: Config, s: State, mac: Mac, other: Ip, now: int, ip: Ip)
    requires QueueOk(c, s.entries, s.asked, s.requests) && ip != other
    ensures Timer(LearnStep(c, s, mac, other, now).requests, ip) == Timer(s.requests, ip)
  {
    hide Timer, InsertEntry, SendAll, CacheLookup, Routed, LastAsked;
    var i := FindRequest(s.requests, other);
    if i < |s.requests| {
      TimerWithout(s.requests, i, ip);
      assert RequestOk(c, s.entries, s.asked, s.requests[i]);
      SendAllTimer(c, s.(entries := InsertEntry(s.entries, mac, other, now), requests := Without(s.requests, i)),
                   s.requests[i].packets, now, other, ip);
    }
  }

  // A sweep fires or removes the timer exactly when more than a second has passed.
  function SweptTimer(before: Timing, now: int): Option<Timing> {
    if now - before.sent <= 1 then Some(before)
    else if before.times >= MAX_SENDS then None
    else Some(Timing(now, before.times + 1))
  }

  lemma {:induction false} SweepTimer(c: Config, requests: seq<Request>, now: int, ip: Ip)
    requires DistinctIps(requests)
    ensures Timer(SweepRequests(c, requests, now).requests, ip) ==
            if Timer(requests, ip).None? then None else SweptTimer(Timer(requests, ip).value, now)
    decreases |requests|
  {
    hide ArpRequestFrame, Packets;
    if requests != [] {
      var r, rest := requests[0], requests[1..];
      SweepTimer(c, rest, now, ip);
      var w := SweepRequests(c, rest, now).requests;
      TimerCons(r, w, ip);
      TimerCons(r.(sent := now, timesSent := r.timesSent + 1), w, ip);
      TimerNone(rest, r.ip);
    }
  }

  // ---------- The clock ----------

  // The clock never goes back, and moves between two sweeps.
  predicate ClockOk(events: seq<Event>) {
    forall i, j | 0 <= i < j < |events| ::
      events[i].now <= events[j].now && (events[i].Sweep? && events[j].Sweep? ==> events[i].now < events[j].now)
  }

  predicate AskedBy(asked: seq<Asked>, now: int) {
    forall i | 0 <= i < |asked| :: asked[i].at <= now
  }

  lemma SendIpAsked(c: Config, s: State, p: IpPacket, now: int)
    requires AskedBy(s.asked, now)
    ensures AskedBy(SendIp(c, s, p, now).asked, now)
  {
    hide CacheLookup, RouteTo, Destination, Enqueue, ArpRequestFrame, Packets;
  }

  lemma {:induction false} SendAllAsked(c: Config, s: State, ws: seq<Waiting>, now: int)
    requires AskedBy(s.asked, now)
    ensures AskedBy(SendAll(c, s, ws, now).asked, now)
    decreases |ws|
  {
    hide SendIp, AskedBy;
    if ws != [] {
      SendIpAsked(c, s, ws[0].packet, now);
      SendAllAsked(c, SendIp(c, s, ws[0].packet, now), ws[1..], now);
    }
  }

  lemma {:induction false} SweepAsked(c: Config, requests: seq<Request>, now: int)
    ensures AskedBy(SweepRequests(c, requests, now).asked, now)
  {
    hide ArpRequestFrame, Packets;
    if requests != [] {
      SweepAsked(c, requests[1..], now);
    }
  }

  lemma StepAsked(c: Config, s: State, e: Event)
    requires AskedBy(s.asked, e.now)
    ensures AskedBy(Step(c, s, e).asked, e.now)
  {
    hide SendIp, SendAll, SweepRequests, InsertEntry, Expire, CacheLookup, FindRequest, ReplyFrame;
    match e
    case Forward(p, now) =>
      SendIpAsked(c, s.(accepted := s.accepted + multiset{p}), p, now);
    case Arp(h, interface, now) =>
      var i := FindRequest(s.requests, h.sip);
      if i < |s.requests| {
        var t := s.(entries := InsertEntry(s.entries, h.sha, h.sip, now), requests := Without(s.requests, i));
        SendAllAsked(c, t, s.requests[i].packets, now);
      }
    case Sweep(now) =>
      SweepAsked(c, s.requests, now);
  }

  lemma {:induction false} RunAsked(c: Config, events: seq<Event>, now: int)
    requires ClockOk(events) && (events != [] ==> events[|events| - 1].now <= now)
    ensures AskedBy(Run(c, Initial(), events).asked, now)
  {
    hide Step;
    if events != [] {
      var n := |events| - 1;
      assert forall i | 0 <= i < n :: events[..n][i] == events[i];
      RunAsked(c, events[..n], events[n].now);
      StepAsked(c, Run(c, Initial(), events[..n]), events[n]);
    }
  }

  lemma {:induction false} LastAskedBy(asked: seq<Asked>, ip: Ip, now: int)
    requires AskedBy(asked, now) && LastAsked(asked, ip).Some?
    ensures LastAsked(asked, ip).value.at <= now
  {
    var n := |asked| - 1;
    if asked[n].ip != ip {
      assert forall i | 0 <= i < n :: asked[..n][i] == asked[i];
      LastAskedBy(asked[..n], ip, now);
    }
  }

  lemma {:induction false} TimerIsLogged(c: Config, entries: seq<Entry>, asked: seq<Asked>, requests: seq<Request>,
                                         ip: Ip, now: int)
    requires QueueOk(c, entries, asked, requests) && AskedBy(asked, now) && Timer(requests, ip).Some?
    ensures Timer(requests, ip).value.sent <= now && 1 <= Timer(requests, ip).value.times <= MAX_SENDS
  {
    hide CacheLookup, Routed, AskedBy, LastAsked;
    if requests[0].ip == ip {
      assert RequestOk(c, entries, asked, requests[0]);
      LastAskedBy(asked, ip, now);
    } else {
      assert Without(requests, 0) == requests[1..];
      RestStaysOk(c, entries, asked, requests, 0);
      TimerIsLogged(c, entries, asked, requests[1..], ip, now);
    }
  }

  // ---------- The bound ----------

  function Sweeps(events: seq<Event>, k: nat, m: nat): nat
    requires k <= m <= |events|
  {
    if m == k then 0 else Sweeps(events, k, m - 1) + if events[m - 1].Sweep? then 1 else 0
  }

  // The clock of the last sweep among events k..m.
  function LastSweep(events: seq<Event>, k: nat, m: nat): Option<int>
    requires k <= m <= |events|
  {
    if m == k then None
    else if events[m - 1].Sweep? then Some(events[m - 1].now)
    else LastSweep(events, k, m - 1)
  }

  // An upper bound on the sweeps a timer can still outlive: two for every attempt left, and for the
  // current one what the clock of the last sweep leaves of three.
  function Budget(t: Timing, since: Option<int>): int {
    2 * (MAX_SENDS - t.times) +
    if since.None? then 3
    else if t.sent + 2 - since.value < 1 then 1
    else if t.sent + 2 - since.value > 3 then 3
    else t.sent + 2 - since.value
  }

  lemma BudgetPays(before: Timing, since: Option<int>, now: int)
    requires 1 <= before.times <= MAX_SENDS && before.sent <= now && (since.Some? ==> since.value < now)
    requires SweptTimer(before, now).Some?
    ensures Budget(SweptTimer(before, now).value, Some(now)) < Budget(before, since)
  {
  }

  lemma BudgetKept(before: Timing, after: Timing, since: Option<int>, now: int)
    requires Moves(before, Some(after), now)
    ensures Budget(after, since) <= Budget(before, since)
  {
  }

  // No ARP packet from the address, addressed to this router, among events k..m.
  predicate Unanswered(c: Config, events: seq<Event>, k: nat, m: nat, ip: Ip)
    requires k <= m <= |events|
  {
    forall j | k <= j < m :: !(events[j].Arp? && events[j].header.sip == ip &&
                               InterfaceOf(c, events[j].interface).ip == events[j].header.tip)
  }

  lemma {:induction false} LastSweepBefore(events: seq<Event>, k: nat, m: nat)
    requires k <= m < |events| && ClockOk(events) && events[m].Sweep?
    ensures LastSweep(events, k, m).Some? ==> LastSweep(events, k, m).value < events[m].now
    decreases m
  {
    var j := m;
    while j > k && !events[j - 1].Sweep?
      invariant k <= j <= m
      invariant LastSweep(events, k, m) == LastSweep(events, k, j)
    {
      j := j - 1;
    }
  }

  // One event: a sweep costs the timer of an unanswered request at least one unit of its budget,
  // nothing else adds to it.
  lemma StepBudget(c: Config, s: State, e: Event, ip: Ip, since: Option<int>)
    requires Inv(c, s, multiset{}) && AskedBy(s.asked, e.now)
    requires Timer(s.requests, ip).Some? && Timer(Step(c, s, e).requests, ip).Some?
    requires !(e.Arp? && e.header.sip == ip && InterfaceOf(c, e.interface).ip == e.header.tip)
    requires e.Sweep? && since.Some? ==> since.value < e.now
    ensures var before, after := Timer(s.requests, ip).value, Timer(Step(c, s, e).requests, ip).value;
            if e.Sweep? then Budget(after, Some(e.now)) < Budget(before, since)
            else Budget(after, since) <= Budget(before, since)
  {
    hide Timer, Budget, SendIp, LearnStep, SweepRequests, Expire, CacheLookup, ReplyFrame, RequestOk, Conserved, Spaced,
         UniqueValid, AskedBy, SweptTimer, Moves;
    var before := Timer(s.requests, ip).value;
    TimerIsLogged(c, s.entries, s.asked, s.requests, ip, e.now);
    match e
    case Forward(p, now) =>
      SendIpMoves(c, s.(accepted := s.accepted + multiset{p}), p, now, ip);
      BudgetKept(before, Timer(Step(c, s, e).requests, ip).value, since, now);
    case Arp(h, interface, now) =>
      if InterfaceOf(c, interface).ip == h.tip {
        LearnTimer(c, s, h.sha, h.sip, now, ip);
      }
    case Sweep(now) =>
      SweepTimer(c, s.requests, now, ip);
      BudgetPays(before, since, now);
  }

  ghost predicate WaitsThrough(c: Config, events: seq<Event>, k: nat, m: nat, ip: Ip)
    requires k <= m <= |events|
  {
    forall j | k <= j <= m :: Mentions(Run(c, Initial(), events[..j]).requests, ip)
  }

  lemma {:induction false} WaitBound(c: Config, events: seq<Event>, k: nat, m: nat, ip: Ip)
    requires k <= m <= |events| && ClockOk(events)
    requires forall j | 0 <= j < |events| :: Admissible(c, events[j])
    requires WaitsThrough(c, events, k, m, ip) && Unanswered(c, events, k, m, ip)
    ensures var t := Timer(Run(c, Initial(), events[..m]).requests, ip);
            t.Some? && Budget(t.value, LastSweep(events, k, m)) + Sweeps(events, k, m) <= 11
    decreases m
  {
    hide Timer, Budget, Step, Admissible, Mentions, Run, QueueOk, Conserved, Spaced, UniqueValid, AskedBy;
    var s' := Run(c, Initial(), events[..m]);
    assert Mentions(s'.requests, ip);
    TimerNone(s'.requests, ip);
    PrefixFacts(c, events, m);
    if m == k {
      TimerIsLogged(c, s'.entries, s'.asked, s'.requests, ip, if m == 0 then 0 else events[m - 1].now);
      BudgetAtMost11(Timer(s'.requests, ip).value);
    } else {
      WaitBound(c, events, k, m - 1, ip);
      PrefixFacts(c, events, m - 1);
      var s, e := Run(c, Initial(), events[..m - 1]), events[m - 1];
      RunStep(c, events, m);
      if e.Sweep? {
        LastSweepBefore(events, k, m - 1);
      }
      StepBudget(c, s, e, ip, LastSweep(events, k, m - 1));
    }
  }

  lemma BudgetAtMost11(t: Timing)
    requires 1 <= t.times
    ensures Budget(t, None) <= 11
  {
  }

  lemma RunStep(c: Config, events: seq<Event>, m: nat)
    requires 0 < m <= |events|
    ensures Run(c, Initial(), events[..m]) == Step(c, Run(c, Initial(), events[..m - 1]), events[m - 1])
  {
    hide Step;
    assert events[..m][..m - 1] == events[..m - 1];
  }

  lemma PrefixFacts(c: Config, events: seq<Event>, m: nat)
    requires m <= |events| && ClockOk(events)
    requires forall j | 0 <= j < |events| :: Admissible(c, events[j])
    ensures Inv(c, Run(c, Initial(), events[..m]), multiset{})
    ensures AskedBy(Run(c, Initial(), events[..m]).asked, if m == 0 then 0 else events[m - 1].now)
    ensures m < |events| ==> AskedBy(Run(c, Initial(), events[..m]).asked, events[m].now)
  {
    hide Inv, Run, Admissible, AskedBy;
    RunKeeps(c, events[..m]);
    RunAsked(c, events[..m], if m == 0 then 0 else events[m - 1].now);
    if m < |events| {
      RunAsked(c, events[..m], events[m].now);
    }
  }

  // An unanswered request leaves the queue within eleven sweeps: whatever else happens, in a run with
  // eleven sweeps after event k the address is out of the queue at some point from k on.
  lemma LeavesWithin11Sweeps(c: Config, events: seq<Event>, k: nat, ip: Ip)
    requires k <= |events| && ClockOk(events)
    requires forall j | 0 <= j < |events| :: Admissible(c, events[j])
    requires Unanswered(c, events, k, |events|, ip) && Sweeps(events, k, |events|) >= 11
    ensures exists m | k <= m <= |events| :: !Mentions(Run(c, Initial(), events[..m]).requests, ip)
  {
    hide Mentions, Run, Admissible, Timer, Budget, QueueOk, Conserved, Spaced, UniqueValid, AskedBy;
    if WaitsThrough(c, events, k, |events|, ip) {
      WaitBound(c, events, k, |events|, ip);
      PrefixFacts(c, events, |events|);
      var s := Run(c, Initial(), events[..|events|]);
      TimerIsLogged(c, s.entries, s.asked, s.requests, ip, if |events| == 0 then 0 else events[|events| - 1].now);
      BudgetPositive(Timer(s.requests, ip).value, LastSweep(events, k, |events|));
      assert false;
    }
  }

  lemma BudgetPositive(t: Timing, since: Option<int>)
    requires t.times <= MAX_SENDS
    ensures Budget(t, since) >= 1
  {
  }

  // ---------- The bound is reached ----------

  // A packet is queued at second 2, and sweeps follow at seconds 2, 3, 4, ...
  function SlowRun(p: IpPacket, n: nat): (events: seq<Event>)
    ensures |events| == n + 1 && events[0] == Forward(p, 2)
    ensures forall i | 1 <= i <= n :: events[i] == Sweep(1 + i)
  {
    [Forward(p, 2)] + seq(n, i => Sweep(2 + i))
  }

  // The timer of the slow run's request after n sweeps: it is asked again at every second one.
  function SlowTiming(n: nat): Timing {
    if n <= 2 then Timing(2, 1) else Timing(SlowTiming(n - 2).sent + 2, SlowTiming(n - 2).times + 1)
  }

  lemma {:induction false} SlowTimer(c: Config, p: IpPacket, n: nat)
    requires Routable(c.table, Destination(p)) && n <= 10
    ensures var gw := RouteTo(c, Destination(p)).gw;
            Timer(Run(c, Initial(), SlowRun(p, n)).requests, gw) == Some(SlowTiming(n))
  {
    hide Timer, Destination, SlowRun, Step, Inv, RouteTo, Routable, SlowTiming;
    assert SlowTiming(0) == Timing(2, 1) by { SlowStart(); }
    var gw := RouteTo(c, Destination(p)).gw;
    var events := SlowRun(p, n);
    assert events[..n + 1] == events;
    RunStep(c, events, n + 1);
    if n == 0 {
      assert events[..0] == [];
      FirstTimer(c, p);
    } else {
      var before := SlowRun(p, n - 1);
      assert events[..n] == before;
      SlowTimer(c, p, n - 1);
      forall j | 0 <= j < |before| ensures Admissible(c, before[j]) {
      }
      RunKeeps(c, before);
      SlowSweep(c, Run(c, Initial(), before), n, gw);
    }
  }

  lemma SlowStart()
    ensures SlowTiming(0) == Timing(2, 1)
  {
  }

  lemma {:induction false} SlowShape(n: nat)
    requires n >= 1
    ensures SlowTiming(n).sent == 2 * SlowTiming(n).times && n <= 2 * SlowTiming(n).times <= n + 1
  {
    if n > 2 {
      SlowShape(n - 2);
    }
  }

  lemma EvenTimes(before: Timing, after: Timing, n: nat)
    requires 2 <= n <= 10
    requires before.sent == 2 * before.times && n - 1 <= 2 * before.times <= n
    requires after.sent == 2 * after.times && n <= 2 * after.times <= n + 1
    ensures SweptTimer(before, 1 + n) == Some(after)
  {
  }

  lemma SlowNext(n: nat)
    requires 1 <= n <= 10
    ensures SweptTimer(SlowTiming(n - 1), 1 + n) == Some(SlowTiming(n))
  {
    if n == 1 {
      assert SlowTiming(0) == SlowTiming(1) == Timing(2, 1);
    } else {
      hide SlowTiming;
      SlowShape(n - 1);
      SlowShape(n);
      EvenTimes(SlowTiming(n - 1), SlowTiming(n), n);
    }
  }

  lemma DistinctQueue(c: Config, s: State)
    requires Inv(c, s, multiset{})
    ensures DistinctIps(s.requests)
  {
    hide RequestOk, Spaced, Conserved, UniqueValid;
  }

  lemma SlowSweep(c: Config, s: State, n: nat, gw: Ip)
    requires Inv(c, s, multiset{}) && 1 <= n <= 10
    requires Timer(s.requests, gw) == Some(SlowTiming(n - 1))
    ensures Timer(Step(c, s, Sweep(1 + n)).requests, gw) == Some(SlowTiming(n))
  {
    hide Timer, SweepRequests, Expire, SweptTimer, SlowTiming, QueueOk, Spaced, Conserved, UniqueValid;
    SlowNext(n);
    DistinctQueue(c, s);
    SweepTimer(c, s.requests, 1 + n, gw);
  }

  lemma FirstTimer(c: Config, p: IpPacket)
    ensures Timer(Step(c, Initial(), Forward(p, 2)).requests, RouteTo(c, Destination(p)).gw) == Some(Timing(2, 1))
  {
    hide Destination, RouteTo, ArpRequestFrame, CacheLookup;
    var route := RouteTo(c, Destination(p));
    LookupNoneIff(Initial().entries, route.gw);
    assert Enqueue([], route.gw, Waiting(p, route.interface)) ==
        [Request(route.gw, 0, 0, [Waiting(p, route.interface)])];
  }

  // Ten sweeps are not always enough: in the slow run the packet's request is still queued after each
  // of them.
  lemma TenSweepsNotEnough(c: Config, p: IpPacket, n: nat)
    requires Routable(c.table, Destination(p)) && n <= 10
    ensures ClockOk(SlowRun(p, n)) && Sweeps(SlowRun(p, n), 1, n + 1) == n
    ensures Mentions(Run(c, Initial(), SlowRun(p, n)).requests, RouteTo(c, Destination(p)).gw)
  {
    hide Timer, Run, Destination, Mentions, SlowRun;
    SlowTimer(c, p, n);
    TimerNone(Run(c, Initial(), SlowRun(p, n)).requests, RouteTo(c, Destination(p)).gw);
    SlowSweepCount(p, n, n + 1);
  }

  lemma {:induction false} SlowSweepCount(p: IpPacket, n: nat, m: nat)
    requires 1 <= m <= n + 1
    ensures Sweeps(SlowRun(p, n), 1, m) == m - 1
  {
    hide SlowRun;
    if m > 1 {
      SlowSweepCount(p, n, m - 1);
    }
  }
}
