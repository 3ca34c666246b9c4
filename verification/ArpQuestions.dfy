// What the router says in its ARP packets, over every run: whom it asks for, in whose name, and whom it
// answers.

module ArpQuestions {
  import opened Machine
  import opened Routing
  import opened ArpSpec
  import opened ArpInvariant
  import opened ArpCacheMap

  ghost predicate RoutesLeave(c: Config) {
    forall i | 0 <= i < |c.table| :: c.table[i].interface in c.interfaces
  }

  lemma RouteLeaves(c: Config, ip: Ip)
    requires RoutesLeave(c) && Routable(c.table, ip)
    ensures RouteTo(c, ip).interface in c.interfaces
  {
    hide LastLargest, Routable;
    LargestMatches(c.order, c.table, ip, SelectedIndex(c.order, c.table, ip));
  }

  // ---------- What is on the wire ----------

  // The request is sent to everybody, by the interface of the route to the address it asks for, and
  // the sender it names is an interface of the router.
  ghost predicate Asks(c: Config, f: Frame, h: ArpHeader) {
    && f.dhost == [255, 255, 255, 255, 255, 255]
    && f.interface == RouteTo(c, h.tip).interface && f.shost == InterfaceOf(c, f.interface).mac
    && h.tha == None
    && exists n | n in c.interfaces :: c.interfaces[n] == Interface(h.sip, h.sha)
  }

  // Operation 1 is a request; every other ARP packet is one of the answers.
  ghost predicate Speaks(c: Config, f: Frame, answers: set<ArpHeader>) {
    match f.payload
    case IpData(_) => true
    case ArpData(h) =>
      if h.op == 1 then Asks(c, f, h)
      else
        && h in answers
        && f.interface == RouteTo(c, h.tip).interface && f.shost == InterfaceOf(c, f.interface).mac
  }

  // The addresses asked for, in the order of the frames.
  function Questions(sent: seq<Frame>): seq<Ip> {
    if sent == [] then []
    else
      var last := sent[|sent| - 1];
      Questions(sent[..|sent| - 1]) +
      if last.payload.ArpData? && last.payload.header.op == 1 then [last.payload.header.tip] else []
  }

  function Addresses(asked: seq<Asked>): (ips: seq<Ip>)
    ensures |ips| == |asked| && forall i | 0 <= i < |asked| :: ips[i] == asked[i].ip
  {
    seq(|asked|, i requires 0 <= i < |asked| => asked[i].ip)
  }

  // All ARP frames are in order, and the requests among them are those of the log, one for one.
  ghost predicate Spoken(c: Config, sent: seq<Frame>, asked: seq<Asked>, answers: set<ArpHeader>) {
    (forall k | 0 <= k < |sent| :: Speaks(c, sent[k], answers)) && Questions(sent) == Addresses(asked)
  }

  lemma {:induction false} QuestionsConcat(x: seq<Frame>, y: seq<Frame>)
    ensures Questions(x + y) == Questions(x) + Questions(y)
  {
    if y == [] {
      assert x + y == x;
    } else {
      var n := |y| - 1;
      assert x + y == (x + y[..n]) + [y[n]];
      assert (x + y)[..|x + y| - 1] == x + y[..n];
      QuestionsConcat(x, y[..n]);
    }
  }

  lemma SpokenConcat(c: Config, x: seq<Frame>, a: seq<Asked>, y: seq<Frame>, b: seq<Asked>, answers: set<ArpHeader>)
    requires Spoken(c, x, a, answers) && Spoken(c, y, b, answers)
    ensures Spoken(c, x + y, a + b, answers)
  {
    hide Speaks, Questions;
    QuestionsConcat(x, y);
    assert Addresses(a + b) == Addresses(a) + Addresses(b);
  }

  lemma NothingSpoken(c: Config, answers: set<ArpHeader>)
    ensures Spoken(c, [], [], answers)
  {
    assert Addresses([]) == [];
  }

  // ---------- One frame ----------

  lemma OneQuestion(f: Frame)
    ensures Questions([f]) == if f.payload.ArpData? && f.payload.header.op == 1 then [f.payload.header.tip] else []
  {
    assert [f][..0] == [] && Questions([]) == [];
  }

  ghost predicate Askable(c: Config, r: Request) {
    r.packets != [] && r.packets[0].interface in c.interfaces
  }

  lemma RequestSpeaks(c: Config, r: Request, a: Asked, answers: set<ArpHeader>)
    requires Askable(c, r) && a.ip == r.ip
    ensures Spoken(c, [ArpRequestFrame(c, r)], [a], answers)
  {
    hide RouteTo;
    var f := ArpRequestFrame(c, r);
    OneQuestion(f);
    assert Addresses([a]) == [r.ip];
    var n := r.packets[0].interface;
    assert c.interfaces[n] == Interface(f.payload.header.sip, f.payload.header.sha);
  }

  lemma IpSpeaks(c: Config, p: IpPacket, mac: Mac, answers: set<ArpHeader>)
    ensures Spoken(c, [IpFrame(c, p, mac)], [], answers)
  {
    hide RouteTo, InterfaceOf;
    OneQuestion(IpFrame(c, p, mac));
    assert Addresses([]) == [];
  }

  // ---------- Sending ----------

  lemma HandleSpoken(c: Config, s: State, i: nat, now: int, answers: set<ArpHeader>)
    requires i < |s.requests| && Askable(c, s.requests[i]) && Spoken(c, s.sent, s.asked, answers)
    ensures var t := HandleRequest(c, s, i, now);
            Spoken(c, t.sent, t.asked, answers)
  {
    hide Spoken, Askable, ArpRequestFrame, Packets;
    var r := s.requests[i];
    var a := Asked(r.ip, now, r.timesSent + 1);
    RequestSpeaks(c, r, a, answers);
    SpokenConcat(c, s.sent, s.asked, [ArpRequestFrame(c, r)], [a], answers);
  }

  lemma SendIpSpoken(c: Config, s: State, p: IpPacket, now: int, answers: set<ArpHeader>)
    requires RoutesLeave(c) && Routable(c.table, Destination(p)) && Spoken(c, s.sent, s.asked, answers)
    ensures var t := SendIp(c, s, p, now);
            Spoken(c, t.sent, t.asked, answers)
  {
    hide RoutesLeave, Routable, RouteTo, Destination, CacheLookup, Enqueue, FindRequest, HandleRequest, IpFrame, Spoken;
    var route := RouteTo(c, Destination(p));
    RouteLeaves(c, Destination(p));
    var hit := CacheLookup(s.entries, route.gw);
    if hit.Some? {
      IpSpeaks(c, p, hit.value, answers);
      SpokenConcat(c, s.sent, s.asked, [IpFrame(c, p, hit.value)], [], answers);
      assert s.asked + [] == s.asked;
    } else {
      var w := Waiting(p, route.interface);
      QueuedInFront(s.requests, route.gw, w);
      var requests := Enqueue(s.requests, route.gw, w);
      HandleSpoken(c, s.(requests := requests), FindRequest(requests, route.gw), now, answers);
    }
  }

  lemma {:induction false} SendAllSpoken(c: Config, s: State, ws: seq<Waiting>, now: int, answers: set<ArpHeader>)
    requires RoutesLeave(c) && Spoken(c, s.sent, s.asked, answers)
    requires forall w | w in ws :: Routable(c.table, Destination(w.packet))
    ensures var t := SendAll(c, s, ws, now);
            Spoken(c, t.sent, t.asked, answers)
    decreases |ws|
  {
    hide SendIp, Spoken, Routable, Destination, RoutesLeave;
    if ws != [] {
      SendIpSpoken(c, s, ws[0].packet, now, answers);
      SendAllSpoken(c, SendIp(c, s, ws[0].packet, now), ws[1..], now, answers);
    }
  }

  lemma {:induction false} SweepSpoken(c: Config, requests: seq<Request>, now: int, answers: set<ArpHeader>)
    requires forall r | r in requests :: Askable(c, r)
    ensures var w := SweepRequests(c, requests, now);
            Spoken(c, w.sent, w.asked, answers)
  {
    hide Spoken, Askable, ArpRequestFrame, Packets;
    if requests == [] {
      NothingSpoken(c, answers);
    } else {
      var r, w := requests[0], SweepRequests(c, requests[1..], now);
      SweepSpoken(c, requests[1..], now, answers);
      var a := Asked(r.ip, now, r.timesSent + 1);
      RequestSpeaks(c, r, a, answers);
      SpokenConcat(c, [ArpRequestFrame(c, r)], [a], w.sent, w.asked, answers);
    }
  }

  // ---------- Answers ----------

  // The answer an event calls for: a request for the address of the receiving interface is answered
  // in the name of that interface, to both addresses of the sender; operation 2 is a reply.
  ghost predicate Answers(c: Config, e: Event, h: ArpHeader) {
    && e.Arp? && e.header.op == 1 && InterfaceOf(c, e.interface).ip == e.header.tip
    && h == ArpHeader(2, InterfaceOf(c, e.interface).mac, e.header.tip, Some(e.header.sha), e.header.sip)
  }

  function AnswersOf(c: Config, e: Event): set<ArpHeader> {
    if e.Arp? && e.header.op == 1 && InterfaceOf(c, e.interface).ip == e.header.tip then
      {ArpHeader(2, InterfaceOf(c, e.interface).mac, e.header.tip, Some(e.header.sha), e.header.sip)}
    else {}
  }

  function AllAnswers(c: Config, events: seq<Event>): set<ArpHeader> {
    if events == [] then {} else AllAnswers(c, events[..|events| - 1]) + AnswersOf(c, events[|events| - 1])
  }

  lemma {:induction false} AnswersAreCalledFor(c: Config, events: seq<Event>, h: ArpHeader)
    ensures h in AllAnswers(c, events) <==> exists j | 0 <= j < |events| :: Answers(c, events[j], h)
  {
    hide InterfaceOf;
    if events != [] {
      var front := events[..|events| - 1];
      AnswersAreCalledFor(c, front, h);
      assert forall j | 0 <= j < |front| :: front[j] == events[j];
    }
  }

  lemma ReplySpeaks(c: Config, entries: seq<Entry>, h: ArpHeader, interface: string, now: int, answers: set<ArpHeader>)
    requires h.op == ARP_REQUEST && InterfaceOf(c, interface).ip == h.tip
    requires AnswersOf(c, Arp(h, interface, now)) <= answers
    ensures Spoken(c, [ReplyFrame(c, entries, h, interface)], [], answers)
  {
    hide RouteTo, InterfaceOf, CacheLookup;
    var f := ReplyFrame(c, entries, h, interface);
    OneQuestion(f);
    assert f.payload.header in AnswersOf(c, Arp(h, interface, now));
    assert Addresses([]) == [];
  }

  // ---------- Every step ----------

  lemma LearnSpoken(c: Config, s: State, mac: Mac, ip: Ip, now: int, answers: set<ArpHeader>)
    requires RoutesLeave(c) && Inv(c, s, multiset{}) && Spoken(c, s.sent, s.asked, answers)
    ensures var t := LearnStep(c, s, mac, ip, now);
            Spoken(c, t.sent, t.asked, answers)
  {
    hide RoutesLeave, Spoken, SendAll, InsertEntry, FindRequest, Destination, RouteTo, Routable, Spaced, Conserved,
         UniqueValid, CacheLookup, LastAsked;
    var i := FindRequest(s.requests, ip);
    if i < |s.requests| {
      assert RequestOk(c, s.entries, s.asked, s.requests[i]);
      forall w | w in s.requests[i].packets ensures Routable(c.table, Destination(w.packet)) {
        assert Routed(c, w, s.requests[i].ip);
      }
      var t := s.(entries := InsertEntry(s.entries, mac, ip, now), requests := Without(s.requests, i));
      SendAllSpoken(c, t, s.requests[i].packets, now, answers);
    }
  }

  lemma ArpSpoken(c: Config, s: State, h: ArpHeader, interface: string, now: int, answers: set<ArpHeader>)
    requires RoutesLeave(c) && Inv(c, s, multiset{}) && Spoken(c, s.sent, s.asked, answers)
    requires AnswersOf(c, Arp(h, interface, now)) <= answers
    ensures var t := ArpStep(c, s, h, interface, now);
            Spoken(c, t.sent, t.asked, answers)
  {
    hide RoutesLeave, Inv, Spoken, LearnStep, CacheLookup, InterfaceOf, ReplyFrame, AnswersOf;
    if InterfaceOf(c, interface).ip == h.tip {
      LearnSpoken(c, s, h.sha, h.sip, now, answers);
      var t := if CacheLookup(s.entries, h.sip).Some? then s else LearnStep(c, s, h.sha, h.sip, now);
      if h.op == ARP_REQUEST {
        ReplySpeaks(c, t.entries, h, interface, now, answers);
        SpokenConcat(c, t.sent, t.asked, [ReplyFrame(c, t.entries, h, interface)], [], answers);
        assert t.asked + [] == t.asked;
      }
    }
  }

  lemma SweepStepSpoken(c: Config, s: State, now: int, answers: set<ArpHeader>)
    requires RoutesLeave(c) && Inv(c, s, multiset{}) && Spoken(c, s.sent, s.asked, answers)
    ensures var t := SweepStep(c, s, now);
            Spoken(c, t.sent, t.asked, answers)
  {
    hide RoutesLeave, Spoken, SweepRequests, Destination, RouteTo, Routable, Spaced, Conserved, UniqueValid,
         CacheLookup, LastAsked, Expire;
    forall r | r in s.requests ensures Askable(c, r) {
      assert RequestOk(c, s.entries, s.asked, r);
      assert Routed(c, r.packets[0], r.ip);
      RouteLeaves(c, Destination(r.packets[0].packet));
    }
    SweepSpoken(c, s.requests, now, answers);
    var w := SweepRequests(c, s.requests, now);
    SpokenConcat(c, s.sent, s.asked, w.sent, w.asked, answers);
  }

  lemma StepSpoken(c: Config, s: State, e: Event, answers: set<ArpHeader>)
    requires RoutesLeave(c) && Inv(c, s, multiset{}) && Admissible(c, e) && Spoken(c, s.sent, s.asked, answers)
    requires AnswersOf(c, e) <= answers
    ensures var t := Step(c, s, e);
            Spoken(c, t.sent, t.asked, answers)
  {
    hide RoutesLeave, Inv, Spoken, SendIp, ArpStep, SweepStep, Destination, Routable, AnswersOf;
    match e
    case Forward(p, now) => SendIpSpoken(c, s.(accepted := s.accepted + multiset{p}), p, now, answers);
    case Arp(h, interface, now) => ArpSpoken(c, s, h, interface, now, answers);
    case Sweep(now) => SweepStepSpoken(c, s, now, answers);
  }

  lemma MoreAnswers(c: Config, sent: seq<Frame>, asked: seq<Asked>, answers: set<ArpHeader>, more: set<ArpHeader>)
    requires Spoken(c, sent, asked, answers) && answers <= more
    ensures Spoken(c, sent, asked, more)
  {
    hide Asks, Questions, RouteTo, InterfaceOf;
  }

  lemma {:induction false} RunSpoken(c: Config, events: seq<Event>)
    requires RoutesLeave(c) && forall i | 0 <= i < |events| :: Admissible(c, events[i])
    ensures var t := Run(c, Initial(), events);
            Spoken(c, t.sent, t.asked, AllAnswers(c, events))
  {
    hide RoutesLeave, Step, Spoken, AnswersOf, Admissible, Inv;
    if events == [] {
      NothingSpoken(c, {});
    } else {
      var front := events[..|events| - 1];
      var s := Run(c, Initial(), front);
      RunSpoken(c, front);
      RunKeeps(c, front);
      MoreAnswers(c, s.sent, s.asked, AllAnswers(c, front), AllAnswers(c, events));
      StepSpoken(c, s, events[|events| - 1], AllAnswers(c, events));
    }
  }

  // Every ARP packet the router has sent in a run either asks, for everybody to hear, for the address
  // of an entry of the log, in order and one for one, in the name of an interface of the router; or it
  // answers a request of the run, in the name of the interface that received it, to the two addresses
  // of the asker.
  lemma SaysWhatItShould(c: Config, events: seq<Event>, k: nat)
    requires RoutesLeave(c) && forall i | 0 <= i < |events| :: Admissible(c, events[i])
    requires k < |Run(c, Initial(), events).sent| && Run(c, Initial(), events).sent[k].payload.ArpData?
    ensures var t := Run(c, Initial(), events);
            var h := t.sent[k].payload.header;
            && Questions(t.sent) == Addresses(t.asked)
            && if h.op == 1 then Asks(c, t.sent[k], h)
               else
                 && t.sent[k].interface == RouteTo(c, h.tip).interface
                 && t.sent[k].shost == InterfaceOf(c, t.sent[k].interface).mac
                 && exists j | 0 <= j < |events| :: Answers(c, events[j], h)
  {
    hide RoutesLeave, RouteTo, InterfaceOf, Run, Asks, Answers, AllAnswers, Admissible, Questions;
    RunSpoken(c, events);
    var t := Run(c, Initial(), events);
    assert Speaks(c, t.sent[k], AllAnswers(c, events));
    AnswersAreCalledFor(c, events, t.sent[k].payload.header);
  }
}
