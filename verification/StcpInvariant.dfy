// The invariant of a connection from the handshake through the data phase, and what it implies for
// the delivered streams and the counters in every run.

module StcpInvariant {
  import opened Machine
  import opened StcpSpec
  import opened StcpData

  // ---------- The invariant ----------

  predicate Quiet(e: Endpoint) {
    e.connection == Established && !e.finSent && !e.finSeen && !IsFin(e.flags)
  }

  predicate Untouched(e: Endpoint) {
    e.written == [] && e.delivered == []
  }

  function Base(s: System): uint32 {
    s.server.handshake.ack
  }

  function ReverseBase(s: System): uint32 {
    Add32(s.server.handshake.seqno, 1)
  }

  // The client's AcknowledgedByte, and the acknowledgements on their way to it, stand for counts of
  // delivered bytes; -1 is the value it starts with.
  ghost predicate Acknowledged(order: HostOrder, s: System, count: int) {
    && -1 <= count
    && s.client.acknowledged == Add32(Base(s), count)
    && AckChain(order, s.toClient, Base(s), count, Total(s.server.delivered))
  }

  // Both ends in control_loop.
  ghost predicate BothOpen(order: HostOrder, s: System) {
    && s.client.phase == Open && s.server.phase == Open
    && Quiet(s.client) && Quiet(s.server)
    && Half(s.client, s.server, s.toServer, Base(s), Base(s))
    && Half(s.server, s.client, s.toClient, 0, ReverseBase(s))
    && (exists count: int :: Acknowledged(order, s, count))
  }

  // The server's own initial number, as it is stored: a value below 256 in network order.
  ghost predicate FromRandom(order: HostOrder, seqno: uint32) {
    exists k: uint32 :: k < 0x100 && seqno == Htonl(order, k)
  }

  // The state once the server has read the last segment of the handshake.
  function Opened(s: System): System
    requires s.toServer != []
  {
    After(s, Server, ReceiveHandshakeAck(s.server), 1)
  }

  ghost predicate Inv(order: HostOrder, s: System) {
    && Quiet(s.client) && Quiet(s.server)
    && NoFin(s.toServer) && NoFin(s.toClient)
    && match (s.client.phase, s.server.phase)
       case (ClientStart, ServerWaitSyn) =>
         Untouched(s.client) && Untouched(s.server) && s.toServer == [] && s.toClient == []
       case (ClientWait, ServerWaitSyn) =>
         Untouched(s.client) && Untouched(s.server) && |s.toServer| == 1 && s.toClient == []
       case (ClientWait, ServerWaitAck) =>
         && Untouched(s.client) && Untouched(s.server) && s.toServer == [] && s.toClient == [s.server.handshake]
         && FromRandom(order, s.server.handshake.seqno)
       case (Open, ServerWaitAck) =>
         && Untouched(s.server) && s.toServer != [] && s.toServer[0].payload == [] && s.toClient == []
         && FromRandom(order, s.server.handshake.seqno)
         && BothOpen(order, Opened(s))
       case (Open, Open) =>
         FromRandom(order, s.server.handshake.seqno) && BothOpen(order, s)
       case _ => false
  }

  // ---------- Steps between open ends ----------

  lemma ClientWrites(order: HostOrder, s: System, data: seq<byte>, count: int)
    requires BothOpen(order, s) && data != [] && Acknowledged(order, s, count)
    ensures var t := After(s, Client, OnAppData(order, s.client, data), 0);
            BothOpen(order, t) && Acknowledged(order, t, count)
  {
    hide Half, AckChain, IsFin, Htonl, Add32;
    var t := After(s, Client, OnAppData(order, s.client, data), 0);
    HalfWrite(order, s.client, s.server, s.toServer, Base(s), Base(s), data);
    SameReceiver(s.server, s.client, t.client, s.toClient, 0, ReverseBase(s));
    assert s.toClient[0..] == s.toClient;
    assert Acknowledged(order, t, count);
  }

  lemma ServerWrites(order: HostOrder, s: System, data: seq<byte>, count: int)
    requires BothOpen(order, s) && data != [] && Acknowledged(order, s, count)
    ensures var t := After(s, Server, OnAppData(order, s.server, data), 0);
            BothOpen(order, t) && Acknowledged(order, t, count)
  {
    hide Half, AckChain, IsFin, Htonl, Add32;
    var o := OnAppData(order, s.server, data);
    var t := After(s, Server, o, 0);
    HalfWrite(order, s.server, s.client, s.toClient, 0, ReverseBase(s), data);
    SameReceiver(s.client, s.server, t.server, s.toServer, Base(s), Base(s));
    var n := Total(s.server.delivered);
    ServerCount(order, s);
    AckAppend(order, s.toClient, Base(s), count, n, o.sent[0], n);
    assert s.toServer[0..] == s.toServer;
    assert Acknowledged(order, t, count);
  }

  // What the server acknowledges is the number of bytes it has delivered.
  lemma ServerCount(order: HostOrder, s: System)
    requires BothOpen(order, s)
    ensures Htonl(order, s.server.expected) == Htonl(order, Add32(Base(s), Total(s.server.delivered)))
  {
    hide Flow, NoFin, Htonl, Add32;
  }

  // Half only looks at what the receiver expects and was given, and at what the sender wrote.
  lemma SameReceiver(x: Endpoint, y: Endpoint, y': Endpoint, channel: seq<Segment>, from: uint32, to: uint32)
    requires Half(x, y, channel, from, to) && y'.expected == y.expected && y'.delivered == y.delivered
    ensures Half(x, y', channel, from, to)
  {
    hide Flow, NoFin, Add32;
  }

  lemma SameSender(x: Endpoint, x': Endpoint, y: Endpoint, channel: seq<Segment>, from: uint32, to: uint32)
    requires Half(x, y, channel, from, to) && x'.sequence == x.sequence && x'.written == x.written
    ensures Half(x', y, channel, from, to)
  {
    hide Flow, NoFin, Add32;
  }

  lemma HeadNotFin(x: Endpoint, y: Endpoint, channel: seq<Segment>, from: uint32, to: uint32)
    requires Half(x, y, channel, from, to) && channel != []
    ensures !IsFin(channel[0].flags)
  {
    hide Flow, Add32, IsFin;
  }

  lemma NetworkIsData(order: HostOrder, e: Endpoint, s: Segment)
    requires !IsFin(s.flags)
    ensures OnNetwork(order, e, s) == AcceptData(order, e, s)
  {
    hide IsFin, Htonl, Ntohl, Add32, StrNCpy;
  }

  lemma AckIsNotFin()
    ensures !IsFin(TH_ACK)
  {
  }

  // Acknowledgements arrive in order: the count never goes down, and never passes what the server
  // has delivered.
  lemma ClientReads(order: HostOrder, s: System, count: int) returns (count': int)
    requires BothOpen(order, s) && s.toClient != [] && Acknowledged(order, s, count)
    ensures var t := After(s, Client, OnNetwork(order, s.client, s.toClient[0]), 1);
            BothOpen(order, t) && Acknowledged(order, t, count') && count <= count' <= Total(t.server.delivered)
  {
    hide Half, IsFin, Htonl, Ntohl, Add32, StrNCpy, Acks, AckChain;
    var seg := s.toClient[0];
    HeadNotFin(s.server, s.client, s.toClient, 0, ReverseBase(s));
    NetworkIsData(order, s.client, seg);
    var o := AcceptData(order, s.client, seg);
    var t := After(s, Client, o, 1);
    HalfRead(order, s.server, s.client, s.toClient, 0, ReverseBase(s));
    SameSender(s.client, t.client, s.server, s.toServer, Base(s), Base(s));
    AckIsNotFin();
    if o.sent != [] {
      HalfControl(t.client, s.server, s.toServer, Base(s), Base(s), o.sent[0]);
      assert t.toServer == s.toServer + [o.sent[0]];
    } else {
      assert t.toServer == s.toServer;
    }
    var j := AckHead(order, s.toClient, Base(s), count, Total(s.server.delivered));
    count' := if seg.flags == TH_ACK then j else count;
    AckTailBound(order, t.toClient, Base(s), j, Total(s.server.delivered));
    AckWiden(order, t.toClient, Base(s), j, Total(s.server.delivered), count', Total(s.server.delivered));
    NtohlHtonl(order, Add32(Base(s), j));
    AcksMeans(order, seg, Base(s), j);
    assert Acknowledged(order, t, count');
  }

  lemma AcksMeans(order: HostOrder, s: Segment, base: uint32, j: int)
    requires Acks(order, s, base, j)
    ensures s.ack == Htonl(order, Add32(base, j))
  {
  }

  lemma AckHead(order: HostOrder, channel: seq<Segment>, base: uint32, lo: int, hi: int) returns (j: int)
    requires AckChain(order, channel, base, lo, hi) && channel != []
    ensures Acks(order, channel[0], base, j) && lo <= j <= hi && AckChain(order, channel[1..], base, j, hi)
  {
    hide Acks;
    j :| Acks(order, channel[0], base, j) && lo <= j <= hi && AckChain(order, channel[1..], base, j, hi);
  }

  lemma {:induction false} AckTailBound(order: HostOrder, channel: seq<Segment>, base: uint32, lo: int, hi: int)
    requires AckChain(order, channel, base, lo, hi)
    ensures lo <= hi
  {
    hide Acks;
  }

  lemma ServerReads(order: HostOrder, s: System, count: int)
    requires BothOpen(order, s) && s.toServer != [] && Acknowledged(order, s, count)
    ensures var t := After(s, Server, OnNetwork(order, s.server, s.toServer[0]), 1);
            BothOpen(order, t) && Acknowledged(order, t, count)
  {
    hide Half, IsFin, Htonl, Ntohl, Add32, StrNCpy, Acks, AckChain;
    var seg := s.toServer[0];
    HeadNotFin(s.client, s.server, s.toServer, Base(s), Base(s));
    NetworkIsData(order, s.server, seg);
    var o := AcceptData(order, s.server, seg);
    var t := After(s, Server, o, 1);
    HalfRead(order, s.client, s.server, s.toServer, Base(s), Base(s));
    SameSender(s.server, t.server, s.client, s.toClient, 0, ReverseBase(s));
    AckIsNotFin();
    var n, n' := Total(s.server.delivered), Total(t.server.delivered);
    if o.sent != [] {
      HalfControl(t.server, s.client, s.toClient, 0, ReverseBase(s), o.sent[0]);
      assert t.toClient == s.toClient + [o.sent[0]];
      TotalAppend(s.server.delivered, StrNCpy(seg.payload));
      ExpectedIs(s.client, t.server, t.toServer, Base(s), Base(s));
      assert Acks(order, o.sent[0], Base(s), n') by { AcksIf(order, o.sent[0], Base(s), n'); }
      AckAppend(order, s.toClient, Base(s), count, n, o.sent[0], n');
    } else {
      assert t.toClient == s.toClient;
    }
    assert Acknowledged(order, t, count);
  }

  lemma ExpectedIs(x: Endpoint, y: Endpoint, channel: seq<Segment>, from: uint32, to: uint32)
    requires Half(x, y, channel, from, to)
    ensures y.expected == Add32(to, Total(y.delivered))
  {
    hide Flow, NoFin, Add32;
  }

  lemma AcksIf(order: HostOrder, s: Segment, base: uint32, j: int)
    requires s.ack == Htonl(order, Add32(base, j))
    ensures Acks(order, s, base, j)
  {
  }

  // ---------- Every step ----------

  lemma Add32Zero(x: uint32)
    ensures Add32(x, 0) == x
  {
  }

  // The state as it will be once the server has opened too.
  function Completed(s: System): System {
    if s.server.phase == ServerWaitAck && s.toServer != [] then Opened(s) else s
  }

  // The client has everything it needs when it opens; the server will have it one segment later.
  lemma ClientOpensOk(order: HostOrder, s: System)
    requires Inv(order, s) && s.client.phase == ClientWait && s.server.phase == ServerWaitAck
    ensures var t := After(s, Client, ReceiveSynAck(s.client, s.toClient[0]), 1);
            Inv(order, t) && Acknowledged(order, Completed(t), -1)
  {
    hide Htonl, Add32, FromRandom;
    var t := After(s, Client, ReceiveSynAck(s.client, s.toClient[0]), 1);
    var u := Opened(t);
    assert t.toServer == [Segment(TH_ACK, Base(s), ReverseBase(s), [])] && u.toServer == [] && u.toClient == [];
    Add32Zero(Base(s));
    Add32Zero(ReverseBase(s));
    Add32Zero(0);
    assert Half(u.client, u.server, u.toServer, Base(s), Base(s));
    assert Half(u.server, u.client, u.toClient, 0, ReverseBase(s));
    assert Acknowledged(order, u, -1);
  }

  lemma OpenedWrite(order: HostOrder, s: System, data: seq<byte>)
    requires s.toServer != []
    ensures var o := OnAppData(order, s.client, data);
            Opened(After(s, Client, o, 0)) == After(Opened(s), Client, o, 0)
  {
    hide Htonl, Add32;
    var o := OnAppData(order, s.client, data);
    assert (s.toServer + o.sent)[1..] == s.toServer[1..] + o.sent;
    assert s.toClient[0..] == s.toClient;
  }

  lemma OpenFacts(order: HostOrder, s: System)
    requires BothOpen(order, s)
    ensures NoFin(s.toServer) && NoFin(s.toClient)
  {
    hide Flow, Add32, NoFin;
  }

  lemma SynIsNotFin()
    ensures !IsFin(TH_SYN) && !IsFin(TH_ACK + TH_SYN)
  {
  }

  // The client's acknowledged count, before and after it opens.
  ghost predicate Counted(order: HostOrder, s: System, count: int) {
    if s.client.phase == Open then Acknowledged(order, Completed(s), count) else count == -1
  }

  // A step other than a close request keeps the invariant, and the acknowledged count never goes back.
  lemma StepCounts(order: HostOrder, s: System, e: Event, count: int) returns (count': int)
    requires Inv(order, s) && Enabled(s, e) && !Closes(e) && Counted(order, s, count)
    ensures var t := Step(order, s, e);
            Inv(order, t) && Counted(order, t, count') && count <= count'
  {
    hide BothOpen, Acknowledged, Htonl, Ntohl, Add32, IsFin, OnAppData, OnNetwork;
    SynIsNotFin();
    AckIsNotFin();
    count' := count;
    match e
    case Connect(random) =>
    case Accept(random) =>
      assert (random + 20) % 0x100 < 0x100;
    case ClientOpens =>
      ClientOpensOk(order, s);
    case ServerOpens =>
      OpenFacts(order, Opened(s));
    case Wake(role, data, network, close) =>
      count' := WakeCounts(order, s, e, count);
    case FinAck(role) =>
  }

  lemma WakeCounts(order: HostOrder, s: System, e: Event, count: int) returns (count': int)
    requires Inv(order, s) && Enabled(s, e) && e.Wake? && !Closes(e) && Counted(order, s, count)
    ensures var t := Step(order, s, e);
            Inv(order, t) && Counted(order, t, count') && count <= count'
  {
    hide Half, AckChain, Htonl, Ntohl, Add32, IsFin, NoFin, OnNetwork, FromRandom, Acknowledged;
    count' := count;
    var data := e.data;
    if s.server.phase == ServerWaitAck {
      ClientWrites(order, Opened(s), data, count);
      OpenedWrite(order, s, data);
      FirstWrite(order, s, data);
    } else if e.role == Client {
      if data != [] {
        ClientWrites(order, s, data, count);
        OpenFacts(order, After(s, Client, OnAppData(order, s.client, data), 0));
      } else {
        count' := ClientReads(order, s, count);
        OpenFacts(order, After(s, Client, OnNetwork(order, s.client, s.toClient[0]), 1));
        HandshakeKept(order, s.client, s.toClient[0]);
      }
    } else {
      if data != [] {
        ServerWrites(order, s, data, count);
        OpenFacts(order, After(s, Server, OnAppData(order, s.server, data), 0));
      } else {
        ServerReads(order, s, count);
        OpenFacts(order, After(s, Server, OnNetwork(order, s.server, s.toServer[0]), 1));
        HandshakeKept(order, s.server, s.toServer[0]);
      }
    }
  }

  lemma HandshakeKept(order: HostOrder, e: Endpoint, s: Segment)
    ensures OnNetwork(order, e, s).endpoint.handshake == e.handshake
  {
    hide Htonl, Ntohl, Add32, StrNCpy, IsFin;
  }

  lemma FirstWrite(order: HostOrder, s: System, data: seq<byte>)
    requires NoFin(s.toServer) && Quiet(s.client) && s.toClient == []
    ensures var t := After(s, Client, OnAppData(order, s.client, data), 0);
            NoFin(t.toServer) && t.toClient == [] && Quiet(t.client)
  {
    hide Htonl, Add32, IsFin;
  }

  // ---------- Every run ----------

  // A run in which the uninitialised flags are no FIN and no close request has been handled.
  ghost predicate DataRun(order: HostOrder, states: seq<System>, events: seq<Event>) {
    && IsRun(order, states, events)
    && !IsFin(states[0].client.flags) && !IsFin(states[0].server.flags)
    && forall i | 0 <= i < |events| :: !Closes(events[i])
  }

  // Along a run the invariant holds, and the client's AcknowledgedByte stands for counts that never go
  // down, as integers.
  lemma {:induction false} RunCounts(order: HostOrder, states: seq<System>, events: seq<Event>, i: nat)
    returns (counts: seq<int>)
    requires DataRun(order, states, events) && i <= |events|
    ensures Inv(order, states[i]) && |counts| == i + 1
    ensures forall j | 0 <= j <= i :: Counted(order, states[j], counts[j])
    ensures forall j | 0 <= j < i :: counts[j] <= counts[j + 1]
  {
    hide Step, Enabled, IsFin, Closes, Counted;
    if i == 0 {
      counts := [-1];
      StartCounts(order, states[0]);
    } else {
      counts := RunCounts(order, states, events, i - 1);
      assert states[i - 1 + 1] == Step(order, states[i - 1], events[i - 1]);
      var count := StepCounts(order, states[i - 1], events[i - 1], counts[i - 1]);
      counts := counts + [count];
    }
  }

  lemma StartCounts(order: HostOrder, s: System)
    requires exists clientJunk: int, serverJunk: int :: s == Start(clientJunk, serverJunk)
    requires !IsFin(s.client.flags) && !IsFin(s.server.flags)
    ensures Inv(order, s) && Counted(order, s, -1)
  {
    hide IsFin;
  }

  lemma RunKeeps(order: HostOrder, states: seq<System>, events: seq<Event>, i: nat)
    requires DataRun(order, states, events) && i <= |events|
    ensures Inv(order, states[i])
  {
    var counts := RunCounts(order, states, events, i);
  }
}
