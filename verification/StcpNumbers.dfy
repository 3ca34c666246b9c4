// The numbers on the wire, in every run of the data phase: which sequence number each segment carries,
// and what the acknowledgements amount to.

module StcpNumbers {
  import opened Machine
  import opened StcpSpec
  import opened StcpData
  import opened StcpInvariant
  import opened StcpDelivery

  // ---------- Memory ----------

  // The four bytes of a variable, in the order in which they lie in memory.
  function Stored(order: HostOrder, x: uint32): seq<byte> {
    if order.BigEndian? then [Byte32(x, 0), Byte32(x, 1), Byte32(x, 2), Byte32(x, 3)]
    else [Byte32(x, 3), Byte32(x, 2), Byte32(x, 1), Byte32(x, 0)]
  }

  // On either host htonl leaves the most significant byte first.
  lemma HtonlStores(order: HostOrder, x: uint32)
    ensures Stored(order, Htonl(order, x)) == [x / 0x100_0000, x / 0x1_0000 % 0x100, x / 0x100 % 0x100, x % 0x100]
  {
    assert x / 0x100_0000 % 0x100 == x / 0x100_0000;
    if order.LittleEndian? {
      hide Join32;
      BytesOfJoin(Byte32(x, 3), Byte32(x, 2), Byte32(x, 1), Byte32(x, 0));
    }
  }

  // ---------- The handshake ----------

  function Steps(order: HostOrder, s: System, first: nat, second: nat): (ts: seq<System>)
    requires s.client.phase == ClientStart && s.server.phase == ServerWaitSyn && s.toServer == [] && s.toClient == []
  {
    var s1 := Step(order, s, Connect(first));
    var s2 := Step(order, s1, Accept(second));
    var s3 := Step(order, s2, ClientOpens);
    [s1, s2, s3, Step(order, s3, ServerOpens)]
  }

  // SYN, SYN and ACK, ACK: each acknowledges the number of the one before, as it is stored, plus one,
  // and the counters start from those numbers, but for the server's own, which starts from 0.
  lemma Handshake(order: HostOrder, clientJunk: int, serverJunk: int, first: nat, second: nat)
    ensures var x, y := Htonl(order, first % 256), Htonl(order, (second + 20) % 256);
            var s := Steps(order, Start(clientJunk, serverJunk), first, second);
            && |s| == 4
            && s[0].toServer == [Segment(2, x, 0, [])]
            && s[1].toClient == [Segment(18, y, Add32(x, 1), [])]
            && s[2].toServer == [Segment(16, Add32(x, 1), Add32(y, 1), [])]
            && s[2].client.acknowledged == x && s[2].client.sequence == Add32(x, 1)
            && s[2].client.expected == Add32(y, 1)
            && s[3].server.acknowledged == y && s[3].server.sequence == 0 && s[3].server.expected == Add32(x, 1)
            && s[3].client == s[2].client && s[3].toServer == [] && s[3].toClient == []
  {
    hide Htonl;
    var x := Htonl(order, first % 256);
    assert Add32(Add32(x, 1), -1) == x;
  }

  // ---------- Sequence numbers ----------

  // Every segment of the channel carries, in host order, the number of the first byte that has not
  // been sent before it.
  predicate Numbered(order: HostOrder, channel: seq<Segment>, next: uint32) {
    channel == [] ||
    (Ntohl(order, channel[0].seqno) == next && Numbered(order, channel[1..], Add32(next, |channel[0].payload|)))
  }

  lemma {:induction false} NumberedAppend(order: HostOrder, channel: seq<Segment>, next: uint32, s: Segment)
    requires Numbered(order, channel, next)
    requires s.seqno == Htonl(order, Add32(next, Total(DataOf(channel))))
    ensures Numbered(order, channel + [s], next)
    decreases |channel|
  {
    hide Htonl, Ntohl, Add32;
    NtohlHtonl(order, Add32(next, Total(DataOf(channel))));
    if channel == [] {
      assert [] + [s] == [s] && [s][1..] == [];
      Add32Zero(next);
    } else {
      assert (channel + [s])[1..] == channel[1..] + [s];
      Add32Twice(next, |channel[0].payload|, Total(DataOf(channel[1..])));
      HeadData(channel);
      NumberedAppend(order, channel[1..], Add32(next, |channel[0].payload|), s);
    }
  }

  lemma HeadData(channel: seq<Segment>)
    requires channel != []
    ensures Total(DataOf(channel)) == |channel[0].payload| + Total(DataOf(channel[1..]))
  {
    var p := channel[0].payload;
    if p != [] {
      assert ([p] + DataOf(channel[1..]))[1..] == DataOf(channel[1..]);
    } else {
      assert [] + DataOf(channel[1..]) == DataOf(channel[1..]);
    }
  }

  // ---------- Acknowledgements ----------

  // The acknowledged byte of an endpoint once it has read the whole channel; 16 is the ACK flag.
  function AckAfter(order: HostOrder, value: uint32, channel: seq<Segment>): uint32
    decreases |channel|
  {
    if channel == [] then value
    else AckAfter(order, if channel[0].flags == 16 then Ntohl(order, channel[0].ack) else value, channel[1..])
  }

  lemma {:induction false} AckAppended(order: HostOrder, value: uint32, channel: seq<Segment>, s: Segment)
    ensures AckAfter(order, value, channel + [s]) ==
            if s.flags == 16 then Ntohl(order, s.ack) else AckAfter(order, value, channel)
    decreases |channel|
  {
    hide Ntohl;
    if channel == [] {
      assert [] + [s] == [s] && [s][1..] == [];
    } else {
      assert (channel + [s])[1..] == channel[1..] + [s];
      AckAppended(order, if channel[0].flags == 16 then Ntohl(order, channel[0].ack) else value, channel[1..], s);
    }
  }

  // ---------- One direction ----------

  // x sends to y by the channel and hears from it by the other one.
  predicate Wire(order: HostOrder, x: Endpoint, y: Endpoint, channel: seq<Segment>, back: seq<Segment>, from: uint32) {
    && Numbered(order, channel, Add32(from, Total(y.delivered)))
    && (y.delivered != [] ==> AckAfter(order, x.acknowledged, back) == y.expected)
  }

  // What x sends next carries the next number.
  lemma NextNumber(x: Endpoint, y: Endpoint, channel: seq<Segment>, from: uint32, to: uint32)
    requires Half(x, y, channel, from, to)
    ensures x.sequence == Add32(Add32(from, Total(y.delivered)), Total(DataOf(channel)))
  {
    hide Flow, NoFin, Add32;
    HalfAccounts(x, y, channel, from, to);
    Add32Twice(from, Total(y.delivered), Total(DataOf(channel)));
  }

  // A segment with x's number continues the channel.
  lemma SenderSends(order: HostOrder, x: Endpoint, y: Endpoint, channel: seq<Segment>, back: seq<Segment>,
                    from: uint32, to: uint32, s: Segment)
    requires Half(x, y, channel, from, to) && Wire(order, x, y, channel, back, from)
    ensures s.seqno == Htonl(order, x.sequence) ==>
              Numbered(order, channel + [s], Add32(from, Total(y.delivered)))
  {
    hide Half, Htonl, Add32, Numbered, AckAfter;
    NextNumber(x, y, channel, from, to);
    if s.seqno == Htonl(order, x.sequence) {
      NumberedAppend(order, channel, Add32(from, Total(y.delivered)), s);
    }
  }

  // A segment with y's acknowledgement leaves x acknowledged up to what y expects.
  lemma ReceiverSends(order: HostOrder, value: uint32, expected: uint32, back: seq<Segment>, s: Segment)
    ensures s.ack == Htonl(order, expected) && AckAfter(order, value, back) == expected ==>
              AckAfter(order, value, back + [s]) == expected
  {
    hide Htonl, Ntohl, AckAfter;
    NtohlHtonl(order, expected);
    AckAppended(order, value, back, s);
  }

  lemma ReceiverReads(order: HostOrder, x: Endpoint, y: Endpoint, channel: seq<Segment>, back: seq<Segment>,
                      from: uint32)
    requires channel != [] && Wire(order, x, y, channel, back, from)
    ensures var o := AcceptData(order, y, channel[0]);
            Wire(order, x, o.endpoint, channel[1..], back + o.sent, from)
  {
    hide Htonl, Ntohl, Add32, StrNCpy, AckAfter;
    var seg := channel[0];
    var o := AcceptData(order, y, seg);
    var p := seg.payload;
    Add32Twice(from, Total(y.delivered), |p|);
    if p == [] {
      Add32Zero(Add32(from, Total(y.delivered)));
      assert back + [] == back;
    } else {
      TotalAppend(y.delivered, StrNCpy(p));
      NtohlHtonl(order, o.endpoint.expected);
      AckAppended(order, x.acknowledged, back, o.sent[0]);
    }
  }

  lemma SenderReads(order: HostOrder, x: Endpoint, y: Endpoint, channel: seq<Segment>, back: seq<Segment>,
                    from: uint32, to: uint32)
    requires back != [] && Half(x, y, channel, from, to) && Wire(order, x, y, channel, back, from)
    ensures var o := AcceptData(order, x, back[0]);
            Wire(order, o.endpoint, y, channel + o.sent, back[1..], from)
  {
    hide Half, Htonl, Ntohl, Add32, StrNCpy, Numbered;
    var o := AcceptData(order, x, back[0]);
    if o.sent == [] {
      assert channel + [] == channel;
    } else {
      NextNumber(x, y, channel, from, to);
      NumberedAppend(order, channel, Add32(from, Total(y.delivered)), o.sent[0]);
    }
  }

  // ---------- Both directions ----------

  ghost predicate Wires(order: HostOrder, s: System) {
    && Wire(order, s.client, s.server, s.toServer, s.toClient, Base(s))
    && Wire(order, s.server, s.client, s.toClient, s.toServer, 0)
  }

  lemma ReadWires(order: HostOrder, s: System, role: Role)
    requires BothOpen(order, s) && Wires(order, s) && Incoming(s, role) != []
    ensures Wires(order, After(s, role, OnNetwork(order, End(s, role), Incoming(s, role)[0]), 1))
  {
    hide Half, Wire, AckChain, AcceptData, IsFin;
    var e, seg := End(s, role), Incoming(s, role)[0];
    if role == Client {
      HeadNotFin(s.server, s.client, s.toClient, 0, ReverseBase(s));
      SenderReads(order, e, s.server, s.toServer, s.toClient, Base(s), Base(s));
      ReceiverReads(order, s.server, e, s.toClient, s.toServer, 0);
    } else {
      HeadNotFin(s.client, s.server, s.toServer, Base(s), Base(s));
      SenderReads(order, e, s.client, s.toClient, s.toServer, 0, ReverseBase(s));
      ReceiverReads(order, s.client, e, s.toServer, s.toClient, Base(s));
    }
    NetworkIsData(order, e, seg);
    HandshakeKept(order, e, seg);
  }

  // ---------- Every run ----------

  ghost predicate OnWire(order: HostOrder, s: System) {
    s.client.phase == Open ==> Wires(order, Completed(s))
  }

  lemma OpeningWires(order: HostOrder, s: System)
    requires Inv(order, s) && s.client.phase == ClientWait && s.server.phase == ServerWaitAck
    ensures OnWire(order, After(s, Client, ReceiveSynAck(s.client, s.toClient[0]), 1))
  {
    hide Htonl, Add32, FromRandom, AckChain;
    var t := After(s, Client, ReceiveSynAck(s.client, s.toClient[0]), 1);
    var u := Completed(t);
    assert u.toServer == [] && u.toClient == [];
  }

  lemma WrittenWires(order: HostOrder, s: System, role: Role, data: seq<byte>)
    ensures BothOpen(order, s) && Wires(order, s) ==>
              Wires(order, After(s, role, OnAppData(order, End(s, role), data), 0))
  {
    hide Half, Numbered, AckAfter, AckChain, Htonl, Add32, IsFin;
    if BothOpen(order, s) && Wires(order, s) {
      var sent := OnAppData(order, End(s, role), data).sent[0];
      assert s.toClient[0..] == s.toClient && s.toServer[0..] == s.toServer;
      if role == Client {
        SenderSends(order, s.client, s.server, s.toServer, s.toClient, Base(s), Base(s), sent);
        ReceiverSends(order, s.server.acknowledged, s.client.expected, s.toServer, sent);
      } else {
        SenderSends(order, s.server, s.client, s.toClient, s.toServer, 0, ReverseBase(s), sent);
        ReceiverSends(order, s.client.acknowledged, s.server.expected, s.toClient, sent);
      }
    }
  }

  lemma StepWires(order: HostOrder, s: System, e: Event)
    requires Inv(order, s) && Enabled(s, e) && !Closes(e) && OnWire(order, s)
    ensures OnWire(order, Step(order, s, e))
  {
    hide BothOpen, Wires, Htonl, Ntohl, Add32, IsFin, NoFin, OnAppData, OnNetwork, FromRandom;
    match e
    case Connect(random) =>
    case Accept(random) =>
    case ClientOpens => OpeningWires(order, s);
    case ServerOpens =>
    case Wake(role, data, network, close) =>
      if data != [] {
        WritesStayOpen(order, End(s, role), data);
        WrittenWires(order, Completed(s), role, data);
        if s.server.phase == ServerWaitAck {
          OpenedWrite(order, s, data);
        }
      } else {
        ReadWires(order, s, role);
        PhaseKept(order, End(s, role), Incoming(s, role)[0]);
      }
    case FinAck(role) =>
  }

  lemma WritesStayOpen(order: HostOrder, e: Endpoint, data: seq<byte>)
    ensures OnAppData(order, e, data).endpoint.phase == e.phase
  {
    hide Htonl, Add32;
  }

  lemma {:induction false} RunWires(order: HostOrder, states: seq<System>, events: seq<Event>, i: nat)
    requires DataRun(order, states, events) && i <= |events|
    ensures OnWire(order, states[i])
  {
    hide Step, Enabled, IsFin, Closes, Wires, Inv;
    if i > 0 {
      RunWires(order, states, events, i - 1);
      RunKeeps(order, states, events, i - 1);
      assert states[i - 1 + 1] == Step(order, states[i - 1], events[i - 1]);
      StepWires(order, states[i - 1], events[i - 1]);
    }
  }

  // From the moment the client opens, every segment in flight to the server, but for the last one of
  // the handshake, carries the number the server will expect when it comes; in the other direction
  // the numbers count from 0 the bytes the client has been given and those before it.
  lemma SegmentNumbers(order: HostOrder, states: seq<System>, events: seq<Event>, i: nat)
    requires DataRun(order, states, events) && i <= |events| && states[i].client.phase == Open
    ensures var s := states[i];
            && Numbered(order, Completed(s).toServer, ServerExpects(s))
            && Numbered(order, s.toClient, Add32(0, Total(s.client.delivered)))
  {
    hide Step, Enabled, Closes, Half, AckChain, FromRandom, NoFin, IsFin, Add32, DataOf, Total, Numbered, AckAfter;
    RunWires(order, states, events, i);
    RunKeeps(order, states, events, i);
    ClientSide(order, states[i]);
    var u := if states[i].server.phase == Open then states[i] else Opened(states[i]);
    assert Completed(states[i]) == u;
    ExpectedIs(u.client, u.server, u.toServer, Base(u), Base(u));
  }

  // The FIN continues the numbering behind all data, and acknowledges all that was received.
  lemma FinNumber(order: HostOrder, states: seq<System>, events: seq<Event>, i: nat, role: Role)
    requires DataRun(order, states, events) && i <= |events|
    requires states[i].client.phase == Open && states[i].server.phase == Open
    ensures var s := states[i];
            var e := End(s, role);
            var fins := OnClose(order, e).sent;
            && |fins| == 1 && fins[0].flags == 1 && fins[0].payload == [] && Ntohl(order, fins[0].ack) == e.expected
            && if role == Client then Numbered(order, s.toServer + fins, s.server.expected)
               else Numbered(order, s.toClient + fins, Add32(0, Total(s.client.delivered)))
  {
    hide Step, Enabled, Closes, Half, AckChain, FromRandom, NoFin, IsFin, Add32, DataOf, Total, Numbered, AckAfter,
         Htonl, Ntohl;
    SegmentNumbers(order, states, events, i);
    RunKeeps(order, states, events, i);
    var s := states[i];
    var fin := OnClose(order, End(s, role)).sent[0];
    NtohlHtonl(order, End(s, role).expected);
    if role == Client {
      NextNumber(s.client, s.server, s.toServer, Base(s), Base(s));
      ExpectedIs(s.client, s.server, s.toServer, Base(s), Base(s));
      NumberedAppend(order, s.toServer, s.server.expected, fin);
    } else {
      NextNumber(s.server, s.client, s.toClient, 0, ReverseBase(s));
      NumberedAppend(order, s.toClient, Add32(0, Total(s.client.delivered)), fin);
    }
  }

  // Once the server has delivered anything, the acknowledgements on their way bring the client's
  // AcknowledgedByte up to what the server expects, and likewise in the other direction: nothing
  // delivered stays unacknowledged.
  lemma AllAcknowledged(order: HostOrder, states: seq<System>, events: seq<Event>, i: nat)
    requires DataRun(order, states, events) && i <= |events|
    requires states[i].client.phase == Open && states[i].server.phase == Open
    ensures var s := states[i];
            && (s.server.delivered != [] ==> AckAfter(order, s.client.acknowledged, s.toClient) == s.server.expected)
            && (s.client.delivered != [] ==> AckAfter(order, s.server.acknowledged, s.toServer) == s.client.expected)
  {
    hide Step, Enabled, Closes, IsFin, Numbered, AckAfter, Add32;
    RunWires(order, states, events, i);
  }

  // What an endpoint answers to a segment: one acknowledgement for data and one for a FIN, each with its
  // next number and with the number it now expects.
  lemma AckNumbers(order: HostOrder, e: Endpoint, s: Segment)
    ensures var sent := OnNetwork(order, e, s).sent;
            && |sent| == (if s.payload != [] then 1 else 0) + (if s.flags in {0x01, 0x11} then 1 else 0)
            && forall k | 0 <= k < |sent| ::
                 && sent[k].flags == 16 && sent[k].payload == []
                 && Ntohl(order, sent[k].seqno) == e.sequence
                 && Ntohl(order, sent[k].ack) == Add32(e.expected, |s.payload|)
  {
    hide Htonl, Ntohl, Add32, StrNCpy;
    NtohlHtonl(order, e.sequence);
    NtohlHtonl(order, Add32(e.expected, |s.payload|));
    NtohlHtonl(order, e.expected);
    Add32Zero(e.expected);
  }
}
