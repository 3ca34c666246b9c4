// The STCP transport layer over its mutable state: the handshake of transport_init and the event
// loop, each tied to the functions of StcpSpec.

module Stcp {
  import opened Machine
  import opened StcpSpec

  const HEADER_SIZE := 20
  const BUFFER_SIZE := HEADER_SIZE + STCP_MSS

  // What one iteration of control_loop finds pending.
  datatype Wakeup = Wakeup(data: seq<byte>, arrived: Option<Segment>, close: bool)

  predicate Pending(w: Wakeup) {
    && |w.data| <= STCP_MSS
    && (w.arrived.Some? ==> |w.arrived.value.payload| <= STCP_MSS)
    && (w.data != [] || w.arrived.Some? || w.close)
  }

  function Iteration(order: HostOrder, e: Endpoint, w: Wakeup): Outcome {
    var o := OnWake(order, e, w.data, w.arrived);
    if o.endpoint.phase == AwaitFinAck then o.(endpoint := OnFinAck(o.endpoint).endpoint) else o
  }

  function Loop(order: HostOrder, e: Endpoint, wakeups: seq<Wakeup>): Outcome
    decreases |wakeups|
  {
    if e.phase == Done || wakeups == [] then Outcome(e, [])
    else
      var o := Iteration(order, e, wakeups[0]);
      var rest := Loop(order, o.endpoint, wakeups[1..]);
      rest.(sent := o.sent + rest.sent)
  }

  // An iteration is what the two-endpoint system does for that role: one event, or two when it sends
  // a FIN and blocks until any segment comes.
  lemma IterationIsSteps(order: HostOrder, s: System, role: Role, w: Wakeup)
    requires End(s, role).phase == Open && Pending(w)
    requires w.arrived.Some? ==> Incoming(s, role) != [] && Incoming(s, role)[0] == w.arrived.value
    ensures var e := Wake(role, w.data, w.arrived.Some?, w.close);
            var o := Iteration(order, End(s, role), w);
            && Enabled(s, e)
            && (!Closes(e) ==> Step(order, s, e) == After(s, role, o, Taken(e)))
            && (Closes(e) && Incoming(s, role) != [] ==>
                  && Enabled(Step(order, s, e), FinAck(role))
                  && Step(order, Step(order, s, e), FinAck(role)) == After(s, role, o, 1))
  {
    hide OnAppData, OnNetwork, OnFinAck, Htonl;
    BranchPhases(order, End(s, role), w);
    var out, channel := OnClose(order, End(s, role)), Incoming(s, role);
    assert channel[0..] == channel;
    assert out.sent + [] == out.sent;
    assert s.toServer + out.sent + [] == s.toServer + out.sent;
    assert s.toClient + out.sent + [] == s.toClient + out.sent;
    assert OnFinAck(out.endpoint).sent == [] by { FinAckSendsNothing(out.endpoint); }
  }

  lemma FinAckSendsNothing(e: Endpoint)
    ensures OnFinAck(e).sent == []
  {
  }

  // strncpy of n bytes of source, from an index on, into the front of target.
  method CopyString(target: array<byte>, source: array<byte>, from: nat, n: nat)
    requires n <= target.Length && from + n <= source.Length && target != source
    modifies target
    ensures target[..n] == StrNCpy(source[from..from + n])
    ensures target[n..] == old(target[n..])
  {
    hide StrNCpy;
    var i := 0;
    while i < n && source[from + i] != 0
      invariant 0 <= i <= n
      invariant StrNCpy(source[from..from + n]) == target[..i] + StrNCpy(source[from + i..from + n])
      invariant target[n..] == old(target[n..])
    {
      CopyOne(source[from + i..from + n]);
      assert source[from + i..from + n][1..] == source[from + i + 1..from + n];
      target[i] := source[from + i];
      i := i + 1;
    }
    ghost var stop, copied := i, target[..i];
    CopyNul(source[from + stop..from + n]);
    while i < n
      invariant stop <= i <= n
      invariant target[..i] == copied + Nuls(i - stop)
      invariant target[n..] == old(target[n..])
    {
      target[i] := 0;
      i := i + 1;
    }
  }

  function Nuls(n: nat): seq<byte> {
    seq(n, _ => 0)
  }

  lemma CopyOne(p: seq<byte>)
    requires p != [] && p[0] != 0
    ensures StrNCpy(p) == [p[0]] + StrNCpy(p[1..])
  {
  }

  lemma CopyNul(p: seq<byte>)
    requires p == [] || p[0] == 0
    ensures StrNCpy(p) == Nuls(|p|)
  {
  }

  // One end of a connection: the globals of transport.c, the context of the connection and the
  // locals of control_loop that survive an iteration. The ghost fields are the history: what was
  // handed to the network and exchanged with the application, and how far the code has come.
  class Transport {
    const order: HostOrder
    const networkBuffer: array<byte>

    var acknowledgedByte: uint32
    var nextExpectedByte: uint32
    var sequenceNumber: uint32
    var headerFlags: int
    var connectionState: Connection
    var done: bool
    var d: Segment

    ghost var phase: Phase
    ghost var written: seq<seq<byte>>
    ghost var delivered: seq<seq<byte>>
    ghost var finSent: bool
    ghost var finSeen: bool
    ghost var sent: seq<Segment>

    ghost predicate Valid()
      reads this
    {
      networkBuffer.Length == BUFFER_SIZE && (done <==> phase == Done)
    }

    ghost function Model(): Endpoint
      reads this
    {
      Endpoint(phase, connectionState, acknowledgedByte, nextExpectedByte, sequenceNumber, headerFlags, d,
               written, delivered, finSent, finSeen)
    }

    constructor (order: HostOrder, isActive: bool, junk: int)
      ensures Valid() && fresh(networkBuffer) && sent == [] && this.order == order
      ensures Model() == NewEndpoint(if isActive then ClientStart else ServerWaitSyn, junk)
    {
      this.order := order;
      networkBuffer := new byte[BUFFER_SIZE](_ => 0);
      acknowledgedByte, nextExpectedByte, sequenceNumber, headerFlags := 0, 0, 0, junk;
      connectionState, done, d := Established, false, NO_SEGMENT;
      phase := if isActive then ClientStart else ServerWaitSyn;
      written, delivered, finSent, finSeen, sent := [], [], false, false, [];
    }

    method Send(s: Segment)
      modifies this`sent
      ensures sent == old(sent) + [s]
    {
      sent := sent + [s];
    }

    // transport_init of the active end: b is the segment its blocking receive returns.
    method Connect(random: nat, b: Segment)
      requires Valid() && phase == ClientStart
      modifies this
      ensures var syn := SendSyn(order, old(Model()), random);
              var reply := ReceiveSynAck(syn.endpoint, b);
              Valid() && Model() == reply.endpoint && sent == old(sent) + syn.sent + reply.sent
    {
      hide Htonl, Add32;
      var seqno := Htonl(order, random % 0x100);
      Send(Segment(TH_SYN, seqno, 0, []));
      var e := Segment(TH_ACK, b.ack, Add32(b.seqno, 1), []);
      Send(e);
      acknowledgedByte := Add32(b.ack, -1);
      sequenceNumber := b.ack;
      nextExpectedByte := e.ack;
      phase := Open;
    }

    // transport_init of the passive end, which receives c and then the last segment of the handshake.
    // The header E it takes its sequence number from is one it never filled.
    method Accept(random: nat, c: Segment)
      requires Valid() && phase == ServerWaitSyn
      modifies this
      ensures var syn := ReceiveSyn(order, old(Model()), c, random);
              Valid() && Model() == ReceiveHandshakeAck(syn.endpoint).endpoint && sent == old(sent) + syn.sent
    {
      hide Htonl, Add32;
      d := Segment(TH_ACK + TH_SYN, Htonl(order, (random + 20) % 0x100), Add32(c.seqno, 1), []);
      Send(d);
      acknowledgedByte := d.seqno;
      sequenceNumber := 0;
      nextExpectedByte := d.ack;
      phase := Open;
    }

    method ServeApplication(data: seq<byte>)
      requires Valid()
      modifies this
      ensures var o := OnAppData(order, old(Model()), data);
              Valid() && Model() == o.endpoint && sent == old(sent) + o.sent
    {
      var header := Segment(headerFlags, Htonl(order, sequenceNumber), Htonl(order, nextExpectedByte), data);
      sequenceNumber := Add32(sequenceNumber, |data|);
      Send(header);
      written := written + [data];
    }

    method SendAck()
      modifies this`sent
      ensures sent == old(sent) + [PlainAck(order, Model())]
    {
      var seqno, ack := Htonl(order, sequenceNumber), Htonl(order, nextExpectedByte);
      Send(Segment(TH_ACK, seqno, ack, []));
    }

    // The header and the data behind it, as stcp_network_recv leaves them in the buffer.
    method ServeData(header: Segment, received: nat)
      requires Valid() && HEADER_SIZE <= received <= BUFFER_SIZE
      requires header.payload == networkBuffer[HEADER_SIZE..received]
      modifies this
      ensures var o := AcceptData(order, old(Model()), header);
              Valid() && Model() == o.endpoint && sent == old(sent) + o.sent
    {
      hide StrNCpy, Htonl, Ntohl, Add32;
      var n := received - HEADER_SIZE;
      var data := new byte[n](_ => 0);
      CopyString(data, networkBuffer, HEADER_SIZE, n);
      headerFlags := header.flags;
      if headerFlags == TH_ACK {
        acknowledgedByte := Ntohl(order, header.ack);
      }
      if received > HEADER_SIZE {
        assert data[..n] == data[..];
        delivered := delivered + [data[..]];
        nextExpectedByte := Add32(nextExpectedByte, n);
        SendAck();
      }
    }

    method ServeNetwork(header: Segment, received: nat)
      requires Valid() && phase != Done && HEADER_SIZE <= received <= BUFFER_SIZE
      requires header.payload == networkBuffer[HEADER_SIZE..received]
      modifies this
      ensures var o := OnNetwork(order, old(Model()), header);
              Valid() && Model() == o.endpoint && sent == old(sent) + o.sent
    {
      hide AcceptData, Htonl;
      AcceptDataFlags(order, Model(), header);
      ServeData(header, received);
      if headerFlags == TH_FIN || headerFlags == TH_FIN + TH_ACK {
        SendAck();
        finSeen := true;
        if connectionState == FinWait1 {
          done, phase := true, Done;
        } else {
          connectionState := FinWait2;
        }
      }
    }

    // Sends the FIN, blocks, and takes whatever arrives for its acknowledgement.
    method ServeClose()
      requires Valid() && phase == Open
      modifies this
      ensures var fin := OnClose(order, old(Model()));
              Valid() && Model() == OnFinAck(fin.endpoint).endpoint && sent == old(sent) + fin.sent
    {
      hide Htonl;
      Send(Segment(TH_FIN, Htonl(order, sequenceNumber), Htonl(order, nextExpectedByte), []));
      finSent := true;
      if connectionState == FinWait2 {
        done, phase := true, Done;
      } else {
        connectionState := FinWait1;
      }
    }

    method Receive(s: Segment) returns (received: nat)
      requires Valid() && |s.payload| <= STCP_MSS
      modifies networkBuffer
      ensures Valid() && HEADER_SIZE <= received <= BUFFER_SIZE && s.payload == networkBuffer[HEADER_SIZE..received]
    {
      received := HEADER_SIZE + |s.payload|;
      forall i | 0 <= i < |s.payload| {
        networkBuffer[HEADER_SIZE + i] := s.payload[i];
      }
    }

    method Iterate(w: Wakeup)
      requires Valid() && phase == Open && Pending(w)
      modifies this, networkBuffer
      ensures var o := Iteration(order, old(Model()), w);
              && Valid() && Model() == o.endpoint && sent == old(sent) + o.sent
              && (phase == Open || phase == Done)
    {
      hide OnAppData, OnNetwork, OnFinAck, Htonl;
      BranchPhases(order, Model(), w);
      if w.data != [] {
        ServeApplication(w.data);
      } else if w.arrived.Some? {
        var received := Receive(w.arrived.value);
        ServeNetwork(w.arrived.value, received);
      } else {
        ServeClose();
      }
    }

    // Runs until the connection is done or the wakeups are used up.
    method ControlLoop(wakeups: seq<Wakeup>)
      requires Valid() && phase == Open && forall w <- wakeups :: Pending(w)
      modifies this, networkBuffer
      ensures var o := Loop(order, old(Model()), wakeups);
              Valid() && Model() == o.endpoint && sent == old(sent) + o.sent
    {
      hide Iteration, Pending;
      var i := 0;
      ghost var before := sent;
      assert wakeups[0..] == wakeups;
      while !done && i < |wakeups|
        invariant 0 <= i <= |wakeups| && Valid() && (phase == Open || phase == Done)
        invariant var o, rest := Loop(order, old(Model()), wakeups), Loop(order, Model(), wakeups[i..]);
                  o.endpoint == rest.endpoint && before + o.sent == sent + rest.sent
      {
        assert wakeups[i..][1..] == wakeups[i + 1..] && wakeups[i..][0] == wakeups[i];
        Iterate(wakeups[i]);
        i := i + 1;
      }
    }
  }

  lemma AcceptDataFlags(order: HostOrder, e: Endpoint, s: Segment)
    ensures AcceptData(order, e, s).endpoint.flags == s.flags
  {
    hide Htonl, Ntohl, Add32, StrNCpy;
  }

  lemma BranchPhases(order: HostOrder, e: Endpoint, w: Wakeup)
    requires e.phase == Open
    ensures OnAppData(order, e, w.data).endpoint.phase == Open
    ensures w.arrived.Some? ==> OnNetwork(order, e, w.arrived.value).endpoint.phase in {Open, Done}
    ensures OnFinAck(OnClose(order, e).endpoint).endpoint.phase in {Open, Done}
  {
    hide Htonl, Ntohl, Add32, StrNCpy;
  }
}
