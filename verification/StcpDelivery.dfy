// What every run of the data phase guarantees to the applications and to the counters.

module StcpDelivery {
  import opened Machine
  import opened StcpSpec
  import opened StcpData
  import opened StcpInvariant

  // ---------- strncpy ----------

  // No data behind the first NUL.
  predicate Copyable(p: seq<byte>) {
    forall i, j | 0 <= i < j < |p| && p[i] == 0 :: p[j] == 0
  }

  // Byte by byte: the payload up to the first NUL, and NULs from there on.
  lemma {:induction false} CopiedByte(p: seq<byte>, i: nat)
    requires i < |p|
    ensures StrNCpy(p)[i] == if exists j | 0 <= j <= i :: p[j] == 0 then 0 else p[i]
  {
    if p[0] != 0 && i > 0 {
      CopiedByte(p[1..], i - 1);
      assert forall j | 1 <= j <= i :: p[j] == p[1..][j - 1];
      assert forall j | 0 <= j <= i - 1 :: p[1..][j] == p[j + 1];
    }
  }

  // Copying as a string keeps the payload exactly when nothing follows its first NUL.
  lemma {:induction false} CopyableIff(p: seq<byte>)
    ensures StrNCpy(p) == p <==> Copyable(p)
  {
    if p != [] {
      if p[0] == 0 {
        var z := StrNCpy(p);
        assert forall j | 0 <= j < |p| :: z[j] == 0;
      } else {
        CopyableIff(p[1..]);
        assert StrNCpy(p) == p <==> StrNCpy(p[1..]) == p[1..];
        assert forall i | 1 <= i < |p| :: p[i] == p[1..][i - 1];
      }
    }
  }

  lemma {:induction false} FlattenConcat(x: seq<seq<byte>>, y: seq<seq<byte>>)
    ensures Flatten(x + y) == Flatten(x) + Flatten(y)
  {
    if x == [] {
      assert x + y == y;
    } else {
      assert (x + y)[1..] == x[1..] + y;
      FlattenConcat(x[1..], y);
    }
  }

  lemma {:induction false} FlattenCopied(chunks: seq<seq<byte>>)
    ensures |Flatten(CopyAll(chunks))| == |Flatten(chunks)|
    ensures Flatten(CopyAll(chunks)) == Flatten(chunks) <==> forall i | 0 <= i < |chunks| :: Copyable(chunks[i])
  {
    hide StrNCpy, Copyable;
    if chunks != [] {
      var c, rest := chunks[0], chunks[1..];
      assert CopyAll(chunks)[1..] == CopyAll(rest);
      FlattenCopied(rest);
      CopyableIff(c);
      var x, y := Flatten(CopyAll(chunks)), Flatten(chunks);
      assert x[..|c|] == StrNCpy(c) && x[|c|..] == Flatten(CopyAll(rest));
      assert y[..|c|] == c && y[|c|..] == Flatten(rest);
      assert x == y <==> x[..|c|] == y[..|c|] && x[|c|..] == y[|c|..];
      assert forall i | 1 <= i < |chunks| :: chunks[i] == rest[i - 1];
      assert (forall i | 0 <= i < |chunks| :: Copyable(chunks[i])) <==>
             Copyable(c) && forall i | 0 <= i < |rest| :: Copyable(rest[i]);
    }
  }

  // The delivered stream is a prefix of the written one exactly when every delivered chunk survives
  // the copy.
  lemma PrefixIff(written: seq<seq<byte>>, delivered: seq<seq<byte>>, channel: seq<Segment>)
    requires Flow(written, delivered, channel)
    ensures Flatten(delivered) <= Flatten(written) <==> forall i | 0 <= i < |delivered| :: Copyable(written[i])
  {
    hide StrNCpy, Copyable, DataOf;
    var k := |delivered|;
    assert written == written[..k] + written[k..];
    FlattenConcat(written[..k], written[k..]);
    FlattenCopied(written[..k]);
    assert forall i | 0 <= i < k :: written[..k][i] == written[i];
  }

  // ---------- Theorems on runs ----------

  // What the server expects next, or will once it has read the last segment of the handshake.
  function ServerExpects(s: System): uint32 {
    if s.server.phase == Open then s.server.expected else s.server.handshake.ack
  }

  lemma ClientSide(order: HostOrder, s: System)
    requires Inv(order, s) && s.client.phase == Open
    ensures var u := if s.server.phase == Open then s else Opened(s);
            && BothOpen(order, u)
            && u.client == s.client && u.server.delivered == s.server.delivered && u.server.written == s.server.written
            && u.server.expected == ServerExpects(s) && u.server.handshake == s.server.handshake
            && DataOf(u.toServer) == DataOf(s.toServer) && u.toClient == s.toClient
  {
    hide BothOpen, IsFin, FromRandom, NoFin;
    if s.server.phase != Open {
      assert DataOf(s.toServer) == [] + DataOf(s.toServer[1..]);
    }
  }

  // From the moment the client opens, in every state: its SequenceNumber is what the server expects
  // next plus the bytes in flight, modulo 2^32.
  lemma SequenceAccounting(order: HostOrder, states: seq<System>, events: seq<Event>, i: nat)
    requires DataRun(order, states, events) && i <= |events| && states[i].client.phase == Open
    ensures var s := states[i];
            s.client.sequence == Add32(ServerExpects(s), Total(DataOf(s.toServer)))
  {
    hide Step, Enabled, Closes, Half, AckChain, FromRandom, NoFin, IsFin, Add32, DataOf, Total;
    RunKeeps(order, states, events, i);
    ClientSide(order, states[i]);
    var u := if states[i].server.phase == Open then states[i] else Opened(states[i]);
    ForwardCounts(u.client, u.server, u.toServer, Base(u));
  }

  lemma ForwardCounts(x: Endpoint, y: Endpoint, channel: seq<Segment>, base: uint32)
    requires Half(x, y, channel, base, base)
    ensures x.sequence == Add32(y.expected, Total(DataOf(channel)))
  {
    hide Flow, NoFin, Add32;
    HalfAccounts(x, y, channel, base, base);
    Add32Twice(base, Total(y.delivered), Total(DataOf(channel)));
  }

  // In the other direction the server started from a number it never received: its SequenceNumber
  // and the client's NextExpectedByte plus the bytes in flight differ by the reverse base, which is
  // fixed by the handshake and never 0, so the forward relation never holds.
  lemma ReverseOffset(order: HostOrder, states: seq<System>, events: seq<Event>, i: nat)
    requires DataRun(order, states, events) && i <= |events|
    requires states[i].client.phase == Open && states[i].server.phase == Open
    ensures var s := states[i];
            && Add32(s.client.expected, Total(DataOf(s.toClient))) == Add32(s.server.sequence, ReverseBase(s))
            && ReverseBase(s) != 0
            && s.server.sequence != Add32(s.client.expected, Total(DataOf(s.toClient)))
  {
    hide Step, Enabled, Closes, AckChain, IsFin, Add32, DataOf, Total, FromRandom, Half, NoFin;
    RunKeeps(order, states, events, i);
    var s := states[i];
    ReverseCounts(s.server, s.client, s.toClient, ReverseBase(s));
    ReverseBasePositive(order, s.server.handshake.seqno);
    OffsetDiffers(s.server.sequence, ReverseBase(s));
  }

  // The constant is settled once the server has answered the SYN.
  lemma {:induction false} ReverseBaseFixed(order: HostOrder, states: seq<System>, events: seq<Event>, i: nat, j: nat)
    requires IsRun(order, states, events) && i <= j <= |events| && states[i].server.phase != ServerWaitSyn
    ensures ReverseBase(states[j]) == ReverseBase(states[i]) && states[j].server.phase != ServerWaitSyn
    decreases j
  {
    hide Step, Enabled;
    if j > i {
      ReverseBaseFixed(order, states, events, i, j - 1);
      assert states[j - 1 + 1] == Step(order, states[j - 1], events[j - 1]);
      HandshakeStep(order, states[j - 1], events[j - 1]);
    }
  }

  lemma HandshakeStep(order: HostOrder, s: System, e: Event)
    requires Enabled(s, e) && s.server.phase != ServerWaitSyn
    ensures var t := Step(order, s, e);
            t.server.phase != ServerWaitSyn && t.server.handshake == s.server.handshake
  {
    hide OnNetwork, IsFin, Htonl, Add32;
    if e.Wake? && Incoming(s, e.role) != [] {
      HandshakeKept(order, End(s, e.role), Incoming(s, e.role)[0]);
      PhaseKept(order, End(s, e.role), Incoming(s, e.role)[0]);
    }
  }

  lemma PhaseKept(order: HostOrder, e: Endpoint, s: Segment)
    ensures OnNetwork(order, e, s).endpoint.phase in {e.phase, Done}
  {
    hide Htonl, Ntohl, Add32, StrNCpy, IsFin;
  }

  lemma ReverseCounts(x: Endpoint, y: Endpoint, channel: seq<Segment>, to: uint32)
    requires Half(x, y, channel, 0, to)
    ensures Add32(y.expected, Total(DataOf(channel))) == Add32(x.sequence, to)
  {
    hide Flow, NoFin, Add32;
    HalfAccounts(x, y, channel, 0, to);
    Add32Zero(Add32(y.expected, Total(DataOf(channel))));
  }

  lemma ReverseBasePositive(order: HostOrder, seqno: uint32)
    requires FromRandom(order, seqno)
    ensures Add32(seqno, 1) != 0
  {
    hide Join32, Byte32;
    var k: uint32 :| k < 0x100 && seqno == Htonl(order, k);
    SmallSwapped(k);
  }

  lemma SmallSwapped(k: uint32)
    requires k < 0x100
    ensures Swap32(k) <= 0xFF00_0000
  {
    assert Byte32(k, 0) == 0 && Byte32(k, 1) == 0 && Byte32(k, 2) == 0;
  }

  lemma OffsetDiffers(x: uint32, n: uint32)
    requires n != 0
    ensures Add32(x, n) != x
  {
  }

  // The client's AcknowledgedByte is the server's base plus a count of bytes, not modulo anything:
  // along the run the counts start at -1, never go down, and never pass what the server has delivered,
  // which is what its NextExpectedByte counts.
  lemma AcknowledgedNeverPasses(order: HostOrder, states: seq<System>, events: seq<Event>) returns (counts: seq<int>)
    requires DataRun(order, states, events)
    ensures |counts| == |states| && counts[0] == -1
    ensures forall i | 0 <= i < |events| :: counts[i] <= counts[i + 1]
    ensures forall i | 0 <= i <= |events| && states[i].client.phase == Open :: AckCount(states[i], counts[i])
  {
    hide Step, Enabled, Closes, Counted, IsFin, AckCount;
    counts := RunCounts(order, states, events, |events|);
    StartCount(order, states[0], counts[0]);
    forall i | 0 <= i <= |events| && states[i].client.phase == Open ensures AckCount(states[i], counts[i]) {
      RunKeeps(order, states, events, i);
      CountOf(order, states[i], counts[i]);
    }
  }

  predicate AckCount(s: System, count: int) {
    && -1 <= count <= Total(s.server.delivered)
    && s.client.acknowledged == Add32(s.server.handshake.ack, count)
    && ServerExpects(s) == Add32(s.server.handshake.ack, Total(s.server.delivered))
  }

  lemma StartCount(order: HostOrder, s: System, count: int)
    requires exists clientJunk: int, serverJunk: int :: s == Start(clientJunk, serverJunk)
    requires Counted(order, s, count)
    ensures count == -1
  {
  }

  lemma CountOf(order: HostOrder, s: System, count: int)
    requires Inv(order, s) && Counted(order, s, count) && s.client.phase == Open
    ensures AckCount(s, count)
  {
    hide FromRandom, NoFin, IsFin, Add32, DataOf, Total, Half, AckChain;
    ClientSide(order, s);
    var u := if s.server.phase == Open then s else Opened(s);
    assert Completed(s) == u;
    AckTailBound(order, u.toClient, Base(u), count, Total(u.server.delivered));
    ExpectedIs(u.client, u.server, u.toServer, Base(u), Base(u));
  }

  // Reliable delivery: in both directions the application is given the copies of the first chunks
  // written, the others are in flight in order, the streams are prefixes exactly when the chunks
  // survive strncpy, and no segment carries a FIN.
  lemma ReliableDelivery(order: HostOrder, states: seq<System>, events: seq<Event>, i: nat)
    requires DataRun(order, states, events) && i <= |events|
    ensures var s := states[i];
            && NoFin(s.toServer) && NoFin(s.toClient)
            && |s.server.delivered| <= |s.client.written| && |s.client.delivered| <= |s.server.written|
            && s.server.delivered == CopyAll(s.client.written[..|s.server.delivered|])
            && s.client.delivered == CopyAll(s.server.written[..|s.client.delivered|])
            && (Flatten(s.server.delivered) <= Flatten(s.client.written) <==>
                forall j | 0 <= j < |s.server.delivered| :: Copyable(s.client.written[j]))
            && (Flatten(s.client.delivered) <= Flatten(s.server.written) <==>
                forall j | 0 <= j < |s.client.delivered| :: Copyable(s.server.written[j]))
            && (s.client.phase == Open ==> DataOf(s.toServer) == s.client.written[|s.server.delivered|..])
            && (s.client.phase == Open ==> DataOf(s.toClient) == s.server.written[|s.client.delivered|..])
  {
    hide Step, Enabled, Closes, IsFin, Add32, DataOf, AckChain, FromRandom, Copyable, NoFin;
    RunKeeps(order, states, events, i);
    var s := states[i];
    if s.client.phase == Open {
      ClientSide(order, s);
      var u := if s.server.phase == Open then s else Opened(s);
      PrefixIff(u.client.written, u.server.delivered, u.toServer);
      PrefixIff(u.server.written, u.client.delivered, u.toClient);
    } else {
      assert Flatten([]) == [];
    }
  }
}
