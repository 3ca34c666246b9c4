// Closing an STCP connection, over whole runs: when an endpoint is done, what that says about its
// peer, and the two ways in which it says less than it should.

module StcpClose {
  import opened Machine
  import opened StcpSpec

  // ---------- One endpoint ----------

  // connection_state records exactly which of the two FINs are accounted for.
  predicate CloseState(e: Endpoint) {
    match e.phase
    case Done => e.finSent && e.finSeen
    case AwaitFinAck => e.finSent && (e.connection == FinWait2 <==> e.finSeen)
    case Open =>
      && (e.connection == FinWait1 <==> e.finSent)
      && (e.connection == FinWait2 <==> e.finSeen)
    case _ => !e.finSent && !e.finSeen && e.connection == Established
  }

  // role handles a close request: an iteration with neither data nor a segment pending.
  predicate ClosesAs(e: Event, role: Role) {
    Closes(e) && e.role == role
  }

  // role takes a FIN, alone or with ACK, from the network in the network branch of the loop.
  predicate ReadsFinAs(s: System, e: Event, role: Role) {
    Reads(e) && e.role == role && Incoming(s, role) != [] && Incoming(s, role)[0].flags in {0x01, 0x11}
  }

  lemma FinFlags(flags: int)
    ensures IsFin(flags) <==> flags in {0x01, 0x11}
  {
  }

  lemma AcceptDataKeeps(order: HostOrder, e: Endpoint, s: Segment)
    ensures var a := AcceptData(order, e, s).endpoint;
            && a.phase == e.phase && a.connection == e.connection
            && a.finSent == e.finSent && a.finSeen == e.finSeen && a.flags == s.flags
    ensures forall k | 0 <= k < |AcceptData(order, e, s).sent| :: AcceptData(order, e, s).sent[k].flags == TH_ACK
  {
    hide StrNCpy, Htonl, Ntohl, Add32;
  }

  lemma CloseStep(order: HostOrder, s: System, e: Event, role: Role)
    requires Enabled(s, e) && CloseState(End(s, role))
    ensures var x, y := End(s, role), End(Step(order, s, e), role);
            && CloseState(y)
            && (y.finSent <==> x.finSent || ClosesAs(e, role))
            && (y.finSeen <==> x.finSeen || ReadsFinAs(s, e, role))
  {
    hide OnNetwork, Htonl, Add32, IsFin;
    if Reads(e) && e.role == role {
      NetworkClose(order, End(s, role), Incoming(s, role)[0]);
      FinFlags(Incoming(s, role)[0].flags);
    }
  }

  lemma NetworkClose(order: HostOrder, e: Endpoint, s: Segment)
    requires CloseState(e) && e.phase == Open
    ensures var o := OnNetwork(order, e, s).endpoint;
            && CloseState(o) && o.finSent == e.finSent
            && (o.finSeen <==> e.finSeen || IsFin(s.flags))
  {
    hide AcceptData, IsFin;
    AcceptDataKeeps(order, e, s);
  }

  lemma {:induction false} CloseRun(order: HostOrder, states: seq<System>, events: seq<Event>, i: nat, role: Role)
    requires IsRun(order, states, events) && i <= |events|
    ensures var x := End(states[i], role);
            && CloseState(x)
            && (x.finSent <==> exists j | 0 <= j < i :: ClosesAs(events[j], role))
            && (x.finSeen <==> exists k | 0 <= k < i :: ReadsFinAs(states[k], events[k], role))
  {
    hide Step, Enabled, ClosesAs, ReadsFinAs;
    if i > 0 {
      CloseRun(order, states, events, i - 1, role);
      assert states[i - 1 + 1] == Step(order, states[i - 1], events[i - 1]);
      CloseStep(order, states[i - 1], events[i - 1], role);
    }
  }

  // In every state of every run an endpoint is done exactly when it has handled a close request
  // with nothing else pending, has taken a FIN from the network in the loop, in either order, and
  // is not blocked in the receive behind its own FIN.
  lemma DoneIff(order: HostOrder, states: seq<System>, events: seq<Event>, i: nat, role: Role)
    requires IsRun(order, states, events) && i <= |events|
    ensures End(states[i], role).phase == Done <==>
            && End(states[i], role).phase != AwaitFinAck
            && (exists j | 0 <= j < i :: ClosesAs(events[j], role))
            && (exists k | 0 <= k < i :: ReadsFinAs(states[k], events[k], role))
  {
    hide Step, Enabled, ClosesAs, ReadsFinAs;
    CloseRun(order, states, events, i, role);
  }

  // ---------- What a FIN says about the peer ----------

  predicate HasFin(channel: seq<Segment>) {
    exists i | 0 <= i < |channel| :: IsFin(channel[i].flags)
  }

  // A FIN travels, or has been seen, only if the peer has closed.
  predicate Genuine(s: System) {
    && (HasFin(s.toServer) || s.server.finSeen ==> s.client.finSent)
    && (HasFin(s.toClient) || s.client.finSeen ==> s.server.finSent)
  }

  // An application writes while the reused Header still holds a received FIN, before it has closed.
  predicate RelaysFin(s: System, e: Event) {
    Writes(e) && IsFin(End(s, e.role).flags) && !End(s, e.role).finSent
  }

  lemma HasFinAppend(x: seq<Segment>, y: seq<Segment>)
    ensures HasFin(x + y) <==> HasFin(x) || HasFin(y)
  {
    hide IsFin;
    var z := x + y;
    assert forall i | 0 <= i < |x| :: z[i] == x[i];
    assert forall i | 0 <= i < |y| :: z[|x| + i] == y[i];
    assert forall i | |x| <= i < |z| :: z[i] == y[i - |x|];
  }

  lemma HasFinRest(x: seq<Segment>)
    requires x != []
    ensures HasFin(x) <==> IsFin(x[0].flags) || HasFin(x[1..])
  {
    hide IsFin;
    HasFinAppend([x[0]], x[1..]);
    assert x == [x[0]] + x[1..];
  }

  lemma SentFins(order: HostOrder, s: System, e: Event)
    requires Enabled(s, e)
    ensures HasFin(Acts(order, s, e).sent) <==>
            Closes(e) || (Writes(e) && IsFin(End(s, e.role).flags))
  {
    hide AcceptData, Htonl, Ntohl, Add32;
    var sent := Acts(order, s, e).sent;
    if Reads(e) {
      AcceptDataKeeps(order, End(s, e.role), Incoming(s, e.role)[0]);
    } else if Closes(e) || Writes(e) {
      assert |sent| == 1 && HasFin(sent) == IsFin(sent[0].flags);
    } else {
      assert |sent| <= 1 && forall k | 0 <= k < |sent| :: !IsFin(sent[k].flags);
    }
  }

  // A step keeps FINs genuine exactly when it does not relay one.
  lemma GenuineStep(order: HostOrder, s: System, e: Event)
    requires Enabled(s, e) && Genuine(s) && CloseState(s.client) && CloseState(s.server)
    ensures Genuine(Step(order, s, e)) <==> !RelaysFin(s, e)
  {
    hide Enabled, Acts, IsFin, HasFin, Taken, CloseState, Closes, Reads, Writes;
    SentFins(order, s, e);
    ActorFins(order, s, e);
    var role := Actor(e);
    var o, channel := Acts(order, s, e), Incoming(s, role);
    HasFinAppend(s.toServer, o.sent);
    HasFinAppend(s.toClient, o.sent);
    TakeFins(s, e);
  }

  lemma ActorFins(order: HostOrder, s: System, e: Event)
    requires Enabled(s, e) && CloseState(End(s, Actor(e)))
    ensures var x, y := End(s, Actor(e)), Acts(order, s, e).endpoint;
            && (y.finSent <==> x.finSent || Closes(e))
            && (y.finSeen <==> x.finSeen || ReadsFinAs(s, e, Actor(e)))
    ensures Closes(e) || Writes(e) ==> e.Wake? && e.role == Actor(e)
    ensures !(Closes(e) && Writes(e)) && Taken(e) <= |Incoming(s, Actor(e))|
  {
    hide IsFin, After;
    CloseStep(order, s, e, Actor(e));
    ActorAfter(s, Actor(e), Acts(order, s, e), Taken(e));
  }

  lemma ActorAfter(s: System, role: Role, o: Outcome, taken: nat)
    requires taken <= |Incoming(s, role)|
    ensures End(After(s, role, o, taken), role) == o.endpoint
  {
  }

  // Taking a segment off a channel removes a FIN from it only by seeing or swallowing it.
  lemma TakeFins(s: System, e: Event)
    requires Taken(e) <= |Incoming(s, Actor(e))|
    ensures var channel := Incoming(s, Actor(e));
            && (HasFin(channel[Taken(e)..]) ==> HasFin(channel))
            && (ReadsFinAs(s, e, Actor(e)) ==> HasFin(channel))
  {
    hide IsFin;
    var channel := Incoming(s, Actor(e));
    if Taken(e) == 1 {
      HasFinRest(channel);
      FinFlags(channel[0].flags);
    } else {
      assert channel[0..] == channel;
    }
  }

  lemma {:induction false} GenuineRun(order: HostOrder, states: seq<System>, events: seq<Event>, i: nat)
    requires IsRun(order, states, events) && i <= |events|
    requires forall j | 0 <= j < i :: !RelaysFin(states[j], events[j])
    ensures Genuine(states[i])
  {
    hide Step, Enabled, IsFin, RelaysFin, CloseState;
    if i > 0 {
      GenuineRun(order, states, events, i - 1);
      assert states[i - 1 + 1] == Step(order, states[i - 1], events[i - 1]);
      CloseRun(order, states, events, i - 1, Client);
      CloseRun(order, states, events, i - 1, Server);
      GenuineStep(order, states[i - 1], events[i - 1]);
    }
  }

  // If no application writes behind a received FIN before closing, an endpoint is done only after
  // both applications have closed.
  lemma DoneMeansBothClosed(order: HostOrder, states: seq<System>, events: seq<Event>, i: nat, role: Role)
    requires IsRun(order, states, events) && i <= |events|
    requires forall j | 0 <= j < i :: !RelaysFin(states[j], events[j])
    requires End(states[i], role).phase == Done
    ensures exists j | 0 <= j < i :: ClosesAs(events[j], Client)
    ensures exists j | 0 <= j < i :: ClosesAs(events[j], Server)
  {
    hide Step, Enabled, IsFin, RelaysFin, ClosesAs, ReadsFinAs;
    GenuineRun(order, states, events, i);
    CloseRun(order, states, events, i, Client);
    CloseRun(order, states, events, i, Server);
  }

  // ---------- Runs ----------

  ghost predicate Leads(order: HostOrder, states: seq<System>, events: seq<Event>, s: System) {
    IsRun(order, states, events) && states[|events|] == s
  }

  ghost predicate Reachable(order: HostOrder, s: System) {
    exists states: seq<System>, events: seq<Event> :: Leads(order, states, events, s)
  }

  lemma ExtendRun(order: HostOrder, states: seq<System>, events: seq<Event>, e: Event)
    requires IsRun(order, states, events) && Enabled(states[|events|], e)
    ensures IsRun(order, states + [Step(order, states[|events|], e)], events + [e])
  {
    hide Step, Enabled, Start;
    var n := |events|;
    var states', events' := states + [Step(order, states[n], e)], events + [e];
    assert states'[0] == states[0];
    forall i | 0 <= i < |events'|
      ensures Enabled(states'[i], events'[i]) && states'[i + 1] == Step(order, states'[i], events'[i])
    {
      if i < n {
        assert states'[i] == states[i] && states'[i + 1] == states[i + 1] && events'[i] == events[i];
      }
    }
  }

  lemma Extend(order: HostOrder, s: System, e: Event)
    requires Reachable(order, s) && Enabled(s, e)
    ensures Reachable(order, Step(order, s, e))
  {
    hide Step, Enabled, IsRun;
    var states: seq<System>, events: seq<Event> :| Leads(order, states, events, s);
    IsRunLength(order, states, events);
    ExtendRun(order, states, events, e);
    var states', events' := states + [Step(order, s, e)], events + [e];
    IsRunLength(order, states', events');
    assert Leads(order, states', events', Step(order, s, e));
  }

  lemma IsRunLength(order: HostOrder, states: seq<System>, events: seq<Event>)
    requires IsRun(order, states, events)
    ensures |states| == |events| + 1
  {
    hide Step, Enabled;
  }

  lemma Started(order: HostOrder)
    ensures Reachable(order, Start(0, 0))
  {
    hide Step, Enabled;
    var states, events: seq<Event> := [Start(0, 0)], [];
    assert Leads(order, states, events, Start(0, 0));
  }

  predicate Fresh(e: Endpoint) {
    e.phase == Open && e.connection == Established && !e.finSent && !e.finSeen && e.flags == 0
  }

  lemma Connected(order: HostOrder) returns (s: System)
    ensures Reachable(order, s) && Fresh(s.client) && Fresh(s.server) && s.toServer == [] && s.toClient == []
  {
    hide Htonl, Ntohl, Add32, Reachable;
    Started(order);
    s := Start(0, 0);
    Extend(order, s, Connect(0));
    s := Step(order, s, Connect(0));
    Extend(order, s, Accept(0));
    s := Step(order, s, Accept(0));
    Extend(order, s, ClientOpens);
    s := Step(order, s, ClientOpens);
    Extend(order, s, ServerOpens);
    s := Step(order, s, ServerOpens);
  }

  const CLIENT_READS := Wake(Client, [], true, false)
  const SERVER_READS := Wake(Server, [], true, false)
  const CLIENT_CLOSES := Wake(Client, [], false, true)
  const SERVER_CLOSES := Wake(Server, [], false, true)

  // The guard is needed: the server closes, the client goes on writing, its data carries the FIN
  // that is left in the reused Header, and the server is done although the client never closed.
  lemma DoneBeforePeerCloses(order: HostOrder) returns (s: System)
    ensures Reachable(order, s) && s.server.phase == Done && !s.client.finSent && s.client.phase == Open
  {
    hide Htonl, Ntohl, Add32, Reachable, StrNCpy;
    s := Connected(order);
    Extend(order, s, SERVER_CLOSES);
    s := Step(order, s, SERVER_CLOSES);
    Extend(order, s, CLIENT_READS);
    s := Step(order, s, CLIENT_READS);
    Extend(order, s, FinAck(Server));
    s := Step(order, s, FinAck(Server));
    Extend(order, s, Wake(Client, [1], false, false));
    s := Step(order, s, Wake(Client, [1], false, false));
    Extend(order, s, SERVER_READS);
    s := Step(order, s, SERVER_READS);
  }

  // ---------- Simultaneous close ----------

  // Both ends have sent their FIN and wait for the other's, and no FIN is left to arrive.
  predicate Stuck(s: System) {
    && s.client.phase == Open && s.server.phase == Open
    && s.client.connection == FinWait1 && s.server.connection == FinWait1
    && !IsFin(s.client.flags) && !IsFin(s.server.flags)
    && !HasFin(s.toServer) && !HasFin(s.toClient)
  }

  // Each end takes the other's FIN for the acknowledgement of its own.
  lemma SimultaneousClose(order: HostOrder) returns (s: System)
    ensures Reachable(order, s) && Stuck(s)
  {
    hide Htonl, Ntohl, Add32, Reachable;
    s := Connected(order);
    Extend(order, s, CLIENT_CLOSES);
    s := Step(order, s, CLIENT_CLOSES);
    Extend(order, s, SERVER_CLOSES);
    s := Step(order, s, SERVER_CLOSES);
    Extend(order, s, FinAck(Client));
    s := Step(order, s, FinAck(Client));
    Extend(order, s, FinAck(Server));
    s := Step(order, s, FinAck(Server));
  }

  lemma StuckStep(order: HostOrder, s: System, e: Event)
    requires Stuck(s) && Enabled(s, e) && !Closes(e)
    ensures Stuck(Step(order, s, e))
  {
    hide OnAppData, OnNetwork, IsFin, HasFin;
    SentFins(order, s, e);
    var o, channel := Acts(order, s, e), Incoming(s, e.role);
    HasFinAppend(s.toServer, o.sent);
    HasFinAppend(s.toClient, o.sent);
    if Writes(e) {
      WriteKeepsState(order, End(s, e.role), e.data);
      assert channel[0..] == channel;
    } else {
      HasFinRest(channel);
      OpenRead(order, End(s, e.role), channel[0]);
    }
  }

  lemma WriteKeepsState(order: HostOrder, e: Endpoint, data: seq<byte>)
    ensures var o := OnAppData(order, e, data).endpoint;
            o.phase == e.phase && o.connection == e.connection && o.flags == e.flags
  {
    hide Htonl, Add32;
  }

  lemma OpenRead(order: HostOrder, e: Endpoint, s: Segment)
    requires !IsFin(s.flags)
    ensures var o := OnNetwork(order, e, s).endpoint;
            o.phase == e.phase && o.connection == e.connection && !IsFin(o.flags)
  {
    hide AcceptData, IsFin;
    AcceptDataKeeps(order, e, s);
  }

  // From then on, whatever is written and read, neither end is ever done unless one of the
  // applications asks to close again.
  lemma {:induction false} NeverDone(order: HostOrder, states: seq<System>, events: seq<Event>, from: nat, i: nat)
    requires IsRun(order, states, events) && from <= i <= |events|
    requires Stuck(states[from]) && forall j | from <= j < i :: !Closes(events[j])
    ensures Stuck(states[i]) && states[i].client.phase != Done && states[i].server.phase != Done
    decreases i
  {
    hide Step, Enabled, Closes, IsFin, HasFin;
    if i > from {
      NeverDone(order, states, events, from, i - 1);
      assert states[i - 1 + 1] == Step(order, states[i - 1], events[i - 1]);
      StuckStep(order, states[i - 1], events[i - 1]);
    }
  }
}
