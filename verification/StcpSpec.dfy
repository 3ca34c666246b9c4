// The STCP endpoint of transport.c as functions: the handshake, the branches of control_loop, and a
// system of two endpoints joined by two reliable first-in first-out channels.

module StcpSpec {
  import opened Machine

  const TH_FIN := 0x01
  const TH_SYN := 0x02
  const TH_ACK := 0x10
  const STCP_MSS := 536

  // ---------- Wire values ----------

  function Add32(x: uint32, n: int): uint32 {
    (x as int + n) % 0x1_0000_0000
  }

  function Byte32(x: uint32, i: nat): byte
    requires i < 4
  {
    if i == 0 then x / 0x100_0000 % 0x100
    else if i == 1 then x / 0x1_0000 % 0x100
    else if i == 2 then x / 0x100 % 0x100
    else x % 0x100
  }

  function Join32(a: byte, b: byte, c: byte, d: byte): uint32 {
    0x100_0000 * a as int + 0x1_0000 * b as int + 0x100 * c as int + d as int
  }

  function Swap32(x: uint32): uint32 {
    Join32(Byte32(x, 3), Byte32(x, 2), Byte32(x, 1), Byte32(x, 0))
  }

  function Htonl(order: HostOrder, x: uint32): uint32 {
    if order.LittleEndian? then Swap32(x) else x
  }

  function Ntohl(order: HostOrder, x: uint32): uint32 {
    if order.LittleEndian? then Swap32(x) else x
  }

  lemma LowByte(high: nat, low: byte)
    ensures (0x100 * high + low as int) / 0x100 == high && (0x100 * high + low as int) % 0x100 == low
  {
  }

  lemma BytesOfJoin(a: byte, b: byte, c: byte, d: byte)
    ensures var x := Join32(a, b, c, d);
            Byte32(x, 0) == a && Byte32(x, 1) == b && Byte32(x, 2) == c && Byte32(x, 3) == d
  {
    var x := Join32(a, b, c, d);
    var h := 0x1_0000 * a as int + 0x100 * b as int + c as int;
    var g := 0x100 * a as int + b as int;
    LowByte(h, d);
    LowByte(g, c);
    LowByte(a, b);
    assert x / 0x100 == h && x / 0x1_0000 == g && x / 0x100_0000 == a;
  }

  lemma DivideByBytes(x: nat)
    ensures x / 0x1_0000 == x / 0x100 / 0x100
    ensures x / 0x100_0000 == x / 0x100 / 0x100 / 0x100
  {
  }

  lemma ThreeSplits(x: nat, h: nat, g: nat, f: nat)
    requires h == x / 0x100 && g == h / 0x100 && f == g / 0x100
    ensures 0x100_0000 * f + 0x1_0000 * (g % 0x100) + 0x100 * (h % 0x100) + x % 0x100 == x
  {
    assert x == 0x100 * h + x % 0x100;
    assert h == 0x100 * g + h % 0x100;
    assert g == 0x100 * f + g % 0x100;
  }

  lemma ByteValues(x: uint32)
    ensures Byte32(x, 3) as int == x % 0x100 && Byte32(x, 2) as int == x / 0x100 % 0x100
    ensures Byte32(x, 1) as int == x / 0x100 / 0x100 % 0x100
    ensures Byte32(x, 0) as int == x / 0x100 / 0x100 / 0x100
  {
    DivideByBytes(x);
    FirstByte(x);
  }

  lemma FirstByte(x: uint32)
    ensures x / 0x100_0000 < 0x100
  {
  }

  lemma JoinOfBytes(x: uint32)
    ensures Join32(Byte32(x, 0), Byte32(x, 1), Byte32(x, 2), Byte32(x, 3)) == x
  {
    hide Byte32;
    ByteValues(x);
    var h := x / 0x100;
    var g := h / 0x100;
    ThreeSplits(x, h, g, g / 0x100);
  }

  lemma NtohlHtonl(order: HostOrder, x: uint32)
    ensures Ntohl(order, Htonl(order, x)) == x
  {
    hide Byte32, Join32;
    BytesOfJoin(Byte32(x, 3), Byte32(x, 2), Byte32(x, 1), Byte32(x, 0));
    JoinOfBytes(x);
  }

  // ---------- Endpoints ----------

  // The header fields the endpoints act on, as they stand in memory, and the data behind them.
  datatype Segment = Segment(flags: int, seqno: uint32, ack: uint32, payload: seq<byte>)

  datatype Phase = ClientStart | ClientWait | ServerWaitSyn | ServerWaitAck | Open | AwaitFinAck | Done

  // ctx->connection_state.
  datatype Connection = Established | FinWait1 | FinWait2

  // The globals AcknowledgedByte, NextExpectedByte and SequenceNumber, the flags left in the local
  // Header, the header D of the server's handshake, and the history of what the application wrote
  // and was given and of the FINs sent and seen.
  datatype Endpoint = Endpoint(phase: Phase, connection: Connection, acknowledged: uint32, expected: uint32,
                               sequence: uint32, flags: int, handshake: Segment,
                               written: seq<seq<byte>>, delivered: seq<seq<byte>>, finSent: bool, finSeen: bool)

  const NO_SEGMENT := Segment(0, 0, 0, [])

  // The uninitialised flags of the local Header come in as junk.
  function NewEndpoint(phase: Phase, junk: int): Endpoint {
    Endpoint(phase, Established, 0, 0, 0, junk, NO_SEGMENT, [], [], false, false)
  }

  datatype Outcome = Outcome(endpoint: Endpoint, sent: seq<Segment>)

  // ---------- Handshake ----------

  function SendSyn(order: HostOrder, e: Endpoint, random: nat): Outcome {
    Outcome(e.(phase := ClientWait), [Segment(TH_SYN, Htonl(order, random % 0x100), 0, [])])
  }

  function ReceiveSyn(order: HostOrder, e: Endpoint, c: Segment, random: nat): Outcome {
    var d := Segment(TH_ACK + TH_SYN, Htonl(order, (random + 20) % 0x100), Add32(c.seqno, 1), []);
    Outcome(e.(phase := ServerWaitAck, handshake := d), [d])
  }

  function ReceiveSynAck(e: Endpoint, b: Segment): Outcome {
    var reply := Segment(TH_ACK, b.ack, Add32(b.seqno, 1), []);
    Outcome(e.(phase := Open, acknowledged := Add32(b.ack, -1), sequence := b.ack, expected := reply.ack), [reply])
  }

  // The server takes its sequence number from its own E, which it never received: zero.
  function ReceiveHandshakeAck(e: Endpoint): Outcome {
    Outcome(e.(phase := Open, acknowledged := e.handshake.seqno, sequence := 0, expected := e.handshake.ack), [])
  }

  // ---------- The branches of control_loop ----------

  // strncpy of the whole payload: everything behind the first NUL becomes NUL.
  function StrNCpy(p: seq<byte>): (r: seq<byte>)
    ensures |r| == |p|
  {
    if p == [] then []
    else if p[0] == 0 then seq(|p|, _ => 0)
    else [p[0]] + StrNCpy(p[1..])
  }

  predicate IsFin(flags: int) {
    flags == TH_FIN || flags == TH_FIN + TH_ACK
  }

  function PlainAck(order: HostOrder, e: Endpoint): Segment {
    Segment(TH_ACK, Htonl(order, e.sequence), Htonl(order, e.expected), [])
  }

  function OnAppData(order: HostOrder, e: Endpoint, data: seq<byte>): Outcome {
    Outcome(e.(sequence := Add32(e.sequence, |data|), written := e.written + [data]),
            [Segment(e.flags, Htonl(order, e.sequence), Htonl(order, e.expected), data)])
  }

  // Acknowledgement and data of an arriving segment; the header flags are kept.
  function AcceptData(order: HostOrder, e: Endpoint, s: Segment): Outcome {
    var a := e.(flags := s.flags,
                acknowledged := if s.flags == TH_ACK then Ntohl(order, s.ack) else e.acknowledged);
    if s.payload == [] then Outcome(a, [])
    else
      var b := a.(expected := Add32(a.expected, |s.payload|), delivered := a.delivered + [StrNCpy(s.payload)]);
      Outcome(b, [PlainAck(order, b)])
  }

  function OnNetwork(order: HostOrder, e: Endpoint, s: Segment): Outcome {
    var Outcome(a, sent) := AcceptData(order, e, s);
    if IsFin(s.flags) then
      Outcome(if a.connection == FinWait1 then a.(phase := Done, finSeen := true)
              else a.(connection := FinWait2, finSeen := true),
              sent + [PlainAck(order, a)])
    else Outcome(a, sent)
  }

  // Sends the FIN and blocks in stcp_network_recv.
  function OnClose(order: HostOrder, e: Endpoint): Outcome {
    Outcome(e.(phase := AwaitFinAck, finSent := true),
            [Segment(TH_FIN, Htonl(order, e.sequence), Htonl(order, e.expected), [])])
  }

  // Whatever segment comes next is taken for the acknowledgement of the FIN.
  function OnFinAck(e: Endpoint): Outcome {
    Outcome(if e.connection == FinWait2 then e.(phase := Done) else e.(phase := Open, connection := FinWait1), [])
  }

  // The branch taken in an iteration: application data first, then a segment, then a close request.
  function OnWake(order: HostOrder, e: Endpoint, data: seq<byte>, arrived: Option<Segment>): Outcome {
    if data != [] then OnAppData(order, e, data)
    else if arrived.Some? then OnNetwork(order, e, arrived.value)
    else OnClose(order, e)
  }

  // ---------- Two endpoints and two channels ----------

  datatype System = System(client: Endpoint, server: Endpoint, toServer: seq<Segment>, toClient: seq<Segment>)

  datatype Role = Client | Server

  // One iteration of control_loop is woken with the events that are pending: data from the
  // application, a segment from the network, a close request.
  datatype Event =
    | Connect(random: nat)
    | Accept(random: nat)
    | ClientOpens
    | ServerOpens
    | Wake(role: Role, data: seq<byte>, network: bool, close: bool)
    | FinAck(role: Role)

  function End(s: System, role: Role): Endpoint {
    if role.Client? then s.client else s.server
  }

  function Incoming(s: System, role: Role): seq<Segment> {
    if role.Client? then s.toClient else s.toServer
  }

  // Endpoint and channels after an outcome; taken is the number of incoming segments consumed.
  function After(s: System, role: Role, o: Outcome, taken: nat): System
    requires taken <= |Incoming(s, role)|
  {
    if role.Client? then System(o.endpoint, s.server, s.toServer + o.sent, s.toClient[taken..])
    else System(s.client, o.endpoint, s.toServer[taken..], s.toClient + o.sent)
  }

  predicate Enabled(s: System, e: Event) {
    match e
    case Connect(_) => s.client.phase == ClientStart
    case Accept(_) => s.server.phase == ServerWaitSyn && s.toServer != []
    case ClientOpens => s.client.phase == ClientWait && s.toClient != []
    case ServerOpens => s.server.phase == ServerWaitAck && s.toServer != []
    case Wake(role, data, network, close) =>
      && End(s, role).phase == Open && |data| <= STCP_MSS
      && (network ==> Incoming(s, role) != []) && (data != [] || network || close)
    case FinAck(role) => End(s, role).phase == AwaitFinAck && Incoming(s, role) != []
  }

  // Which branch of the loop serves an event.
  predicate Writes(e: Event) { e.Wake? && e.data != [] }

  predicate Reads(e: Event) { e.Wake? && e.data == [] && e.network }

  predicate Closes(e: Event) { e.Wake? && e.data == [] && !e.network && e.close }

  // The endpoint that takes part in an event.
  function Actor(e: Event): Role {
    match e
    case Connect(_) => Client
    case Accept(_) => Server
    case ClientOpens => Client
    case ServerOpens => Server
    case Wake(role, _, _, _) => role
    case FinAck(role) => role
  }

  // What it does.
  function Acts(order: HostOrder, s: System, e: Event): Outcome
    requires Enabled(s, e)
  {
    match e
    case Connect(random) => SendSyn(order, s.client, random)
    case Accept(random) => ReceiveSyn(order, s.server, s.toServer[0], random)
    case ClientOpens => ReceiveSynAck(s.client, s.toClient[0])
    case ServerOpens => ReceiveHandshakeAck(s.server)
    case Wake(role, data, network, close) =>
      OnWake(order, End(s, role), data, if network then Some(Incoming(s, role)[0]) else None)
    case FinAck(role) => OnFinAck(End(s, role))
  }

  // The number of segments it takes from its channel.
  function Taken(e: Event): nat {
    match e
    case Connect(_) => 0
    case Wake(_, data, network, _) => if data == [] && network then 1 else 0
    case _ => 1
  }

  function Step(order: HostOrder, s: System, e: Event): System
    requires Enabled(s, e)
  {
    After(s, Actor(e), Acts(order, s, e), Taken(e))
  }

  function Start(clientJunk: int, serverJunk: int): System {
    System(NewEndpoint(ClientStart, clientJunk), NewEndpoint(ServerWaitSyn, serverJunk), [], [])
  }

  // A run: the states passed through and the events between them, each enabled when it happens.
  ghost predicate IsRun(order: HostOrder, states: seq<System>, events: seq<Event>) {
    && |states| == |events| + 1
    && (exists clientJunk: int, serverJunk: int :: states[0] == Start(clientJunk, serverJunk))
    && forall i | 0 <= i < |events| ::
        Enabled(states[i], events[i]) && states[i + 1] == Step(order, states[i], events[i])
  }
}
