// The data phase of an STCP connection: what is delivered, how the sequence counters relate, and
// which flags travel, in every run before either side handles a close request.

module StcpData {
  import opened Machine
  import opened StcpSpec

  // ---------- Streams ----------

  function Flatten(chunks: seq<seq<byte>>): seq<byte> {
    if chunks == [] then [] else chunks[0] + Flatten(chunks[1..])
  }

  function Total(chunks: seq<seq<byte>>): nat {
    if chunks == [] then 0 else |chunks[0]| + Total(chunks[1..])
  }

  function CopyAll(chunks: seq<seq<byte>>): (r: seq<seq<byte>>)
    ensures |r| == |chunks| && forall i | 0 <= i < |chunks| :: r[i] == StrNCpy(chunks[i])
  {
    seq(|chunks|, i requires 0 <= i < |chunks| => StrNCpy(chunks[i]))
  }

  // The data carried by the segments of a channel.
  function DataOf(channel: seq<Segment>): seq<seq<byte>> {
    if channel == [] then []
    else (if channel[0].payload == [] then [] else [channel[0].payload]) + DataOf(channel[1..])
  }

  lemma {:induction false} DataAppend(channel: seq<Segment>, s: Segment)
    ensures DataOf(channel + [s]) == DataOf(channel) + if s.payload == [] then [] else [s.payload]
  {
    if channel == [] {
      assert [] + [s] == [s] && [s][1..] == [];
    } else {
      assert (channel + [s])[1..] == channel[1..] + [s];
      DataAppend(channel[1..], s);
    }
  }

  lemma {:induction false} TotalAppend(chunks: seq<seq<byte>>, c: seq<byte>)
    ensures Total(chunks + [c]) == Total(chunks) + |c|
  {
    if chunks == [] {
      assert [] + [c] == [c] && [c][1..] == [];
    } else {
      assert (chunks + [c])[1..] == chunks[1..] + [c];
      TotalAppend(chunks[1..], c);
    }
  }

  lemma {:induction false} TotalConcat(x: seq<seq<byte>>, y: seq<seq<byte>>)
    ensures Total(x + y) == Total(x) + Total(y)
  {
    if x == [] {
      assert x + y == y;
    } else {
      assert (x + y)[1..] == x[1..] + y;
      TotalConcat(x[1..], y);
    }
  }

  lemma {:induction false} TotalCopied(chunks: seq<seq<byte>>)
    ensures Total(CopyAll(chunks)) == Total(chunks)
  {
    if chunks != [] {
      assert CopyAll(chunks)[1..] == CopyAll(chunks[1..]);
      TotalCopied(chunks[1..]);
    }
  }

  // ---------- One direction ----------

  // The receiver was given the copies of a first part of what the sender wrote; the channel carries
  // the rest, chunk by chunk.
  predicate Flow(written: seq<seq<byte>>, delivered: seq<seq<byte>>, channel: seq<Segment>) {
    && |delivered| <= |written|
    && delivered == CopyAll(written[..|delivered|])
    && DataOf(channel) == written[|delivered|..]
    && forall i | 0 <= i < |written| :: written[i] != []
  }

  predicate NoFin(channel: seq<Segment>) {
    forall i | 0 <= i < |channel| :: !IsFin(channel[i].flags)
  }

  // x sends to y: counters count bytes from their bases, and no segment carries a FIN.
  predicate Half(x: Endpoint, y: Endpoint, channel: seq<Segment>, from: uint32, to: uint32) {
    && x.sequence == Add32(from, Total(x.written))
    && y.expected == Add32(to, Total(y.delivered))
    && Flow(x.written, y.delivered, channel)
    && NoFin(channel)
  }

  lemma Add32Twice(x: uint32, m: int, n: int)
    ensures Add32(Add32(x, m), n) == Add32(x, m + n)
  {
    AddMod(x as int + m, n);
  }

  lemma AddMod(x: int, n: int)
    ensures (x % 0x1_0000_0000 + n) % 0x1_0000_0000 == (x + n) % 0x1_0000_0000
  {
  }

  lemma HalfWrite(order: HostOrder, x: Endpoint, y: Endpoint, channel: seq<Segment>, from: uint32, to: uint32,
                  data: seq<byte>)
    requires Half(x, y, channel, from, to) && !IsFin(x.flags) && data != []
    ensures var o := OnAppData(order, x, data);
            Half(o.endpoint, y, channel + o.sent, from, to)
  {
    hide Total, DataOf, CopyAll, Htonl, Add32, IsFin;
    var o := OnAppData(order, x, data);
    DataAppend(channel, o.sent[0]);
    TotalAppend(x.written, data);
    Add32Twice(from, Total(x.written), |data|);
    var w := x.written + [data];
    assert w[..|y.delivered|] == x.written[..|y.delivered|];
    assert w[|y.delivered|..] == x.written[|y.delivered|..] + [data];
  }

  // An acknowledgement without data changes nothing in the direction it travels.
  lemma HalfControl(x: Endpoint, y: Endpoint, channel: seq<Segment>, from: uint32, to: uint32, s: Segment)
    requires Half(x, y, channel, from, to) && s.payload == [] && !IsFin(s.flags)
    ensures Half(x, y, channel + [s], from, to)
  {
    hide Total, DataOf, CopyAll, Add32, IsFin;
    DataAppend(channel, s);
    assert DataOf(channel) + [] == DataOf(channel);
  }

  lemma HalfRead(order: HostOrder, x: Endpoint, y: Endpoint, channel: seq<Segment>, from: uint32, to: uint32)
    requires Half(x, y, channel, from, to) && channel != []
    ensures Half(x, AcceptData(order, y, channel[0]).endpoint, channel[1..], from, to)
  {
    hide Total, CopyAll, Htonl, Ntohl, Add32, IsFin, StrNCpy;
    var p, d, w := channel[0].payload, y.delivered, x.written;
    if p != [] {
      assert DataOf(channel) == [p] + DataOf(channel[1..]);
      assert w[|d|] == w[|d|..][0] == p;
      assert w[|d|..][1..] == w[|d| + 1..];
      assert DataOf(channel[1..]) == w[|d| + 1..];
      assert w[..|d| + 1] == w[..|d|] + [p];
      CopySnoc(w[..|d|], p);
      TotalAppend(d, StrNCpy(p));
      Add32Twice(to, Total(d), |p|);
    } else {
      assert DataOf(channel) == [] + DataOf(channel[1..]);
    }
  }

  lemma CopySnoc(chunks: seq<seq<byte>>, c: seq<byte>)
    ensures CopyAll(chunks + [c]) == CopyAll(chunks) + [StrNCpy(c)]
  {
    hide StrNCpy, CopyAll;
    var x, y := CopyAll(chunks + [c]), CopyAll(chunks) + [StrNCpy(c)];
    forall i | 0 <= i < |x| ensures x[i] == y[i] {
    }
  }

  // The sender's counter is ahead of the receiver's by the bytes in flight.
  lemma HalfAccounts(x: Endpoint, y: Endpoint, channel: seq<Segment>, from: uint32, to: uint32)
    requires Half(x, y, channel, from, to)
    ensures Total(x.written) == Total(y.delivered) + Total(DataOf(channel))
    ensures Add32(x.sequence, to) == Add32(Add32(y.expected, Total(DataOf(channel))), from)
  {
    hide Total, DataOf, CopyAll;
    var k := |y.delivered|;
    assert x.written == x.written[..k] + x.written[k..];
    TotalConcat(x.written[..k], x.written[k..]);
    TotalCopied(x.written[..k]);
    var d, f := Total(y.delivered), Total(DataOf(channel));
    assert Add32(x.sequence, to) == Add32(from, d + f + to) by { Add32Twice(from, d + f, to); }
    Add32Twice(to, d, f);
    Add32Twice(to, d + f, from);
  }

  // ---------- Acknowledgements ----------

  // The acknowledgements in the channel count bytes from the base, never downwards, within lo..hi.
  ghost predicate AckChain(order: HostOrder, channel: seq<Segment>, base: uint32, lo: int, hi: int) {
    if channel == [] then lo <= hi
    else
      exists j: int ::
        Acks(order, channel[0], base, j) && lo <= j <= hi && AckChain(order, channel[1..], base, j, hi)
  }

  predicate Acks(order: HostOrder, s: Segment, base: uint32, j: int) {
    s.ack == Htonl(order, Add32(base, j))
  }

  lemma {:induction false} AckAppend(order: HostOrder, channel: seq<Segment>, base: uint32, lo: int, hi: int,
                                     s: Segment, next: int)
    requires AckChain(order, channel, base, lo, hi) && hi <= next && Acks(order, s, base, next)
    ensures AckChain(order, channel + [s], base, lo, next)
    decreases |channel|
  {
    hide Acks;
    if channel == [] {
      assert [] + [s] == [s] && [s][1..] == [];
      assert AckChain(order, [], base, next, next);
    } else {
      assert (channel + [s])[1..] == channel[1..] + [s];
      var j: int :| Acks(order, channel[0], base, j) && lo <= j <= hi && AckChain(order, channel[1..], base, j, hi);
      AckAppend(order, channel[1..], base, j, hi, s, next);
    }
  }

  lemma {:induction false} AckWiden(order: HostOrder, channel: seq<Segment>, base: uint32, lo: int, hi: int,
                                    lo': int, hi': int)
    requires AckChain(order, channel, base, lo, hi) && lo' <= lo && hi <= hi'
    ensures AckChain(order, channel, base, lo', hi')
    decreases |channel|
  {
    hide Acks;
    if channel != [] {
      var j: int :| Acks(order, channel[0], base, j) && lo <= j <= hi && AckChain(order, channel[1..], base, j, hi);
      AckWiden(order, channel[1..], base, j, hi, j, hi');
    }
  }
}
