// The IP branch of sr_handlepacket and ForwardToNextHop: header validation, the in-place rewrite
// of the time to live and of the checksum, and what survives a chain of routers.

module IpForwarding {
  import opened Machine
  import opened Checksum

  const ETHERNET_HEADER := 14
  const IP_HEADER := 20
  const TTL := 8
  const SUM := 10

  // ---------- Specification on the bytes of an IP packet ----------

  // ip_ihl: header length in bytes, from the low nibble of the first byte.
  function HeaderLength(p: seq<byte>): nat
    requires |p| > 0
  {
    p[0] % 0x10 * 4
  }

  // ip_len: the total length field.
  function TotalLength(p: seq<byte>): uint16
    requires |p| >= IP_HEADER
  {
    Word(p[2], p[3])
  }

  function SetSum(p: seq<byte>, s: seq<byte>): (q: seq<byte>)
    requires |p| >= IP_HEADER && |s| == 2
    ensures |q| == |p|
  {
    p[SUM := s[0]][SUM + 1 := s[1]]
  }

  function HeaderChecksum(p: seq<byte>): (s: seq<byte>)
    requires |p| >= IP_HEADER && HeaderLength(p) <= |p|
    ensures |s| == 2
  {
    ChecksumBytes(SetSum(p, [0, 0])[..HeaderLength(p)])
  }

  // What the receiver lets through.
  predicate Accepts(p: seq<byte>) {
    && |p| >= IP_HEADER
    && HeaderLength(p) <= |p|
    && p[SUM..SUM + 2] == HeaderChecksum(p)
  }

  function Decrement(ttl: byte): byte {
    (ttl as int + 0xff) % 0x100
  }

  // The packet with the given time to live and a fresh checksum.
  function Aged(p: seq<byte>, ttl: byte): (q: seq<byte>)
    requires |p| >= IP_HEADER && HeaderLength(p) <= |p|
    ensures |q| == |p|
  {
    var d: seq<byte> := p[TTL := ttl];
    SetSum(d, HeaderChecksum(d))
  }

  // One router: the time to live is an unsigned byte, so it wraps.
  function Hop(p: seq<byte>): (q: seq<byte>)
    requires |p| >= IP_HEADER && HeaderLength(p) <= |p|
    ensures |q| == |p|
  {
    Aged(p, Decrement(p[TTL]))
  }

  // ---------- The receiver and the forwarder ----------

  // Both the receiver and the forwarder clear the field and run cksum over the header.
  method ClearAndSum(order: HostOrder, frame: array<byte>) returns (sum: uint16)
    requires frame.Length >= ETHERNET_HEADER + IP_HEADER
    requires HeaderLength(frame[ETHERNET_HEADER..]) <= frame.Length - ETHERNET_HEADER
    modifies frame
    ensures frame[..ETHERNET_HEADER] == old(frame[..ETHERNET_HEADER])
    ensures frame[ETHERNET_HEADER..] == SetSum(old(frame[ETHERNET_HEADER..]), [0, 0])
    ensures Store16(order, sum) == HeaderChecksum(old(frame[ETHERNET_HEADER..]))
  {
    hide Word, Complement, Store16, Htons, ChecksumBytes;
    ghost var p := frame[ETHERNET_HEADER..];
    frame[ETHERNET_HEADER + SUM] := 0;
    frame[ETHERNET_HEADER + SUM + 1] := 0;
    var ihl := frame[ETHERNET_HEADER] % 0x10 * 4;
    sum := Cksum(order, frame, ETHERNET_HEADER, ihl);
    assert frame[ETHERNET_HEADER..ETHERNET_HEADER + ihl] == SetSum(p, [0, 0])[..ihl];
    CksumStores(order, SetSum(p, [0, 0])[..ihl]);
  }

  method Receive(order: HostOrder, frame: array<byte>) returns (accepted: bool)
    modifies frame
    ensures accepted <==> frame.Length >= ETHERNET_HEADER && Accepts(old(frame[ETHERNET_HEADER..]))
    ensures accepted ==> frame[..] == old(frame[..ETHERNET_HEADER]) + SetSum(old(frame[ETHERNET_HEADER..]), [0, 0])
  {
    hide Store16, Load16, HeaderChecksum, SetSum;
    if frame.Length < IP_HEADER + ETHERNET_HEADER {
      return false;
    }
    if frame.Length < ETHERNET_HEADER + frame[ETHERNET_HEADER] as int % 0x10 * 4 {
      return false;
    }
    ghost var p := frame[ETHERNET_HEADER..];
    var received := Load16(order, frame[ETHERNET_HEADER + SUM], frame[ETHERNET_HEADER + SUM + 1]);
    LoadStore(order, p[SUM], p[SUM + 1]);
    var expected := ClearAndSum(order, frame);
    Store16Injective(order, received, expected);
    assert frame[..] == frame[..ETHERNET_HEADER] + frame[ETHERNET_HEADER..];
    accepted := expected == received;
  }

  // Rewrites the packet in place and returns the copy handed to FillAndSendPkt.
  method ForwardToNextHop(order: HostOrder, frame: array<byte>) returns (copy: seq<byte>)
    requires frame.Length >= ETHERNET_HEADER + IP_HEADER
    requires HeaderLength(frame[ETHERNET_HEADER..]) <= frame.Length - ETHERNET_HEADER
    requires TotalLength(frame[ETHERNET_HEADER..]) <= frame.Length - ETHERNET_HEADER
    modifies frame
    ensures frame[..] == old(frame[..ETHERNET_HEADER]) + Hop(old(frame[ETHERNET_HEADER..]))
    ensures copy == Hop(old(frame[ETHERNET_HEADER..]))[..TotalLength(old(frame[ETHERNET_HEADER..]))]
  {
    hide Word, Store16, HeaderChecksum;
    ghost var p, ethernet := frame[ETHERNET_HEADER..], frame[..ETHERNET_HEADER];
    frame[ETHERNET_HEADER + TTL] := Decrement(frame[ETHERNET_HEADER + TTL]);
    ghost var d: seq<byte> := p[TTL := Decrement(p[TTL])];
    assert frame[ETHERNET_HEADER..] == d && frame[..ETHERNET_HEADER] == ethernet;
    var len := Word(frame[ETHERNET_HEADER + 2], frame[ETHERNET_HEADER + 3]);
    var sum := ClearAndSum(order, frame);
    var stored := Store16(order, sum);
    frame[ETHERNET_HEADER + SUM] := stored[0];
    frame[ETHERNET_HEADER + SUM + 1] := stored[1];
    assert frame[ETHERNET_HEADER..] == Hop(p);
    assert frame[..] == frame[..ETHERNET_HEADER] + frame[ETHERNET_HEADER..];
    copy := frame[ETHERNET_HEADER..ETHERNET_HEADER + len];
  }

  // ---------- Validity along a path of routers ----------

  // The packet after n routers.
  function Hops(p: seq<byte>, n: nat): (q: seq<byte>)
    requires |p| >= IP_HEADER && HeaderLength(p) <= |p|
    ensures |q| == |p| && q[0] == p[0]
  {
    if n == 0 then p else Hop(Hops(p, n - 1))
  }

  // A fresh checksum is accepted, and nothing but the time to live and the checksum changed.
  lemma AgedIsAccepted(p: seq<byte>, ttl: byte)
    requires |p| >= IP_HEADER && HeaderLength(p) <= |p|
    ensures Accepts(Aged(p, ttl))
    ensures Aged(p, ttl)[TTL] == ttl
    ensures forall i | 0 <= i < |p| && i != TTL && i != SUM && i != SUM + 1 :: Aged(p, ttl)[i] == p[i]
  {
    hide ChecksumBytes;
    var q := Aged(p, ttl);
    assert SetSum(q, [0, 0]) == SetSum(p[TTL := ttl], [0, 0]);
  }

  lemma HopOfAged(p: seq<byte>, ttl: byte)
    requires |p| >= IP_HEADER && HeaderLength(p) <= |p|
    ensures Hop(Aged(p, ttl)) == Aged(p, Decrement(ttl))
  {
    hide ChecksumBytes;
    var q := Aged(p, ttl);
    var t := Decrement(ttl);
    assert SetSum(q[TTL := t], [0, 0]) == SetSum(p[TTL := t], [0, 0]);
  }

  // The time to live after n routers, modulo 256.
  function TtlAfter(ttl: byte, n: nat): byte {
    (ttl as int - n) % 0x100
  }

  lemma TtlAfterNext(ttl: byte, n: nat)
    ensures TtlAfter(ttl, n + 1) == Decrement(TtlAfter(ttl, n))
    ensures n <= ttl ==> TtlAfter(ttl, n) as int == ttl as int - n
    ensures TtlAfter(ttl, 0) == ttl
  {
    PreviousResidue(ttl as int - n);
  }

  lemma PreviousResidue(x: int)
    ensures (x - 1) % 0x100 == if x % 0x100 == 0 then 0xff else x % 0x100 - 1
  {
    var q, r := x / 0x100, x % 0x100;
    assert x == 0x100 * q + r;
    assert r == 0 ==> x - 1 == 0x100 * (q - 1) + 0xff;
  }

  // Across any number of routers: every byte outside the two fields is kept, the time to live
  // counts the routers (modulo 256), and the next router accepts the header.
  lemma {:induction false} PathPreservesHeader(p: seq<byte>, n: nat)
    requires |p| >= IP_HEADER && HeaderLength(p) <= |p|
    requires n > 0
    ensures Hops(p, n) == Aged(p, TtlAfter(p[TTL], n))
    ensures Accepts(Hops(p, n))
    ensures n <= p[TTL] ==> Hops(p, n)[TTL] as int == p[TTL] as int - n
    ensures forall i | 0 <= i < |p| && i != TTL && i != SUM && i != SUM + 1 :: Hops(p, n)[i] == p[i]
  {
    hide Aged, Accepts, TtlAfter, Decrement;
    TtlAfterNext(p[TTL], n - 1);
    TtlAfterNext(p[TTL], n);
    if n == 1 {
      assert Hops(p, 1) == Hop(Hops(p, 0));
    } else {
      PathPreservesHeader(p, n - 1);
      HopOfAged(p, TtlAfter(p[TTL], n - 1));
    }
    AgedIsAccepted(p, TtlAfter(p[TTL], n));
  }

  // Acceptance looks at the header only, so cutting the packet at its total length keeps it.
  lemma AcceptanceIgnoresPayload(p: seq<byte>, n: nat)
    requires |p| >= IP_HEADER && HeaderLength(p) <= n && IP_HEADER <= n <= |p|
    ensures Accepts(p[..n]) <==> Accepts(p)
  {
    hide ChecksumBytes;
    assert SetSum(p[..n], [0, 0])[..HeaderLength(p)] == SetSum(p, [0, 0])[..HeaderLength(p)];
    assert p[..n][SUM..SUM + 2] == p[SUM..SUM + 2];
  }

  // The checksum field plays no part in what the router computes.
  lemma SumIsIgnored(p: seq<byte>, s: seq<byte>)
    requires |p| >= IP_HEADER && HeaderLength(p) <= |p| && |s| == 2
    ensures HeaderLength(SetSum(p, s)) == HeaderLength(p) && TotalLength(SetSum(p, s)) == TotalLength(p)
    ensures Hop(SetSum(p, s)) == Hop(p)
  {
    hide ChecksumBytes, Word;
    var q := SetSum(p, s);
    var t := Decrement(p[TTL]);
    assert SetSum(q[TTL := t], [0, 0]) == SetSum(p[TTL := t], [0, 0]);
  }

  // ---------- Relation to the one's complement test over the whole header ----------

  // Replacing the word at an even offset changes the sum by the difference of the words.
  lemma {:induction false} WordSumUpdate(data: seq<byte>, i: nat, high: byte, low: byte)
    requires i % 2 == 0 && i + 1 < |data|
    ensures WordSum(data[i := high][i + 1 := low]) ==
            WordSum(data) - Word(data[i], data[i + 1]) + Word(high, low)
  {
    hide Word;
    var d: seq<byte> := data[i := high][i + 1 := low];
    if i == 0 {
      assert d[2..] == data[2..];
    } else {
      WordSumUpdate(data[2..], i - 2, high, low);
      assert d[2..] == data[2..][i - 2 := high][i - 1 := low];
    }
  }

  function Header(p: seq<byte>): seq<byte>
    requires |p| >= IP_HEADER && HeaderLength(p) <= |p|
  {
    p[..HeaderLength(p)]
  }

  // The value the receiver computes, before it is stored.
  function Computed(p: seq<byte>): uint16
    requires |p| >= IP_HEADER && HeaderLength(p) <= |p|
  {
    Complement(WordSum(Header(SetSum(p, [0, 0]))))
  }

  function StoredSum(p: seq<byte>): uint16
    requires |p| >= IP_HEADER
  {
    Word(p[SUM], p[SUM + 1])
  }

  lemma AcceptsIffEqual(p: seq<byte>)
    requires |p| >= IP_HEADER && HeaderLength(p) <= |p|
    ensures Accepts(p) <==> StoredSum(p) == Computed(p)
  {
    hide Complement, WordSum;
    LoadStore(BigEndian, p[SUM], p[SUM + 1]);
    Store16Injective(BigEndian, StoredSum(p), Computed(p));
  }

  // Acceptance implies that the whole header folds to all ones; the converse fails only for a
  // stored 0xffff where the receiver computes 0.
  lemma AcceptanceVersusAllOnes(p: seq<byte>)
    requires |p| >= IP_HEADER && IP_HEADER <= HeaderLength(p) <= |p|
    ensures Fold(WordSum(Header(p))) == 0xffff <==> Accepts(p) || (StoredSum(p) == 0xffff && Computed(p) == 0)
  {
    hide Fold, Word, WordSum;
    var z: seq<byte> := Header(SetSum(p, [0, 0]));
    WordSumUpdate(Header(p), SUM, 0, 0);
    assert z == Header(p)[SUM := 0][SUM + 1 := 0];
    var s, c := WordSum(z), StoredSum(p);
    assert WordSum(Header(p)) == s + c by { ZeroWord(); }
    AcceptsIffEqual(p);
    AllOnesIff(s, c);
  }

  // A header from 10.0.0.1 to 10.0.0.2 with 0xffff in the checksum field.
  const ALL_ONES_HEADER: seq<byte> :=
    [0x45, 0, 0, 20, 0x66, 0xD7, 0, 0, 0x40, 17, 0xFF, 0xFF, 10, 0, 0, 1, 10, 0, 0, 2]

  // It folds to all ones, and the receiver turns it down: it computes 0.
  lemma AllOnesRefused()
    ensures var p := ALL_ONES_HEADER;
            && HeaderLength(p) == |p| && Fold(WordSum(Header(p))) == 0xffff
            && StoredSum(p) == 0xffff && Computed(p) == 0 && !Accepts(p)
  {
    hide WordSum, Fold, Accepts;
    var p := ALL_ONES_HEADER;
    var z := SetSum(p, [0, 0]);
    assert Header(p) == p && Header(z) == z;
    FiveAndFiveWords(z);
    FoldOfAllOnes();
    AcceptsIffEqual(p);
    AcceptanceVersusAllOnes(p);
  }

  // A valid header, from 192.168.0.1 to 192.168.0.199, with its checksum 0xB861 in bytes 10 and 11.
  const VALID_HEADER: seq<byte> :=
    [0x45, 0, 0, 0x73, 0, 0, 0x40, 0, 0x40, 0x11, 0xB8, 0x61, 0xC0, 0xA8, 0, 1, 0xC0, 0xA8, 0, 0xC7]

  lemma ValidAccepted()
    ensures Accepts(VALID_HEADER)
  {
    hide WordSum, Fold, Accepts;
    var p := VALID_HEADER;
    var z := SetSum(p, [0, 0]);
    assert Header(p) == p && Header(z) == z;
    FiveAndFiveWords(z);
    FoldOfExample();
    AcceptsIffEqual(p);
  }

  lemma FoldOfExample()
    ensures Fold(0x2479C) == 0x479E
  {
    assert FoldOnce(0x2479C) == 0x479E;
  }

  lemma FiveAndFiveWords(p: seq<byte>)
    requires |p| == 20
    ensures WordSum(p) == Word(p[0], p[1]) + Word(p[2], p[3]) + Word(p[4], p[5]) + Word(p[6], p[7]) + Word(p[8], p[9]) +
                          Word(p[10], p[11]) + Word(p[12], p[13]) + Word(p[14], p[15]) + Word(p[16], p[17]) +
                          Word(p[18], p[19])
  {
    hide Word, WordSum;
    FiveWords(p);
    FiveWords(p[10..]);
    assert WordSum([]) == 0 by { NoWords(); }
    assert p[10..][10..] == [];
  }

  lemma NoWords()
    ensures WordSum([]) == 0
  {
  }

  lemma FiveWords(p: seq<byte>)
    requires |p| >= 10
    ensures WordSum(p) == Word(p[0], p[1]) + Word(p[2], p[3]) + Word(p[4], p[5]) + Word(p[6], p[7]) + Word(p[8], p[9]) +
                          WordSum(p[10..])
  {
    hide Word, WordSum;
    FirstWord(p);
    FirstWord(p[2..]);
    FirstWord(p[4..]);
    FirstWord(p[6..]);
    FirstWord(p[8..]);
    assert p[2..][2..] == p[4..] && p[4..][2..] == p[6..] && p[6..][2..] == p[8..] && p[8..][2..] == p[10..];
  }

  lemma FirstWord(p: seq<byte>)
    requires |p| >= 2
    ensures WordSum(p) == Word(p[0], p[1]) + WordSum(p[2..])
  {
    hide Word;
  }

  lemma FoldOfAllOnes()
    ensures Fold(0xffff) == 0xffff
  {
  }

  lemma ZeroWord()
    ensures Word(0, 0) == 0
  {
  }

  lemma AllOnesIff(s: nat, c: uint16)
    ensures Fold(s + c) == 0xffff <==> c == Complement(s) || (c == 0xffff && Complement(s) == 0)
  {
    hide Fold;
    FoldProperties(s);
    FoldProperties(s + c);
    SmallResidue(Fold(s));
    SmallResidue(Fold(s + c));
    var f: int := Fold(s);
    var q: int := s / 0xffff - f / 0xffff;
    assert s == f + 0xffff * q;
    ResidueShift(f + c, q);
    assert (s + c) % 0xffff == (f + c) % 0xffff;
    SumResidue(f, c);
  }

  lemma SumResidue(x: uint16, y: uint16)
    ensures (x as int + y as int) % 0xffff == 0 <==> x as int + y as int in {0, 0xffff, 2 * 0xffff}
  {
  }

  // ---------- Incremental update ----------

  // Equation 3 of section 3 of RFC 1624: HC' = ~(~HC + ~m + m') for the word holding the time to live.
  lemma IncrementalUpdate(p: seq<byte>)
    requires |p| >= IP_HEADER && IP_HEADER <= HeaderLength(p) <= |p|
    requires Accepts(p)
    ensures var m := Word(p[TTL], p[TTL + 1]);
            var m' := Word(Hop(p)[TTL], Hop(p)[TTL + 1]);
            StoredSum(Hop(p)) == Complement((0xffff - StoredSum(p)) as int + (0xffff - m) as int + m' as int)
  {
    hide Fold, Word, WordSum;
    var q := Hop(p);
    var z: seq<byte>, z': seq<byte> := Header(SetSum(p, [0, 0])), Header(SetSum(q, [0, 0]));
    var m, m' := Word(p[TTL], p[TTL + 1]), Word(q[TTL], q[TTL + 1]);
    AgedIsAccepted(p, Decrement(p[TTL]));
    AcceptsIffEqual(p);
    AcceptsIffEqual(q);
    WordSumUpdate(z, TTL, q[TTL], q[TTL + 1]);
    assert z' == z[TTL := q[TTL]][TTL + 1 := q[TTL + 1]];
    FirstWordPositive(z);
    WordSumUpdate(z, TTL, 0, 0);
    assert m + 0 <= WordSum(z) by { ZeroWord(); }
    FirstWordPositive(z[TTL := 0][TTL + 1 := 0]);
    assert WordSum(z[TTL := 0][TTL + 1 := 0]) == WordSum(z) - m by { ZeroWord(); }
    ReplaceWord(WordSum(z) - m, m, m');
  }

  lemma FirstWordPositive(data: seq<byte>)
    requires |data| >= 2 && data[0] > 0
    ensures WordSum(data) > 0
  {
  }

  // With r the sum of the words that stay, replacing m by m' may be done on the folded sum.
  lemma ReplaceWord(r: nat, m: uint16, m': uint16)
    requires r > 0
    ensures Fold(r + m') == Fold(Fold(r + m) as int + (0xffff - m) as int + m' as int)
  {
    hide Fold;
    var f: int := Fold(r + m);
    FoldProperties(r + m);
    FoldProperties(r + m');
    var q: int := (r + m) / 0xffff - f / 0xffff;
    assert r + m == f + 0xffff * q;
    assert r + m' == f + (0xffff - m) + m' + 0xffff * (q - 1);
    ResidueShift(f + (0xffff - m) + m', q - 1);
    FoldUnique(f + (0xffff - m) + m', Fold(r + m'));
  }
}
