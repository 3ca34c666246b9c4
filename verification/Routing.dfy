// The routing table of sr_rt.c and its longest prefix match.

module Routing {
  import opened Machine

  // An IPv4 address or mask: the four bytes of an in_addr in memory, that is, in network order.
  datatype Ip = Ip(a: byte, b: byte, c: byte, d: byte)

  datatype Route = Route(dest: Ip, gw: Ip, mask: Ip, interface: string)

  // ---------- Masks ----------

  function Word32(a: byte, b: byte, c: byte, d: byte): uint32 {
    0x100_0000 * a as int + 0x1_0000 * b as int + 0x100 * c as int + d as int
  }

  // s_addr as the host reads it.
  function Raw(order: HostOrder, x: Ip): uint32 {
    if order.BigEndian? then Word32(x.a, x.b, x.c, x.d)
    else Word32(x.d, x.c, x.b, x.a)
  }

  // Bitwise and of two bytes, bit by bit.
  function And8(x: byte, y: byte): (z: byte)
    ensures z <= x
  {
    if x == 0 then 0 else 2 * And8(x / 2, y / 2) as int + if x % 2 == 1 && y % 2 == 1 then 1 else 0
  }

  function And(x: Ip, y: Ip): Ip {
    Ip(And8(x.a, y.a), And8(x.b, y.b), And8(x.c, y.c), And8(x.d, y.d))
  }

  // A byte whose k leading bits are ones; k below 0 counts as 0 and above 8 as 8.
  function LeadingOnes(k: int): byte {
    if k <= 0 then 0
    else if k == 1 then 0x80
    else if k == 2 then 0xC0
    else if k == 3 then 0xE0
    else if k == 4 then 0xF0
    else if k == 5 then 0xF8
    else if k == 6 then 0xFC
    else if k == 7 then 0xFE
    else 0xFF
  }

  // The mask of a prefix of n bits.
  function PrefixMask(n: nat): Ip {
    Ip(LeadingOnes(n), LeadingOnes(n - 8), LeadingOnes(n - 16), LeadingOnes(n - 24))
  }

  // Numeric order of the raw masks is the order of the prefix lengths, in both byte orders.
  lemma MaskOrder(order: HostOrder, m: nat, n: nat)
    requires m <= 32 && n <= 32
    ensures Raw(order, PrefixMask(m)) <= Raw(order, PrefixMask(n)) <==> m <= n
  {
    if m < n {
      LongerIsLarger(order, m, n);
    } else if n < m {
      LongerIsLarger(order, n, m);
    }
  }

  lemma MaskByteOrder(m: nat, n: nat, i: nat)
    requires m < n
    ensures LeadingOnes(m - i) <= LeadingOnes(n - i)
    ensures i <= m < i + 8 ==> LeadingOnes(m - i) < LeadingOnes(n - i)
  {
  }

  lemma WordMonotone(a: byte, b: byte, c: byte, d: byte, a': byte, b': byte, c': byte, d': byte)
    requires a <= a' && b <= b' && c <= c' && d <= d'
    requires a < a' || b < b' || c < c' || d < d'
    ensures Word32(a, b, c, d) < Word32(a', b', c', d')
  {
  }

  lemma LongerIsLarger(order: HostOrder, m: nat, n: nat)
    requires m < n <= 32
    ensures Raw(order, PrefixMask(m)) < Raw(order, PrefixMask(n))
  {
    hide LeadingOnes, Word32;
    MaskByteOrder(m, n, 0);
    MaskByteOrder(m, n, 8);
    MaskByteOrder(m, n, 16);
    MaskByteOrder(m, n, 24);
    var x, y := PrefixMask(m), PrefixMask(n);
    MaskBytes(m);
    MaskBytes(n);
    if order.BigEndian? {
      WordMonotone(x.a, x.b, x.c, x.d, y.a, y.b, y.c, y.d);
    } else {
      WordMonotone(x.d, x.c, x.b, x.a, y.d, y.c, y.b, y.a);
    }
  }

  lemma MaskBytes(n: nat)
    ensures var x := PrefixMask(n);
            && x.a == LeadingOnes(n - 0) && x.b == LeadingOnes(n - 8)
            && x.c == LeadingOnes(n - 16) && x.d == LeadingOnes(n - 24)
  {
    hide LeadingOnes;
    assert n - 0 == n;
  }

  // ---------- Addresses as numbers ----------

  // The address as a number, first byte most significant.
  function Number(x: Ip): uint32 {
    Word32(x.a, x.b, x.c, x.d)
  }

  // The number without its last n bits.
  function DropBits(x: nat, n: nat): nat {
    if n == 0 then x else DropBits(x / 2, n - 1)
  }

  // The first n of the 32 bits are the same.
  predicate SamePrefix(x: Ip, y: Ip, n: nat)
    requires n <= 32
  {
    DropBits(Number(x), 32 - n) == DropBits(Number(y), 32 - n)
  }

  lemma {:induction false} DropMore(x: nat, m: nat, n: nat)
    ensures DropBits(x, m + n) == DropBits(DropBits(x, m), n)
  {
    if m > 0 {
      DropMore(x / 2, m - 1, n);
    }
  }

  lemma DropOne(x: nat)
    ensures DropBits(x, 1) == x / 2
  {
    assert DropBits(x / 2, 0) == x / 2;
  }

  lemma DropFour(x: nat)
    ensures DropBits(x, 4) == x / 0x10
  {
    hide DropBits;
    DropMore(x, 1, 3);
    DropMore(x / 2, 1, 2);
    DropMore(x / 4, 1, 1);
    DropOne(x);
    DropOne(x / 2);
    DropOne(x / 4);
    DropOne(x / 8);
  }

  lemma DropByte(x: nat, n: nat)
    ensures DropBits(x, 8 + n) == DropBits(x / 0x100, n)
  {
    DropMore(x, 8, n);
    DropMore(x, 4, 4);
    DropFour(x);
    DropFour(x / 0x10);
  }

  function Double(x: nat, n: nat): nat {
    if n == 0 then x else 2 * Double(x, n - 1)
  }

  lemma {:induction false} DropLow(high: nat, low: nat, s: nat, k: nat)
    requires low < Double(1, s + k)
    ensures DropBits(Double(high, s + k) + low, s) == Double(high, k) + DropBits(low, s)
    ensures DropBits(low, s) < Double(1, k)
  {
    if s > 0 {
      DropLow(high, low / 2, s - 1, k);
    }
  }

  lemma {:induction false} DoubleAgrees(x: nat, r: nat, x': nat, r': nat, k: nat)
    requires r < Double(1, k) && r' < Double(1, k)
    ensures Double(x, k) + r == Double(x', k) + r' <==> x == x' && r == r'
  {
    if k > 0 {
      DoubleAgrees(x, r / 2, x', r' / 2, k - 1);
      assert (Double(x, k) + r) / 2 == Double(x, k - 1) + r / 2 && (Double(x, k) + r) % 2 == r % 2;
      assert (Double(x', k) + r') / 2 == Double(x', k - 1) + r' / 2 && (Double(x', k) + r') % 2 == r' % 2;
    }
  }

  // Dropping fewer than the bits of the low byte keeps the rest of the number.
  lemma LowAgrees(high: nat, low: byte, high': nat, low': byte, k: nat)
    requires k <= 8
    ensures DropBits(0x100 * high + low as int, 8 - k) == DropBits(0x100 * high' + low' as int, 8 - k) <==>
            high == high' && DropBits(low, 8 - k) == DropBits(low', 8 - k)
  {
    hide DropBits, Double;
    EightDoublings(high);
    EightDoublings(high');
    EightDoublings(1);
    DropLow(high, low, 8 - k, k);
    DropLow(high', low', 8 - k, k);
    DoubleAgrees(high, DropBits(low, 8 - k), high', DropBits(low', 8 - k), k);
  }

  lemma EightDoublings(x: nat)
    ensures Double(x, 8) == 0x100 * x
  {
    assert Double(x, 1) == 2 * x;
    assert Double(x, 2) == 4 * x;
    assert Double(x, 3) == 8 * x;
    assert Double(x, 4) == 16 * x;
    assert Double(x, 5) == 32 * x;
    assert Double(x, 6) == 64 * x;
    assert Double(x, 7) == 128 * x;
  }

  // ---------- What a prefix mask selects ----------

  function Ones(k: nat): nat {
    if k == 0 then 0 else 2 * Ones(k - 1) + 1
  }

  lemma LeadingOnesValue(k: nat)
    requires k <= 8
    ensures LeadingOnes(k) as int == Double(Ones(k), 8 - k)
  {
    assert Ones(1) == 1 && Ones(2) == 3 && Ones(3) == 7 && Ones(4) == 15;
    assert Ones(5) == 31 && Ones(6) == 63 && Ones(7) == 127 && Ones(8) == 255;
    DoubleValues(Ones(k));
  }

  lemma DoubleValues(x: nat)
    ensures Double(x, 0) == x && Double(x, 1) == 2 * x && Double(x, 2) == 4 * x && Double(x, 3) == 8 * x
    ensures Double(x, 4) == 16 * x && Double(x, 5) == 32 * x && Double(x, 6) == 64 * x && Double(x, 7) == 128 * x
    ensures Double(x, 8) == 0x100 * x
  {
  }

  // Under a mask of s zeros the last s bits do not count.
  lemma {:induction false} MaskDrops(x: byte, ones: nat, s: nat)
    requires Double(ones, s) < 0x100 && ones < 0x100 && DropBits(x, s) < 0x100
    ensures And8(x, Double(ones, s)) as int == Double(And8(DropBits(x, s), ones), s)
  {
    if s > 0 {
      MaskDrops(x / 2, ones, s - 1);
    }
  }

  lemma {:induction false} OnesKeep(x: byte, k: nat)
    requires x as int < Double(1, k) && Ones(k) < 0x100
    ensures And8(x, Ones(k)) == x
  {
    if k > 0 && x > 0 {
      OnesKeep(x / 2, k - 1);
    }
  }

  lemma {:induction false} DoubleInjective(x: nat, y: nat, s: nat)
    ensures Double(x, s) == Double(y, s) <==> x == y
  {
    if s > 0 {
      DoubleInjective(x, y, s - 1);
    }
  }

  lemma MaskedByteIs(x: byte, k: nat)
    requires k <= 8
    ensures And8(x, LeadingOnes(k)) as int == Double(DropBits(x, 8 - k), 8 - k)
  {
    hide And8, Double, DropBits, Ones, LeadingOnes;
    LeadingOnesValue(k);
    EightDoublings(0);
    EightDoublings(1);
    DropLow(0, x, 8 - k, k);
    SmallOnes(k);
    SmallDouble(k);
    MaskDrops(x, Ones(k), 8 - k);
    OnesKeep(DropBits(x, 8 - k), k);
  }

  lemma SmallOnes(k: nat)
    requires k <= 8
    ensures Ones(k) < 0x100
  {
    assert Ones(4) == 15 && Ones(8) == 255;
  }

  lemma SmallDouble(k: nat)
    requires k <= 8
    ensures Double(1, k) <= 0x100
  {
    DoubleValues(1);
  }

  lemma ByteAgrees(x: byte, y: byte, k: nat)
    requires k <= 8
    ensures And8(x, LeadingOnes(k)) == And8(y, LeadingOnes(k)) <==> DropBits(x, 8 - k) == DropBits(y, 8 - k)
  {
    hide And8, LeadingOnes, Double, DropBits;
    MaskedByteIs(x, k);
    MaskedByteIs(y, k);
    DoubleInjective(DropBits(x, 8 - k), DropBits(y, 8 - k), 8 - k);
  }

  lemma MaskedByte(x: byte, y: byte, k: int)
    ensures k <= 0 ==> And8(x, LeadingOnes(k)) == And8(y, LeadingOnes(k))
    ensures k >= 8 ==> (And8(x, LeadingOnes(k)) == And8(y, LeadingOnes(k)) <==> x == y)
  {
    hide And8;
    NoBits(x);
    NoBits(y);
    ByteAgrees(x, y, 8);
  }

  lemma {:induction false} NoBits(x: byte)
    ensures And8(x, 0) == 0
  {
    if x > 0 {
      NoBits(x / 2);
    }
  }

  lemma MaskedAgree(x: Ip, y: Ip, n: nat)
    requires n <= 32
    ensures And(x, PrefixMask(n)) == And(y, PrefixMask(n)) <==> SamePrefix(x, y, n)
  {
    hide LeadingOnes, And8, DropBits, SamePrefix;
    MaskedByte(x.a, y.a, n);
    MaskedByte(x.b, y.b, n - 8);
    MaskedByte(x.c, y.c, n - 16);
    MaskedByte(x.d, y.d, n - 24);
    if n >= 24 {
      ByteAgrees(x.d, y.d, n - 24);
    } else if n >= 16 {
      ByteAgrees(x.c, y.c, n - 16);
    } else if n >= 8 {
      ByteAgrees(x.b, y.b, n - 8);
    } else {
      ByteAgrees(x.a, y.a, n);
    }
    SamePrefixBytes(x, y, n);
  }

  // Addresses with a common prefix have every shorter prefix in common.
  lemma PrefixesNest(x: Ip, y: Ip, m: nat, n: nat)
    requires m <= n <= 32 && SamePrefix(x, y, n)
    ensures SamePrefix(x, y, m)
  {
    hide DropBits;
    DropMore(Number(x), 32 - n, n - m);
    DropMore(Number(y), 32 - n, n - m);
  }

  // ---------- The bit operator ----------

  function Octet(x: bv8): byte {
    x as int
  }

  function Half8(x: bv8): bv8 {
    x >> 1
  }

  lemma HalfOctet(x: bv8)
    ensures Octet(Half8(x)) == Octet(x) / 2
    ensures Octet(x) % 2 == if x & 1 == 1 then 1 else 0
    ensures x != 0 ==> Octet(x) > 0
  {
  }

  // And8 is the bit operator on eight bits.
  lemma {:induction false} AndIsBitwise(x: bv8, y: bv8)
    ensures And8(Octet(x), Octet(y)) == Octet(x & y)
    decreases Octet(x)
  {
    hide Octet;
    HalfOctet(x);
    HalfOctet(y);
    HalfOctet(x & y);
    AndHalves(x, y);
    if x == 0 {
      ZeroOctet();
    } else {
      AndIsBitwise(Half8(x), Half8(y));
    }
  }

  lemma AndHalves(x: bv8, y: bv8)
    ensures Half8(x & y) == Half8(x) & Half8(y)
    ensures (x & y) & 1 == 1 <==> x & 1 == 1 && y & 1 == 1
    ensures x == 0 ==> x & y == 0
  {
  }

  lemma ZeroOctet()
    ensures Octet(0) == 0
  {
  }

  // The same, byte by byte, on the numbers.
  lemma SamePrefixBytes(x: Ip, y: Ip, n: nat)
    requires n <= 32
    ensures SamePrefix(x, y, n) <==>
            if n >= 24 then
              x.a == y.a && x.b == y.b && x.c == y.c &&
              DropBits(x.d, 32 - n) == DropBits(y.d, 32 - n)
            else if n >= 16 then
              x.a == y.a && x.b == y.b &&
              DropBits(x.c, 24 - n) == DropBits(y.c, 24 - n)
            else if n >= 8 then
              x.a == y.a && DropBits(x.b, 16 - n) == DropBits(y.b, 16 - n)
            else
              DropBits(x.a, 8 - n) == DropBits(y.a, 8 - n)
  {
    hide DropBits;
    var (x1, x2, x3, y1, y2, y3) := (High(x, 1), High(x, 2), High(x, 3), High(y, 1), High(y, 2), High(y, 3));
    HighBytes(x);
    HighBytes(y);
    if n >= 24 {
      LowAgrees(x3, x.d, y3, y.d, n - 24);
    } else if n >= 16 {
      DropByte(Number(x), 24 - n);
      DropByte(Number(y), 24 - n);
      LowAgrees(x2, x.c, y2, y.c, n - 16);
    } else if n >= 8 {
      DropByte(Number(x), 24 - n);
      DropByte(Number(y), 24 - n);
      DropByte(x3, 16 - n);
      DropByte(y3, 16 - n);
      LowAgrees(x1, x.b, y1, y.b, n - 8);
    } else {
      DropByte(Number(x), 24 - n);
      DropByte(Number(y), 24 - n);
      DropByte(x3, 16 - n);
      DropByte(y3, 16 - n);
      DropByte(x2, 8 - n);
      DropByte(y2, 8 - n);
    }
  }

  // The number of the first bytes.
  function High(x: Ip, bytes: nat): nat {
    if bytes == 1 then x.a
    else if bytes == 2 then 0x100 * x.a as int + x.b as int
    else 0x1_0000 * x.a as int + 0x100 * x.b as int + x.c as int
  }

  lemma HighBytes(x: Ip)
    ensures Number(x) == 0x100 * High(x, 3) + x.d as int && Number(x) / 0x100 == High(x, 3)
    ensures High(x, 3) == 0x100 * High(x, 2) + x.c as int && High(x, 3) / 0x100 == High(x, 2)
    ensures High(x, 2) == 0x100 * High(x, 1) + x.b as int && High(x, 2) / 0x100 == High(x, 1)
  {
  }

  // ---------- Specification of the lookup ----------

  ghost predicate Contiguous(mask: Ip) {
    exists n: nat :: n <= 32 && PrefixMask(n) == mask
  }

  // Number of leading one bits of a contiguous mask.
  ghost function PrefixLength(mask: Ip): (n: nat)
    requires Contiguous(mask)
    ensures n <= 32 && PrefixMask(n) == mask
  {
    var n: nat :| n <= 32 && PrefixMask(n) == mask;
    n
  }

  ghost predicate ContiguousMasks(table: seq<Route>) {
    forall i | 0 <= i < |table| :: Contiguous(table[i].mask)
  }

  predicate Matches(route: Route, addr: Ip) {
    And(route.dest, route.mask) == And(addr, route.mask)
  }

  predicate Routable(table: seq<Route>, addr: Ip) {
    exists i | 0 <= i < |table| :: Matches(table[i], addr)
  }

  // Entry i matches, its raw mask is at least that of every matching entry and larger than that of
  // every later one.
  predicate LastLargest(order: HostOrder, table: seq<Route>, addr: Ip, i: nat) {
    && i < |table|
    && Matches(table[i], addr)
    && (forall j | 0 <= j < |table| && Matches(table[j], addr) ::
        Raw(order, table[j].mask) <= Raw(order, table[i].mask))
    && (forall j | i < j < |table| && Matches(table[j], addr) :: Raw(order, table[j].mask) < Raw(order, table[i].mask))
  }

  // The address has the route's prefix: as numbers, both begin with the same bits.
  ghost predicate InPrefix(route: Route, addr: Ip)
    requires Contiguous(route.mask)
  {
    SamePrefix(route.dest, addr, PrefixLength(route.mask))
  }

  // The test of the loop, on a contiguous mask.
  lemma MatchesIff(route: Route, addr: Ip)
    requires Contiguous(route.mask)
    ensures Matches(route, addr) <==> InPrefix(route, addr)
  {
    hide And, PrefixMask, SamePrefix, Contiguous;
    MaskedAgree(route.dest, addr, PrefixLength(route.mask));
  }

  // Entry i has the address in its prefix, which is at least as long as that of every entry that has
  // it, and longer than that of every later one.
  ghost predicate LastLongest(table: seq<Route>, addr: Ip, i: nat)
    requires ContiguousMasks(table)
  {
    && i < |table|
    && InPrefix(table[i], addr)
    && (forall j | 0 <= j < |table| && InPrefix(table[j], addr) ::
          PrefixLength(table[j].mask) <= PrefixLength(table[i].mask))
    && (forall j | i < j < |table| && InPrefix(table[j], addr) ::
          PrefixLength(table[j].mask) < PrefixLength(table[i].mask))
  }

  lemma {:induction false} LargestExists(order: HostOrder, table: seq<Route>, addr: Ip) returns (i: nat)
    requires Routable(table, addr)
    ensures LastLargest(order, table, addr, i)
  {
    hide Matches, Raw;
    var last := |table| - 1;
    var front := table[..last];
    if Routable(front, addr) {
      i := LargestExists(order, front, addr);
      if Matches(table[last], addr) && Raw(order, table[i].mask) <= Raw(order, table[last].mask) {
        i := last;
      }
    } else {
      assert forall j | 0 <= j < last :: table[j] == front[j];
      i := last;
    }
  }

  lemma SomeLargest(order: HostOrder, table: seq<Route>, addr: Ip)
    requires Routable(table, addr)
    ensures exists i: nat :: LastLargest(order, table, addr, i)
  {
    var i := LargestExists(order, table, addr);
  }

  // The index of the selected entry.
  ghost function SelectedIndex(order: HostOrder, table: seq<Route>, addr: Ip): (i: nat)
    requires Routable(table, addr)
    ensures LastLargest(order, table, addr, i)
  {
    SomeLargest(order, table, addr);
    var i: nat :| LastLargest(order, table, addr, i);
    i
  }

  // The route selected for an address.
  ghost function Lookup(order: HostOrder, table: seq<Route>, addr: Ip): Option<Route> {
    if Routable(table, addr) then Some(table[SelectedIndex(order, table, addr)]) else None
  }

  lemma LargestUnique(order: HostOrder, table: seq<Route>, addr: Ip, i: nat, j: nat)
    requires LastLargest(order, table, addr, i) && LastLargest(order, table, addr, j)
    ensures i == j
  {
    hide Matches, Raw;
  }

  // On contiguous masks, in either byte order, the numeric rule is the prefix length rule.
  lemma LargestIsLongest(order: HostOrder, table: seq<Route>, addr: Ip, i: nat)
    requires ContiguousMasks(table)
    ensures LastLargest(order, table, addr, i) <==> LastLongest(table, addr, i)
  {
    hide Matches, InPrefix, Raw, PrefixMask, Contiguous;
    forall j | 0 <= j < |table| ensures Matches(table[j], addr) <==> InPrefix(table[j], addr) {
      MatchesIff(table[j], addr);
    }
    forall j, k | 0 <= j < |table| && 0 <= k < |table|
      ensures Raw(order, table[j].mask) <= Raw(order, table[k].mask) <==>
              PrefixLength(table[j].mask) <= PrefixLength(table[k].mask)
    {
      MaskOrder(order, PrefixLength(table[j].mask), PrefixLength(table[k].mask));
    }
  }

  // No route is selected exactly when the address is in no route's prefix.
  lemma NoRouteIff(order: HostOrder, table: seq<Route>, addr: Ip)
    requires ContiguousMasks(table)
    ensures Lookup(order, table, addr).None? <==> forall i | 0 <= i < |table| :: !InPrefix(table[i], addr)
  {
    hide Matches, InPrefix, LastLargest;
    forall i | 0 <= i < |table| ensures Matches(table[i], addr) <==> InPrefix(table[i], addr) {
      MatchesIff(table[i], addr);
    }
  }

  // The selected route is the last one of maximal prefix length, whatever the byte order.
  lemma LookupIsLongestPrefix(order: HostOrder, table: seq<Route>, addr: Ip, i: nat)
    requires ContiguousMasks(table)
    requires LastLongest(table, addr, i)
    ensures Lookup(order, table, addr) == Some(table[i])
  {
    hide Matches, InPrefix, LastLargest, LastLongest;
    LargestIsLongest(order, table, addr, i);
    LargestMatches(order, table, addr, i);
    LargestUnique(order, table, addr, i, SelectedIndex(order, table, addr));
  }

  // There is such a route whenever one is selected, so the byte order makes no difference.
  lemma LookupIgnoresOrder(table: seq<Route>, addr: Ip)
    requires ContiguousMasks(table)
    ensures Lookup(LittleEndian, table, addr) == Lookup(BigEndian, table, addr)
  {
    hide Matches, LastLargest, LastLongest;
    if Routable(table, addr) {
      var i := SelectedIndex(LittleEndian, table, addr);
      LargestIsLongest(LittleEndian, table, addr, i);
      LookupIsLongestPrefix(BigEndian, table, addr, i);
    }
  }

  lemma LargestMatches(order: HostOrder, table: seq<Route>, addr: Ip, i: nat)
    requires LastLargest(order, table, addr, i)
    ensures i < |table| && Matches(table[i], addr) && Routable(table, addr)
  {
    hide Matches, Raw;
  }

  // Every address the selected route covers is covered by every other matching route.
  lemma SelectedIsMostSpecific(order: HostOrder, table: seq<Route>, addr: Ip, other: Route, a: Ip)
    requires ContiguousMasks(table)
    requires other in table && InPrefix(other, addr)
    ensures Lookup(order, table, addr).Some?
    ensures var route := Lookup(order, table, addr).value;
            Contiguous(route.mask) && (InPrefix(route, a) ==> InPrefix(other, a))
  {
    hide Matches, SamePrefix, PrefixMask, Raw, LastLargest, Contiguous;
    MatchesIff(other, addr);
    var k :| 0 <= k < |table| && table[k] == other;
    var i := SelectedIndex(order, table, addr);
    LargestMatches(order, table, addr, i);
    LargestIsLongest(order, table, addr, i);
    if InPrefix(table[i], a) {
      Narrower(other, table[i], addr, a);
    }
  }

  lemma Narrower(wide: Route, narrow: Route, addr: Ip, a: Ip)
    requires Contiguous(wide.mask) && Contiguous(narrow.mask)
    requires PrefixLength(wide.mask) <= PrefixLength(narrow.mask)
    requires InPrefix(wide, addr) && InPrefix(narrow, addr) && InPrefix(narrow, a)
    ensures InPrefix(wide, a)
  {
    hide Contiguous, DropBits;
    PrefixesNest(addr, a, PrefixLength(wide.mask), PrefixLength(narrow.mask));
  }

  // ---------- The list and its loop ----------

  class RoutingTable {
    var routes: seq<Route>

    constructor ()
      ensures routes == []
    {
      routes := [];
    }

    // sr_add_rt_entry: walk to the end and append.
    method AddEntry(dest: Ip, gw: Ip, mask: Ip, interface: string)
      modifies this
      ensures routes == old(routes) + [Route(dest, gw, mask, interface)]
    {
      routes := routes + [Route(dest, gw, mask, interface)];
    }

    method LongestPrefixMatch(order: HostOrder, addr: Ip) returns (lpm: Option<Route>)
      ensures lpm == Lookup(order, routes, addr)
    {
      hide Matches, Raw;
      var cur, lpmLen := 0, 0;
      lpm := None;
      ghost var best := 0;
      while cur < |routes|
        invariant cur <= |routes|
        invariant lpm.None? ==> !Routable(routes[..cur], addr) && lpmLen == 0
        invariant lpm.Some? ==> LastLargest(order, routes[..cur], addr, best) && lpm.value == routes[best]
        invariant lpm.Some? ==> lpmLen == Raw(order, lpm.value.mask)
      {
        if Matches(routes[cur], addr) && lpmLen <= Raw(order, routes[cur].mask) {
          lpmLen := Raw(order, routes[cur].mask);
          lpm := Some(routes[cur]);
          best := cur;
        }
        cur := cur + 1;
      }
      assert routes[..cur] == routes;
      if lpm.Some? {
        LargestUnique(order, routes, addr, best, SelectedIndex(order, routes, addr));
      }
    }
  }
}
