// The Internet checksum of sr_utils.c: the loop itself, its arithmetic modulo 65535, and the
// fact that the stored bytes do not depend on the byte order in which words are summed.

module Checksum {
  import opened Machine

  // ---------- Host representation ----------

  function Swap16(x: uint16): (y: uint16)
    ensures y / 0x100 == x % 0x100 && y % 0x100 == x / 0x100
  {
    x % 0x100 * 0x100 + x / 0x100
  }

  function Htons(order: HostOrder, x: uint16): uint16 {
    if order.LittleEndian? then Swap16(x) else x
  }

  // The two bytes of memory behind a 16-bit variable, and back.
  function Store16(order: HostOrder, x: uint16): (s: seq<byte>)
    ensures |s| == 2
  {
    if order.LittleEndian? then [x % 0x100, x / 0x100] else [x / 0x100, x % 0x100]
  }

  function Load16(order: HostOrder, b0: byte, b1: byte): uint16 {
    if order.LittleEndian? then Word(b1, b0) else Word(b0, b1)
  }

  lemma Store16Injective(order: HostOrder, x: uint16, y: uint16)
    ensures Store16(order, x) == Store16(order, y) <==> x == y
  {
    var s, t := Store16(order, x), Store16(order, y);
    assert s == t ==> s[0] == t[0] && s[1] == t[1];
  }

  lemma LoadStore(order: HostOrder, b0: byte, b1: byte)
    ensures Store16(order, Load16(order, b0, b1)) == [b0, b1]
  {
  }

  // ---------- Specification ----------

  function Word(high: byte, low: byte): uint16 {
    0x100 * high as int + low as int
  }

  function WordSum(data: seq<byte>): nat {
    if |data| == 0 then 0
    else if |data| == 1 then Word(data[0], 0)
    else Word(data[0], data[1]) + WordSum(data[2..])
  }

  // The same sum over words read with the other byte order.
  function WordSumSwapped(data: seq<byte>): nat {
    if |data| == 0 then 0
    else if |data| == 1 then Word(0, data[0])
    else Word(data[1], data[0]) + WordSumSwapped(data[2..])
  }

  function FoldOnce(x: nat): nat {
    x / 0x1_0000 + x % 0x1_0000
  }

  function Fold(x: nat): uint16 {
    if x <= 0xffff then x else Fold(FoldOnce(x))
  }

  // One's complement of the one's complement sum.
  function Complement(x: nat): uint16 {
    0xffff - Fold(x)
  }

  // The bytes of a checksum field, most significant first.
  function ChecksumBytes(data: seq<byte>): (s: seq<byte>)
    ensures |s| == 2
  {
    Store16(BigEndian, Complement(WordSum(data)))
  }

  // ---------- Arithmetic modulo 65535 ----------

  lemma {:induction false} FoldProperties(x: nat)
    ensures Fold(x) % 0xffff == x % 0xffff
    ensures Fold(x) == 0 <==> x == 0
  {
    if x > 0xffff {
      assert x == FoldOnce(x) + 0xffff * (x / 0x1_0000);
      ResidueShift(FoldOnce(x), x / 0x1_0000);
      FoldProperties(FoldOnce(x));
    }
  }

  lemma SmallResidue(x: uint16)
    ensures x as int % 0xffff == if x == 0xffff then 0 else x as int
  {
  }

  lemma ResidueShift(x: int, k: int)
    ensures (x + 0xffff * k) % 0xffff == x % 0xffff
  {
  }

  // A folded value is determined by the residue and by whether the sum is zero.
  lemma FoldUnique(x: nat, f: uint16)
    requires x % 0xffff == f as int % 0xffff
    requires x == 0 <==> f == 0
    ensures Fold(x) == f
  {
    hide Fold;
    FoldProperties(x);
    SmallResidue(Fold(x));
    SmallResidue(f);
  }

  lemma FoldTwice(x: nat)
    requires x < 0x1_0000_0000
    ensures FoldOnce(FoldOnce(x)) <= 0xffff
    ensures Fold(x) == if x <= 0xffff then x else if FoldOnce(x) <= 0xffff then FoldOnce(x) else FoldOnce(FoldOnce(x))
  {
  }

  // An odd byte at the end counts as if a zero byte followed it.
  lemma {:induction false} OddIsPadded(data: seq<byte>)
    requires |data| % 2 == 1
    ensures WordSum(data) == WordSum(data + [0])
  {
    if |data| == 1 {
      assert (data + [0])[2..] == [];
    } else {
      assert (data + [0])[2..] == data[2..] + [0];
      OddIsPadded(data[2..]);
    }
  }

  // The example of section 3 of RFC 1071.
  lemma ExampleSum()
    ensures var data := [0x00, 0x01, 0xF2, 0x03, 0xF4, 0xF5, 0xF6, 0xF7];
            WordSum(data) == 0x2DDF0 && Fold(WordSum(data)) == 0xDDF2 && ChecksumBytes(data) == [0x22, 0x0D]
  {
    var data := [0x00, 0x01, 0xF2, 0x03, 0xF4, 0xF5, 0xF6, 0xF7];
    assert data[2..] == [0xF2, 0x03, 0xF4, 0xF5, 0xF6, 0xF7];
    assert data[2..][2..] == [0xF4, 0xF5, 0xF6, 0xF7];
    assert data[2..][2..][2..] == [0xF6, 0xF7];
    assert WordSum([0xF6, 0xF7]) == 0xF6F7;
    assert WordSum([0xF4, 0xF5, 0xF6, 0xF7]) == 0x1EBEC;
    assert WordSum([0xF2, 0x03, 0xF4, 0xF5, 0xF6, 0xF7]) == 0x2DDEF;
    assert Fold(0x2DDF0) == Fold(0xDDF2) == 0xDDF2;
  }

  // ---------- The 32-bit accumulator ----------

  lemma {:induction false} WordSumBound(data: seq<byte>)
    ensures WordSum(data) <= (|data| + 1) / 2 * 0xffff
  {
    if |data| > 1 {
      WordSumBound(data[2..]);
    }
  }

  function AllOnes(n: nat): seq<byte> {
    seq(n, _ => 0xff)
  }

  lemma {:induction false} WordSumAllOnes(n: nat)
    ensures WordSum(AllOnes(n)) == n / 2 * 0xffff + n % 2 * 0xff00
  {
    if n > 1 {
      assert AllOnes(n)[2..] == AllOnes(n - 2);
      WordSumAllOnes(n - 2);
    }
  }

  // The accumulator is exact for every buffer of n bytes precisely when n is at most 131074.
  lemma AccumulatorExact(n: nat)
    ensures (forall data: seq<byte> | |data| == n :: WordSum(data) < 0x1_0000_0000) <==> n <= 131074
  {
    if n <= 131074 {
      forall data: seq<byte> | |data| == n ensures WordSum(data) < 0x1_0000_0000 {
        WordSumBound(data);
      }
    } else {
      WordSumAllOnes(n);
      assert |AllOnes(n)| == n;
    }
  }

  // ---------- Byte order independence ----------

  function HighSum(data: seq<byte>): nat {
    if |data| == 0 then 0
    else data[0] as int + if |data| == 1 then 0 else HighSum(data[2..])
  }

  lemma {:induction false} SwappedSum(data: seq<byte>)
    ensures 0x100 * WordSum(data) == WordSumSwapped(data) + 0xffff * HighSum(data)
    ensures WordSum(data) == 0 <==> WordSumSwapped(data) == 0
  {
    if |data| > 1 {
      SwappedSum(data[2..]);
    }
  }

  lemma SwapIsTimes256(x: uint16)
    ensures 0x100 * x as int == Swap16(x) as int + 0xffff * (x as int / 0x100)
    ensures Swap16(0xffff - x) == 0xffff - Swap16(x)
    ensures Swap16(x) == 0 <==> x == 0
  {
  }

  lemma FoldSwaps(data: seq<byte>)
    ensures Fold(WordSumSwapped(data)) == Swap16(Fold(WordSum(data)))
  {
    hide Fold, Swap16;
    var s, l, h := WordSum(data), WordSumSwapped(data), HighSum(data);
    var f := Fold(s);
    SwappedSum(data);
    SwapIsTimes256(f);
    FoldProperties(s);
    FoldProperties(l);
    assert Swap16(f) as int % 0xffff == l % 0xffff by {
      var q: int := s / 0xffff - f as int / 0xffff;
      assert s == f as int + 0xffff * q;
      assert l == Swap16(f) as int + 0xffff * (f as int / 0x100 + 0x100 * q - h);
      ResidueShift(Swap16(f) as int, f as int / 0x100 + 0x100 * q - h);
    }
    FoldUnique(l, Swap16(f));
  }

  // Summing words in the other byte order and storing the complement as a native variable of
  // that order leaves the same two bytes in memory.
  lemma ByteOrderIndependence(data: seq<byte>)
    ensures Store16(LittleEndian, Complement(WordSumSwapped(data))) == ChecksumBytes(data)
  {
    hide Fold, Swap16;
    FoldSwaps(data);
    SwapIsTimes256(Fold(WordSum(data)));
    HtonsStores(LittleEndian, Complement(WordSum(data)));
  }

  lemma HtonsStores(order: HostOrder, x: uint16)
    ensures Store16(order, Htons(order, x)) == Store16(BigEndian, x)
  {
  }

  // ---------- The loop ----------

  // A 32-bit unsigned accumulator keeps its value modulo 2^32.
  function Wrap32(x: nat): uint32 {
    x % 0x1_0000_0000
  }

  lemma WrapAdd(total: nat, w: nat)
    ensures Wrap32(Wrap32(total) + w) == Wrap32(total + w)
  {
  }

  method Cksum(order: HostOrder, data: array<byte>, start: nat, length: nat) returns (result: uint16)
    requires start + length <= data.Length
    ensures result == Htons(order, Complement(Wrap32(WordSum(data[start..start + length]))))
  {
    var sum := SumWords(data, start, length);
    var folded := FoldSum(sum);
    result := Htons(order, 0xffff - folded);
  }

  // The adding loop of cksum, with the odd byte padded on the right.
  method SumWords(data: array<byte>, start: nat, length: nat) returns (sum: uint32)
    requires start + length <= data.Length
    ensures sum == Wrap32(WordSum(data[start..start + length]))
  {
    hide Wrap32, Word;
    assert Wrap32(0) == 0 by { WrapSmall(0); }
    var p, len := start, length;
    ghost var total: nat, all := 0, data[start..start + length];
    sum := 0;
    while len >= 2
      invariant start <= p && p + len == start + length
      invariant total + WordSum(data[p..p + len]) == WordSum(all)
      invariant sum == Wrap32(total)
    {
      assert data[p..p + len][2..] == data[p + 2..p + len];
      var w := Word(data[p], data[p + 1]);
      WrapAdd(total, w);
      sum := Wrap32(sum + w);
      total := total + w;
      p, len := p + 2, len - 2;
    }
    if len > 0 {
      assert data[p..p + len] == [data[p]];
      WrapAdd(total, Word(data[p], 0));
      sum := Wrap32(sum + Word(data[p], 0));
      total := total + Word(data[p], 0);
    }
  }

  lemma WrapSmall(x: nat)
    requires x < 0x1_0000_0000
    ensures Wrap32(x) == x
  {
  }

  method FoldSum(start: uint32) returns (sum: uint16)
    ensures sum == Fold(start)
  {
    var wide: uint32 := start;
    while wide > 0xffff
      invariant Fold(wide) == Fold(start)
    {
      wide := wide / 0x1_0000 + wide % 0x1_0000;
    }
    sum := wide;
  }

  // For every buffer the accumulator holds exactly, the stored bytes are the checksum of the data
  // whatever the byte order of the host.
  lemma CksumStores(order: HostOrder, data: seq<byte>)
    requires |data| <= 131074
    ensures Store16(order, Htons(order, Complement(Wrap32(WordSum(data))))) == ChecksumBytes(data)
  {
    hide Fold, WordSum, Wrap32, Htons, Store16;
    WordSumBound(data);
    WrapSmall(WordSum(data));
    HtonsStores(order, Complement(WordSum(data)));
  }
}
