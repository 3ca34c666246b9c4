// SHA-1 as FIPS PUB 180-1 defines it: padding (section 4), the message schedule and the
// eighty rounds (sections 5 and 6), and the hash of a whole message.

module Sha1Spec {
  import opened Machine

  // The five chaining words H0..H4.
  datatype Digest = Digest(a: bv32, b: bv32, c: bv32, d: bv32, e: bv32)

  const IV := Digest(0x67452301, 0xEFCDAB89, 0x98BADCFE, 0x10325476, 0xC3D2E1F0)

  const BLOCK := 64

  // Two to the 61: the number of bytes whose bit count no longer fits the 64-bit length.
  const TOO_LONG: nat := 0x2000_0000_0000_0000

  // ---------- Rounds ----------

  function BigEndianWord(b0: byte, b1: byte, b2: byte, b3: byte): bv32 {
    ((b0 as bv32) << 24) | ((b1 as bv32) << 16) | ((b2 as bv32) << 8) | (b3 as bv32)
  }

  function Mix(w: bv32, x: bv32, y: bv32, z: bv32): bv32 {
    CircularShift(1, w ^ x ^ y ^ z)
  }

  function ScheduleWord(block: seq<byte>, t: nat): bv32
    requires |block| == BLOCK
  {
    if t < 16 then
      BigEndianWord(block[4 * t], block[4 * t + 1], block[4 * t + 2], block[4 * t + 3])
    else
      Mix(ScheduleWord(block, t - 3), ScheduleWord(block, t - 8), ScheduleWord(block, t - 14),
          ScheduleWord(block, t - 16))
  }

  // S^n(X): circular left shift of a 32-bit word.
  function CircularShift(bits: nat, word: bv32): bv32
    requires 0 < bits < 32
  {
    ((word << bits) & 0xFFFFFFFF) | (word >> (32 - bits))
  }

  lemma CircularShiftRotates(word: bv32)
    ensures CircularShift(1, word) == word.RotateLeft(1)
    ensures CircularShift(5, word) == word.RotateLeft(5)
    ensures CircularShift(30, word) == word.RotateLeft(30)
  {
  }

  // The three logical functions of section 5, and addition modulo 2^32 of five words.
  function Choose(b: bv32, c: bv32, d: bv32): bv32 { (b & c) | (!b & d) }

  function Parity(b: bv32, c: bv32, d: bv32): bv32 { b ^ c ^ d }

  function Majority(b: bv32, c: bv32, d: bv32): bv32 { (b & c) | (b & d) | (c & d) }

  function Sum(u: bv32, v: bv32, x: bv32, y: bv32, z: bv32): bv32 { u + v + x + y + z }

  // Where b has ones the choice is c, where it has zeros it is d.
  lemma ChooseSelects(b: bv32, c: bv32, d: bv32)
    ensures b & Choose(b, c, d) == b & c
    ensures !b & Choose(b, c, d) == !b & d
  {
  }

  // Where two of the three agree, the majority is what they agree on.
  lemma MajorityAgrees(b: bv32, c: bv32, d: bv32)
    ensures !(b ^ c) & Majority(b, c, d) == !(b ^ c) & b
    ensures !(c ^ d) & Majority(b, c, d) == !(c ^ d) & c
    ensures !(b ^ d) & Majority(b, c, d) == !(b ^ d) & d
  {
  }

  function F(t: nat, b: bv32, c: bv32, d: bv32): bv32 {
    if t < 20 then Choose(b, c, d)
    else if t < 40 then Parity(b, c, d)
    else if t < 60 then Majority(b, c, d)
    else Parity(b, c, d)
  }

  function K(t: nat): bv32 {
    if t < 20 then 0x5A827999
    else if t < 40 then 0x6ED9EBA1
    else if t < 60 then 0x8F1BBCDC
    else 0xCA62C1D6
  }

  function Round(t: nat, w: bv32, s: Digest): Digest {
    Digest(Sum(CircularShift(5, s.a), F(t, s.b, s.c, s.d), s.e, w, K(t)), s.a, CircularShift(30, s.b), s.c, s.d)
  }

  lemma ScheduleStep(block: seq<byte>, t: nat)
    requires |block| == BLOCK && 16 <= t
    ensures ScheduleWord(block, t) ==
            Mix(ScheduleWord(block, t - 3), ScheduleWord(block, t - 8), ScheduleWord(block, t - 14),
                ScheduleWord(block, t - 16))
  {
    hide Mix;
  }

  // The working registers after the first t rounds.
  function Rounds(block: seq<byte>, h: Digest, t: nat): Digest
    requires |block| == BLOCK
  {
    if t == 0 then h else Round(t - 1, ScheduleWord(block, t - 1), Rounds(block, h, t - 1))
  }

  function AddWords(x: bv32, y: bv32): bv32 { x + y }

  function AddDigest(h: Digest, s: Digest): Digest {
    Digest(AddWords(h.a, s.a), AddWords(h.b, s.b), AddWords(h.c, s.c), AddWords(h.d, s.d), AddWords(h.e, s.e))
  }

  function Compress(h: Digest, block: seq<byte>): Digest
    requires |block| == BLOCK
  {
    AddDigest(h, Rounds(block, h, 80))
  }

  // ---------- Messages ----------

  function Zeros(n: nat): (z: seq<byte>)
    ensures |z| == n
  {
    seq(n, _ => 0)
  }

  function BigEndian32(x: uint32): (s: seq<byte>)
    ensures |s| == 4
  {
    [x / 0x100_0000 % 0x100, x / 0x1_0000 % 0x100, x / 0x100 % 0x100, x % 0x100]
  }

  lemma BigEndian32Value(x: uint32)
    ensures x as int == var s := BigEndian32(x);
              0x100_0000 * (s[0] as int) + 0x1_0000 * (s[1] as int) + 0x100 * (s[2] as int) + s[3] as int
  {
    var h := x / 0x100;
    var g := h / 0x100;
    assert x / 0x1_0000 == g && x / 0x100_0000 == g / 0x100;
    assert g / 0x100 < 0x100;
  }

  // The 64-bit big-endian bit count that closes the padding.
  function LengthField(bits: nat): (s: seq<byte>)
    requires bits < 0x1_0000_0000_0000_0000
    ensures |s| == 8
  {
    BigEndian32(bits / 0x1_0000_0000) + BigEndian32(bits % 0x1_0000_0000)
  }

  lemma LengthFieldHalves(high: uint32, low: uint32)
    ensures LengthField(high * 0x1_0000_0000 + low) == BigEndian32(high) + BigEndian32(low)
  {
    hide BigEndian32;
    var bits: int := high * 0x1_0000_0000 + low;
    assert bits / 0x1_0000_0000 == high && bits % 0x1_0000_0000 == low;
  }

  // Number of zero bytes between the 0x80 marker and the length field.
  function ZeroCount(n: nat): nat {
    (119 - n % BLOCK) % BLOCK
  }

  function Pad(msg: seq<byte>): seq<byte>
    requires |msg| < TOO_LONG
  {
    msg + [0x80] + Zeros(ZeroCount(|msg|)) + LengthField(8 * |msg|)
  }

  lemma ZeroCountFills(n: nat)
    ensures (n + 9 + ZeroCount(n)) % BLOCK == 0
    ensures ZeroCount(n) == if n % BLOCK <= 55 then 55 - n % BLOCK else 119 - n % BLOCK
  {
    var r := n % BLOCK;
    if r <= 55 {
      assert (119 - r) % BLOCK == 55 - r;
      assert n + 64 - r == BLOCK * (n / BLOCK + 1);
    } else {
      assert (119 - r) % BLOCK == 119 - r;
      assert n + 128 - r == BLOCK * (n / BLOCK + 2);
    }
  }

  lemma PadIsWholeBlocks(msg: seq<byte>)
    requires |msg| < TOO_LONG
    ensures |Pad(msg)| % BLOCK == 0
    ensures |msg| + 9 <= |Pad(msg)| < |msg| + 9 + BLOCK
  {
    var n := |msg|;
    assert |Pad(msg)| == n + 9 + ZeroCount(n);
    ZeroCountFills(n);
  }

  // The padded message cut into the blocks that are compressed, first block first.
  function Blocks(data: seq<byte>): (bs: seq<seq<byte>>)
    requires |data| % BLOCK == 0
    ensures |bs| * BLOCK == |data|
    ensures forall i | 0 <= i < |bs| :: |bs[i]| == BLOCK
  {
    if data == [] then [] else [data[..BLOCK]] + Blocks(data[BLOCK..])
  }

  function PaddedBlocks(msg: seq<byte>): seq<seq<byte>>
    requires |msg| < TOO_LONG
  {
    PadIsWholeBlocks(msg);
    Blocks(Pad(msg))
  }

  function FoldCompress(h: Digest, blocks: seq<seq<byte>>): Digest
    requires forall i | 0 <= i < |blocks| :: |blocks[i]| == BLOCK
    decreases |blocks|
  {
    if blocks == [] then h else FoldCompress(Compress(h, blocks[0]), blocks[1..])
  }

  // The digest of a message: its padded blocks compressed in order, from the fixed start value.
  function Hash(msg: seq<byte>): Digest
    requires |msg| < TOO_LONG
  {
    FoldCompress(IV, PaddedBlocks(msg))
  }

  function Flatten(chunks: seq<seq<byte>>): seq<byte> {
    if chunks == [] then [] else Flatten(chunks[..|chunks| - 1]) + chunks[|chunks| - 1]
  }

  // ---------- Padding is injective ----------

  lemma BigEndian32Injective(x: uint32, y: uint32)
    requires BigEndian32(x) == BigEndian32(y)
    ensures x == y
  {
    BigEndian32Value(x);
    BigEndian32Value(y);
  }

  lemma LengthFieldInjective(m: nat, n: nat)
    requires m < 0x1_0000_0000_0000_0000 && n < 0x1_0000_0000_0000_0000
    requires LengthField(m) == LengthField(n)
    ensures m == n
  {
    assert LengthField(m)[..4] == BigEndian32(m / 0x1_0000_0000);
    assert LengthField(n)[..4] == BigEndian32(n / 0x1_0000_0000);
    assert LengthField(m)[4..] == BigEndian32(m % 0x1_0000_0000);
    assert LengthField(n)[4..] == BigEndian32(n % 0x1_0000_0000);
    BigEndian32Injective(m / 0x1_0000_0000, n / 0x1_0000_0000);
    BigEndian32Injective(m % 0x1_0000_0000, n % 0x1_0000_0000);
  }

  lemma BlocksInjective(x: seq<byte>, y: seq<byte>)
    requires |x| % BLOCK == 0 && |y| % BLOCK == 0
    requires Blocks(x) == Blocks(y)
    ensures x == y
  {
    if x != [] {
      assert y != [];
      assert x[..BLOCK] == Blocks(x)[0] == Blocks(y)[0] == y[..BLOCK];
      assert Blocks(x[BLOCK..]) == Blocks(x)[1..] == Blocks(y)[1..] == Blocks(y[BLOCK..]);
      BlocksInjective(x[BLOCK..], y[BLOCK..]);
      assert x == x[..BLOCK] + x[BLOCK..] && y == y[..BLOCK] + y[BLOCK..];
    }
  }

  // Two messages whose padded block sequences agree are the same message.
  lemma PadInjective(m: seq<byte>, n: seq<byte>)
    requires |m| < TOO_LONG && |n| < TOO_LONG
    requires PaddedBlocks(m) == PaddedBlocks(n)
    ensures m == n
  {
    PadIsWholeBlocks(m);
    PadIsWholeBlocks(n);
    BlocksInjective(Pad(m), Pad(n));
    var p := Pad(m);
    assert p[|p| - 8..] == LengthField(8 * |m|);
    assert p[|p| - 8..] == LengthField(8 * |n|) by { assert p == Pad(n); }
    LengthFieldInjective(8 * |m|, 8 * |n|);
    assert m == p[..|m|] == n;
  }

  // ---------- The hash folds the blocks in message order ----------

  lemma {:induction false} BlocksSnoc(data: seq<byte>, last: seq<byte>)
    requires |data| % BLOCK == 0 && |last| == BLOCK
    ensures |data + last| % BLOCK == 0
    ensures Blocks(data + last) == Blocks(data) + [last]
  {
    if data == [] {
      assert data + last == last && last[..BLOCK] == last && last[BLOCK..] == [];
    } else {
      BlocksSnoc(data[BLOCK..], last);
      assert (data + last)[..BLOCK] == data[..BLOCK];
      assert (data + last)[BLOCK..] == data[BLOCK..] + last;
    }
  }

  lemma {:induction false} FoldSnoc(h: Digest, blocks: seq<seq<byte>>, last: seq<byte>)
    requires forall i | 0 <= i < |blocks| :: |blocks[i]| == BLOCK
    requires |last| == BLOCK
    ensures FoldCompress(h, blocks + [last]) == Compress(FoldCompress(h, blocks), last)
    decreases |blocks|
  {
    if blocks == [] {
      assert [last][1..] == [];
    } else {
      assert (blocks + [last])[1..] == blocks[1..] + [last];
      FoldSnoc(Compress(h, blocks[0]), blocks[1..], last);
    }
  }

  // The same fold seen from the last block: the form in which a stream grows.
  function HashBlocks(data: seq<byte>): Digest
    requires |data| % BLOCK == 0
  {
    if data == [] then IV
    else Compress(HashBlocks(data[..|data| - BLOCK]), data[|data| - BLOCK..])
  }

  lemma HashBlocksSnoc(data: seq<byte>, last: seq<byte>)
    requires |data| % BLOCK == 0 && |last| == BLOCK
    ensures |data + last| % BLOCK == 0
    ensures HashBlocks(data + last) == Compress(HashBlocks(data), last)
  {
    hide Compress;
    assert (data + last)[..|data|] == data && (data + last)[|data|..] == last;
  }

  lemma {:induction false} HashBlocksIsFold(data: seq<byte>)
    requires |data| % BLOCK == 0
    ensures HashBlocks(data) == FoldCompress(IV, Blocks(data))
  {
    if data != [] {
      var front, last := data[..|data| - BLOCK], data[|data| - BLOCK..];
      HashBlocksIsFold(front);
      BlocksSnoc(front, last);
      FoldSnoc(IV, Blocks(front), last);
      assert data == front + last;
    }
  }

  // The last block or blocks of a padded message whose whole blocks are `front`.
  lemma PadShortTail(front: seq<byte>, tail: seq<byte>)
    requires |front| % BLOCK == 0 && |tail| <= 55 && |front + tail| < TOO_LONG
    ensures var last := tail + [0x80] + Zeros(55 - |tail|) + LengthField(8 * |front + tail|);
            |last| == BLOCK && Pad(front + tail) == front + last
  {
    ZeroCountFills(|front + tail|);
    assert |front + tail| % BLOCK == |tail|;
  }

  lemma PadLongTail(front: seq<byte>, tail: seq<byte>)
    requires |front| % BLOCK == 0 && 55 < |tail| < BLOCK && |front + tail| < TOO_LONG
    ensures var mid := tail + [0x80] + Zeros(63 - |tail|);
            var last := Zeros(56) + LengthField(8 * |front + tail|);
            |mid| == BLOCK && |last| == BLOCK && Pad(front + tail) == front + mid + last
  {
    ZeroCountFills(|front + tail|);
    assert |front + tail| % BLOCK == |tail|;
    assert Zeros(119 - |tail|) == Zeros(63 - |tail|) + Zeros(56);
  }
}
