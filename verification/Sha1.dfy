// The streaming SHA-1 context of sha1.c, refining the definition in Sha1Spec.

module Sha1 {
  import opened Machine
  import opened Sha1Spec

  class SHA1Context {
    const digest: array<bv32>   // Message_Digest[5]
    const block: array<byte>    // Message_Block[64]
    var lengthLow: uint32
    var lengthHigh: uint32
    var index: nat              // Message_Block_Index
    var computed: bool
    var corrupted: bool

    // Every byte accepted since the last reset, and the whole blocks of it already compressed.
    ghost var message: seq<byte>
    ghost var hashed: seq<byte>

    ghost predicate Shape() {
      digest.Length == 5 && block.Length == BLOCK && digest as object != block as object
    }

    function DigestValue(): Digest
      reads digest
      requires Shape()
    {
      Digest(digest[0], digest[1], digest[2], digest[3], digest[4])
    }

    ghost predicate CountsBits()
      reads this
    {
      |message| < TOO_LONG && lengthHigh * 0x1_0000_0000 + lengthLow == 8 * |message|
    }

    // While absorbing: whole blocks are already compressed, the rest sits in the block buffer.
    ghost predicate Absorbing()
      reads this, digest, block
      requires Shape()
    {
      && CountsBits()
      && index < BLOCK
      && |hashed| % BLOCK == 0
      && message == hashed + block[..index]
      && DigestValue() == HashBlocks(hashed)
    }

    ghost predicate Valid()
      reads this, digest, block
    {
      && Shape()
      && (!corrupted && !computed ==> Absorbing())
      && (!corrupted && computed ==> |message| < TOO_LONG && DigestValue() == Hash(message))
    }

    constructor ()
      ensures Valid() && fresh(digest) && fresh(block)
      ensures message == [] && !computed && !corrupted
    {
      digest := new bv32[5];
      block := new byte[64];
      new;
      Reset();
    }

    method Reset()
      requires Shape()
      modifies this, digest
      ensures Valid() && message == [] && !computed && !corrupted
    {
      lengthLow := 0;
      lengthHigh := 0;
      index := 0;
      digest[0] := 0x67452301;
      digest[1] := 0xEFCDAB89;
      digest[2] := 0x98BADCFE;
      digest[3] := 0x10325476;
      digest[4] := 0xC3D2E1F0;
      computed := false;
      corrupted := false;
      message := [];
      hashed := [];
    }

    method Result() returns (ok: bool)
      requires Valid()
      modifies this, digest, block
      ensures Valid() && message == old(message) && corrupted == old(corrupted)
      ensures ok == !old(corrupted)
      ensures ok ==> computed && |message| < TOO_LONG && DigestValue() == Hash(message)
    {
      if corrupted {
        return false;
      }
      if !computed {
        PadMessage();
        computed := true;
      }
      return true;
    }

    method Input(chunk: seq<byte>)
      requires Valid() && |chunk| < 0x1_0000_0000
      modifies this, digest, block
      ensures Valid() && computed == old(computed)
      ensures corrupted <==> old(corrupted) || (chunk != [] && (old(computed) || |old(message)| + |chunk| >= TOO_LONG))
      ensures !corrupted ==> message == old(message) + chunk
    {
      hide Hash, HashBlocks, DigestValue;
      if |chunk| == 0 {
        return;
      }
      if computed || corrupted {
        corrupted := true;
        return;
      }
      var i := 0;
      while i < |chunk| && !corrupted
        invariant i <= |chunk|
        invariant Valid() && !computed
        invariant !corrupted ==> message == old(message) + chunk[..i]
        invariant corrupted <==> |old(message)| + i >= TOO_LONG
      {
        Absorb(chunk[i]);
        i := i + 1;
      }
    }

    // One iteration of the loop in SHA1Input.
    method Absorb(x: byte)
      requires Valid() && !computed && !corrupted
      modifies this, digest, block
      ensures Valid() && !computed
      ensures message == old(message) + [x]
      ensures corrupted <==> |message| >= TOO_LONG
    {
      hide Compress, HashBlocks;
      block[index] := x;
      index := index + 1;
      CountByte();
      message := message + [x];
      if index == 64 {
        assert message == hashed + block[..];
        HashBlocksSnoc(hashed, block[..]);
        ProcessMessageBlock();
        hashed := message;
      }
    }

    // The 64-bit bit count, kept in two 32-bit halves.
    method CountByte()
      requires CountsBits() && !corrupted
      modifies this`lengthLow, this`lengthHigh, this`corrupted
      ensures corrupted <==> |message| + 1 >= TOO_LONG
      ensures !corrupted ==> lengthHigh * 0x1_0000_0000 + lengthLow == 8 * (|message| + 1)
    {
      lengthLow := (lengthLow + 8) % 0x1_0000_0000;
      if lengthLow == 0 {
        lengthHigh := (lengthHigh + 1) % 0x1_0000_0000;
        if lengthHigh == 0 {
          corrupted := true;
        }
      }
    }

    method ExpandSchedule() returns (w: array<bv32>)
      requires Shape()
      ensures fresh(w) && w.Length == 80
      ensures forall j | 0 <= j < 80 :: w[j] == ScheduleWord(block[..], j)
    {
      hide Mix, BigEndianWord;
      ghost var blk := block[..];
      w := new bv32[80];
      var t := 0;
      while t < 16
        invariant t <= 16
        invariant forall j | 0 <= j < t :: w[j] == ScheduleWord(blk, j)
      {
        w[t] := BigEndianWord(block[t * 4], block[t * 4 + 1], block[t * 4 + 2], block[t * 4 + 3]);
        t := t + 1;
      }
      hide ScheduleWord;
      while t < 80
        invariant 16 <= t <= 80
        invariant forall j | 0 <= j < t :: w[j] == ScheduleWord(blk, j)
      {
        ScheduleStep(blk, t);
        w[t] := Mix(w[t - 3], w[t - 8], w[t - 14], w[t - 16]);
        t := t + 1;
      }
    }

    method ProcessMessageBlock()
      requires Shape()
      modifies this`index, digest
      ensures index == 0
      ensures DigestValue() == Compress(old(DigestValue()), block[..])
    {
      hide CircularShift, Choose, Parity, Majority, Sum, AddDigest, ScheduleWord;
      ghost var blk, h := block[..], DigestValue();
      var k := [0x5A827999, 0x6ED9EBA1, 0x8F1BBCDC, 0xCA62C1D6];
      var w := ExpandSchedule();
      var a, b, c, d, e := digest[0], digest[1], digest[2], digest[3], digest[4];
      var t := 0;
      while t < 20
        invariant 0 <= t <= 20
        invariant Digest(a, b, c, d, e) == Rounds(blk, h, t)
      {
        var temp := Sum(CircularShift(5, a), Choose(b, c, d), e, w[t], k[0]);
        e := d;
        d := c;
        c := CircularShift(30, b);
        b := a;
        a := temp;
        t := t + 1;
      }
      while t < 40
        invariant 20 <= t <= 40
        invariant Digest(a, b, c, d, e) == Rounds(blk, h, t)
      {
        var temp := Sum(CircularShift(5, a), Parity(b, c, d), e, w[t], k[1]);
        e := d;
        d := c;
        c := CircularShift(30, b);
        b := a;
        a := temp;
        t := t + 1;
      }
      while t < 60
        invariant 40 <= t <= 60
        invariant Digest(a, b, c, d, e) == Rounds(blk, h, t)
      {
        var temp := Sum(CircularShift(5, a), Majority(b, c, d), e, w[t], k[2]);
        e := d;
        d := c;
        c := CircularShift(30, b);
        b := a;
        a := temp;
        t := t + 1;
      }
      while t < 80
        invariant 60 <= t <= 80
        invariant Digest(a, b, c, d, e) == Rounds(blk, h, t)
      {
        var temp := Sum(CircularShift(5, a), Parity(b, c, d), e, w[t], k[3]);
        e := d;
        d := c;
        c := CircularShift(30, b);
        b := a;
        a := temp;
        t := t + 1;
      }
      AddToDigest(a, b, c, d, e);
      index := 0;
    }

    method AddToDigest(a: bv32, b: bv32, c: bv32, d: bv32, e: bv32)
      requires Shape()
      modifies digest
      ensures DigestValue() == AddDigest(old(DigestValue()), Digest(a, b, c, d, e))
    {
      hide AddWords;
      digest[0] := AddWords(digest[0], a);
      digest[1] := AddWords(digest[1], b);
      digest[2] := AddWords(digest[2], c);
      digest[3] := AddWords(digest[3], d);
      digest[4] := AddWords(digest[4], e);
    }

    method PadMessage()
      requires Shape() && Absorbing()
      modifies this`index, digest, block
      ensures DigestValue() == Hash(message)
    {
      hide Compress, LengthField, FoldCompress, Blocks, Pad, HashBlocks;
      ghost var tail, done := block[..index], hashed;
      PadIsWholeBlocks(message);
      HashBlocksIsFold(Pad(message));
      if index > 55 {
        PadLongTail(hashed, tail);
        block[index] := 0x80;
        index := index + 1;
        ZeroFill(64);
        assert block[..] == tail + [0x80] + Zeros(63 - |tail|);
        done := hashed + block[..];
        HashBlocksSnoc(hashed, block[..]);
        ProcessMessageBlock();
        ZeroFill(56);
        assert block[..56] == Zeros(56);
      } else {
        PadShortTail(hashed, tail);
        block[index] := 0x80;
        index := index + 1;
        ZeroFill(56);
        assert block[..56] == tail + [0x80] + Zeros(55 - |tail|);
      }
      assert Pad(message) == done + (block[..56] + LengthField(8 * |message|));
      assert DigestValue() == HashBlocks(done);
      StoreLength();
      HashBlocksSnoc(done, block[..]);
      ProcessMessageBlock();
    }

    method ZeroFill(limit: nat)
      requires Shape() && index <= limit <= BLOCK
      modifies this`index, block
      ensures index == limit
      ensures block[..limit] == old(block[..index]) + Zeros(limit - old(index))
    {
      while index < limit
        invariant old(index) <= index <= limit
        invariant block[..index] == old(block[..index]) + Zeros(index - old(index))
      {
        block[index] := 0;
        index := index + 1;
      }
    }

    method StoreLength()
      requires Shape() && CountsBits()
      modifies block
      ensures block[..] == old(block[..56]) + LengthField(8 * |message|)
    {
      hide LengthField;
      LengthFieldHalves(lengthHigh, lengthLow);
      block[56] := lengthHigh / 0x100_0000 % 0x100;
      block[57] := lengthHigh / 0x1_0000 % 0x100;
      block[58] := lengthHigh / 0x100 % 0x100;
      block[59] := lengthHigh % 0x100;
      block[60] := lengthLow / 0x100_0000 % 0x100;
      block[61] := lengthLow / 0x1_0000 % 0x100;
      block[62] := lengthLow / 0x100 % 0x100;
      block[63] := lengthLow % 0x100;
      assert block[56..60] == BigEndian32(lengthHigh);
      assert block[60..] == BigEndian32(lengthLow);
      assert block[..] == block[..56] + block[56..60] + block[60..];
    }
  }

  // Feeding a message in any pieces and asking for the result yields the hash of the whole
  // message, or a failure exactly when the bit count does not fit 64 bits.
  method HashChunks(chunks: seq<seq<byte>>) returns (ok: bool, digest: Digest)
    requires forall i | 0 <= i < |chunks| :: |chunks[i]| < 0x1_0000_0000
    ensures ok <==> |Flatten(chunks)| < TOO_LONG
    ensures ok ==> digest == Hash(Flatten(chunks))
  {
    var context := new SHA1Context();
    var i := 0;
    while i < |chunks|
      invariant i <= |chunks|
      invariant fresh(context) && fresh(context.digest) && fresh(context.block)
      invariant context.Valid() && !context.computed
      invariant !context.corrupted ==> context.message == Flatten(chunks[..i])
      invariant context.corrupted <==> |Flatten(chunks[..i])| >= TOO_LONG
    {
      assert chunks[..i + 1][..i] == chunks[..i];
      context.Input(chunks[i]);
      i := i + 1;
    }
    assert chunks[..|chunks|] == chunks;
    ok := context.Result();
    digest := context.DigestValue();
  }
}
