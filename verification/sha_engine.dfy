/** The streaming digester: bytes are fed one at a time, every full 64-byte block is
    compressed into the running hash state as soon as it is complete, and `Digest`
    pads what is left and produces the 32-byte hash. */
module ShaEngine {
  import opened ShaPrimitives
  import opened ShaSpec

  /** The message schedule W0..W63 of one block: sixteen big-endian words read from
      the block, then the recurrence of FIPS 180-4 section 6.2.2, step 1. */
  method MessageSchedule(block: seq<Byte>) returns (sched: array<Word>)
    requires |block| == BlockSizeBytes
    ensures fresh(sched) && sched[..] == Schedule(block)
  {
    sched := new Word[64];
    ghost var w := Schedule(block);
    var i := 0;
    while i < 16
      invariant 0 <= i <= 16
      invariant forall j :: 0 <= j < i ==> sched[j] == w[j]
    {
      ScheduleRecurrence(block, i);
      sched[i] := WordOfBytes(block[4 * i .. 4 * i + 4]);
      i := i + 1;
    }
    var t := 16;
    while t < 64
      invariant 16 <= t <= 64
      invariant forall j :: 0 <= j < t ==> sched[j] == w[j]
    {
      ScheduleRecurrence(block, t);
      sched[t] := Add(Add(Add(LSigma1(sched[t - 2]), sched[t - 7]), LSigma0(sched[t - 15])), sched[t - 16]);
      t := t + 1;
    }
    assert sched[..] == w;
  }

  /** The 64 rounds of FIPS 180-4 section 6.2.2, steps 2 and 3, on working variables
      initialised from the hash state `h`. */
  method RunRounds(h: seq<Word>, sched: array<Word>) returns (v: Working)
    requires |h| == 8 && sched.Length == 64
    ensures v == Rounds(WorkingOf(h), sched[..], 64)
  {
    var a, b, c, d, e, f, g, hh := h[0], h[1], h[2], h[3], h[4], h[5], h[6], h[7];
    var t := 0;
    while t < 64
      invariant 0 <= t <= 64
      invariant Working(a, b, c, d, e, f, g, hh) == Rounds(WorkingOf(h), sched[..], t)
    {
      var t1 := Add(Add(Add(Add(hh, BSigma1(e)), Ch(e, f, g)), K[t]), sched[t]);
      var t2 := Add(BSigma0(a), Maj(a, b, c));
      hh := g;
      g := f;
      f := e;
      e := Add(d, t1);
      d := c;
      c := b;
      b := a;
      a := Add(t1, t2);
      t := t + 1;
    }
    v := Working(a, b, c, d, e, f, g, hh);
  }

  class Sha256Digestion {
    /** The running hash state H0..H7, a fixed array updated in place. */
    const hashState: array<Word>
    /** The bytes of the block being read, not yet compressed. */
    var readingBlock: seq<Byte>
    /** Number of bits fed so far, a `u64`. */
    var bitCount: nat
    /** Every byte already compressed into `hashState`, a whole number of blocks. */
    ghost var Compressed: seq<Byte>

    /** Every byte fed so far. */
    ghost function Fed(): seq<Byte>
      reads this
    {
      Compressed + readingBlock
    }

    /** The state summarises the bytes fed: the hash state is the fold of the
        compression function over all complete blocks, the reading block holds the
        incomplete rest, and the bit count is eight times the number of bytes. */
    ghost predicate Valid()
      reads this, hashState
    {
      hashState.Length == 8 &&
      |Compressed| % BlockSizeBytes == 0 &&
      |readingBlock| < BlockSizeBytes &&
      hashState[..] == HashBlocks(InitialHashState, Compressed) &&
      bitCount == 8 * |Fed()| && bitCount < TwoTo64
    }

    /** What Valid means for the stream: after `n` bytes the reading block holds the
        last `n % 64` of them, and the hash state is the fold of the compression
        function over the first `n / 64` blocks. */
    lemma ValidSplitsFed()
      requires Valid()
      ensures readingBlock == Fed()[BlockSizeBytes * (|Fed()| / BlockSizeBytes)..]
      ensures hashState[..] == HashBlocks(InitialHashState, Fed()[..BlockSizeBytes * (|Fed()| / BlockSizeBytes)])
    {
      AlignedOffset(|Compressed|, |readingBlock|);
      assert BlockSizeBytes * (|Fed()| / BlockSizeBytes) == |Compressed|;
      assert Fed()[..|Compressed|] == Compressed;
    }

    /** A digester that has been fed nothing: the hash state is H(0). */
    constructor ()
      ensures Valid() && Fed() == [] && fresh(hashState)
      ensures hashState[..] == InitialHashState && readingBlock == [] && bitCount == 0
    {
      var hs := new Word[8];
      var i := 0;
      while i < 8
        invariant 0 <= i <= 8
        invariant hs[..i] == InitialHashState[..i]
      {
        hs[i] := InitialHashState[i];
        i := i + 1;
      }
      hashState := hs;
      readingBlock := [];
      bitCount := 0;
      Compressed := [];
    }

    /** Compresses the full reading block into the hash state: the message schedule,
        64 rounds on the working variables, then the eight wrapping additions. */
    method UpdateHashState()
      requires hashState.Length == 8 && |readingBlock| == BlockSizeBytes
      modifies hashState
      ensures hashState[..] == Compress(old(hashState[..]), readingBlock)
    {
      hide *;
      var sched := MessageSchedule(readingBlock);
      var v := RunRounds(hashState[..], sched);
      CompressOfRounds(hashState[..], readingBlock, v);
      hashState[0] := Add(hashState[0], v.a);
      hashState[1] := Add(hashState[1], v.b);
      hashState[2] := Add(hashState[2], v.c);
      hashState[3] := Add(hashState[3], v.d);
      hashState[4] := Add(hashState[4], v.e);
      hashState[5] := Add(hashState[5], v.f);
      hashState[6] := Add(hashState[6], v.g);
      hashState[7] := Add(hashState[7], v.h);
    }

    /** Compresses the full reading block and clears it: the block moves from the
        reading block to the compressed part of the message. */
    method CompressBlock()
      requires hashState.Length == 8 && |readingBlock| == BlockSizeBytes
      requires |Compressed| % BlockSizeBytes == 0
      requires hashState[..] == HashBlocks(InitialHashState, Compressed)
      modifies this, hashState
      ensures hashState[..] == Compress(old(hashState[..]), old(readingBlock))
      ensures Compressed == old(Compressed) + old(readingBlock) && readingBlock == []
      ensures |Compressed| % BlockSizeBytes == 0
      ensures hashState[..] == HashBlocks(InitialHashState, Compressed)
      ensures bitCount == old(bitCount)
    {
      hide Compress, HashBlocks;
      UpdateHashState();
      HashBlocksAppend(InitialHashState, Compressed, readingBlock);
      AlignedOffset(|Compressed|, BlockSizeBytes);
      Compressed := Compressed + readingBlock;
      readingBlock := [];
    }

    /** Feeds one byte. When it completes a block, the block is compressed and the
        reading block emptied; otherwise the hash state is left alone. The bit count
        must stay within a `u64`. */
    method AddByte(byte: Byte)
      requires Valid() && bitCount + 8 < TwoTo64
      modifies this, hashState
      ensures Valid() && Fed() == old(Fed()) + [byte]
      ensures bitCount == old(bitCount) + 8
      ensures |old(readingBlock)| + 1 == BlockSizeBytes ==>
        readingBlock == [] && hashState[..] == Compress(old(hashState[..]), old(readingBlock) + [byte])
      ensures |old(readingBlock)| + 1 < BlockSizeBytes ==>
        readingBlock == old(readingBlock) + [byte] && hashState[..] == old(hashState[..])
    {
      hide Compress, HashBlocks;
      readingBlock := readingBlock + [byte];
      bitCount := bitCount + 8;
      if |readingBlock| == BlockSizeBytes {
        CompressBlock();
      }
    }

    /** Pushes zero bytes onto the reading block until it holds `limit` bytes. */
    method FillZeros(limit: nat)
      requires |readingBlock| <= limit
      modifies this
      ensures readingBlock == old(readingBlock) + Zeros(limit - |old(readingBlock)|)
      ensures Compressed == old(Compressed) && bitCount == old(bitCount)
    {
      ghost var k: nat := 0;
      while |readingBlock| < limit
        invariant |readingBlock| <= limit && |readingBlock| == |old(readingBlock)| + k
        invariant readingBlock == old(readingBlock) + Zeros(k)
        invariant Compressed == old(Compressed) && bitCount == old(bitCount)
        decreases limit - |readingBlock|
      {
        ZerosAdd(k, 1);
        readingBlock := readingBlock + [0];
        k := k + 1;
      }
    }

    /** Pushes the bit count as eight big-endian bytes, byte `i` of the length
        field at a time. */
    method PushLength()
      requires bitCount < TwoTo64
      modifies this
      ensures Compressed == old(Compressed) && bitCount == old(bitCount)
      ensures readingBlock == old(readingBlock) + LengthBytes(bitCount)
    {
      ghost var len := LengthBytes(bitCount);
      for i := 0 to 8
        invariant readingBlock == old(readingBlock) + len[..i]
        invariant Compressed == old(Compressed) && bitCount == old(bitCount)
      {
        assert len[..i + 1] == len[..i] + [len[i]];
        readingBlock := readingBlock + [LengthBytes(bitCount)[i]];
      }
      assert len[..8] == len;
    }

    /** The 32-byte output: the eight hash state words, each stored as its four
        big-endian bytes. */
    method Output() returns (out: array<Byte>)
      requires hashState.Length == 8
      ensures fresh(out) && out[..] == WordsToBytes(hashState[..])
    {
      hide *;
      out := new Byte[32];
      ghost var bytes := WordsToBytes(hashState[..]);
      for i := 0 to 8
        invariant forall j | 0 <= j < 4 * i :: out[j] == bytes[j]
      {
        var wb := WordBytes(hashState[i]);
        WordsToBytesAt(hashState[..], i);
        for k := 0 to 4
          invariant forall j | 0 <= j < 4 * i + k :: out[j] == bytes[j]
        {
          out[4 * i + k] := wb[k];
        }
      }
      assert out[..] == bytes;
    }

    /** Pads the buffered bytes as the Rust implementation does and returns the 32-byte hash. The
        digester is consumed. A second block is compressed when 56 or more bytes are
        buffered after 0x80, so for a message whose length is 55 modulo 64 this is
        not the SHA-256 of FIPS 180-4 section 5.1.1 (see `ShaSpec.PaddingDeviation`). */
    method Digest() returns (out: array<Byte>)
      requires Valid()
      modifies this, hashState
      ensures fresh(out) && out[..] == Sha256AsWritten(old(Fed()))
    {
      hide Compress, HashBlocks, LengthBytes, Zeros, PaddingAsWritten, WordsToBytes;
      ghost var c0, rb := Compressed, readingBlock;
      PaddedMessagePieces(c0, rb);

      readingBlock := readingBlock + [0x80];
      if |readingBlock| >= BlockSizeBytes - 8 {
        FillZeros(BlockSizeBytes);
        CompressBlock();
      }
      FillZeros(BlockSizeBytes - 8);
      PushLength();
      CompressBlock();
      assert Compressed == c0 + rb + PaddingAsWritten(|c0 + rb|);
      out := Output();
    }

    /** Digest with the comparison made strict: a second block is compressed only
        when more than 56 bytes are buffered after 0x80. This is SHA-256 of the bytes
        fed, for every length. */
    method DigestStandard() returns (out: array<Byte>)
      requires Valid()
      modifies this, hashState
      ensures fresh(out) && out[..] == Sha256(old(Fed()))
    {
      hide Compress, HashBlocks, LengthBytes, Zeros, Padding, WordsToBytes;
      ghost var c0, rb := Compressed, readingBlock;
      PaddedMessagePiecesStandard(c0, rb);

      readingBlock := readingBlock + [0x80];
      if |readingBlock| > BlockSizeBytes - 8 {
        FillZeros(BlockSizeBytes);
        CompressBlock();
      }
      FillZeros(BlockSizeBytes - 8);
      PushLength();
      CompressBlock();
      assert Compressed == c0 + rb + Padding(|c0 + rb|);
      out := Output();
    }
  }
}
