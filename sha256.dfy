/**
 * The SHA-256 context of include/littlesmith/crypto/SHA256.h: a running
 * hash value, a buffer holding the bytes of a partial block, and the
 * number of bytes hashed so far. Each operation is proved against the
 * FIPS 180-4 definition in module Fips180.
 */
module Sha256 {
  import opened Words
  import opened Bitwise
  import Fips180

  /** DIGEST_SIZE */
  const DIGEST_SIZE: nat := 256 / 8

  /** SHA224_256_BLOCK_SIZE */
  const BLOCK_SIZE: nat := 512 / 8

  /** sha256_k */
  const SHA256_K: seq<Word> :=
    [0x428a2f98, 0x71374491, 0xb5c0fbcf, 0xe9b5dba5, 0x3956c25b, 0x59f111f1, 0x923f82a4, 0xab1c5ed5,
     0xd807aa98, 0x12835b01, 0x243185be, 0x550c7dc3, 0x72be5d74, 0x80deb1fe, 0x9bdc06a7, 0xc19bf174,
     0xe49b69c1, 0xefbe4786, 0x0fc19dc6, 0x240ca1cc, 0x2de92c6f, 0x4a7484aa, 0x5cb0a9dc, 0x76f988da,
     0x983e5152, 0xa831c66d, 0xb00327c8, 0xbf597fc7, 0xc6e00bf3, 0xd5a79147, 0x06ca6351, 0x14292967,
     0x27b70a85, 0x2e1b2138, 0x4d2c6dfc, 0x53380d13, 0x650a7354, 0x766a0abb, 0x81c2c92e, 0x92722c85,
     0xa2bfe8a1, 0xa81a664b, 0xc24b8b70, 0xc76c51a3, 0xd192e819, 0xd6990624, 0xf40e3585, 0x106aa070,
     0x19a4c116, 0x1e376c08, 0x2748774c, 0x34b0bcb5, 0x391c0cb3, 0x4ed8aa4a, 0x5b9cca4f, 0x682e6ff3,
     0x748f82ee, 0x78a5636f, 0x84c87814, 0x8cc70208, 0x90befffa, 0xa4506ceb, 0xbef9a3f7, 0xc67178f2]

  /** The table holds the round constants of section 4.2.2 of FIPS 180-4. */
  lemma RoundConstants()
    ensures SHA256_K == Fips180.K
  {
  }

  function F1(x: Word): Word {
    Xor(Xor(RotateRight(x, 2), RotateRight(x, 13)), RotateRight(x, 22))
  }

  function F2(x: Word): Word {
    Xor(Xor(RotateRight(x, 6), RotateRight(x, 11)), RotateRight(x, 25))
  }

  function F3(x: Word): Word {
    Xor(Xor(RotateRight(x, 7), RotateRight(x, 18)), ShiftRight(x, 3))
  }

  function F4(x: Word): Word {
    Xor(Xor(RotateRight(x, 17), RotateRight(x, 19)), ShiftRight(x, 10))
  }

  /** f1 is the function written capital sigma 0 in section 4.1.2 of FIPS 180-4. */
  lemma F1IsBigSigma0(x: Word)
    ensures F1(x) == Fips180.BigSigma0(x)
  {
  }

  /** f2 is capital sigma 1. */
  lemma F2IsBigSigma1(x: Word)
    ensures F2(x) == Fips180.BigSigma1(x)
  {
  }

  /** f3 is small sigma 0. */
  lemma F3IsSmallSigma0(x: Word)
    ensures F3(x) == Fips180.SmallSigma0(x)
  {
  }

  /** f4 is small sigma 1. */
  lemma F4IsSmallSigma1(x: Word)
    ensures F4(x) == Fips180.SmallSigma1(x)
  {
  }

  /** choose and majority are Ch and Maj of section 4.1.2 of FIPS 180-4. */
  lemma ChooseMajority(x: Word, y: Word, z: Word)
    ensures Choose(x, y, z) == Fips180.Ch(x, y, z)
    ensures Majority(x, y, z) == Fips180.Maj(x, y, z)
  {
  }

  /** unpack: the four bytes of x, most significant first. */
  function Unpack(x: Word): (b: seq<Byte>)
    ensures |b| == 4
  {
    [LowByte(Shr(x, 24)), LowByte(Shr(x, 16)), LowByte(Shr(x, 8)), LowByte(x)]
  }

  /** pack: the word made of four bytes, the first one most significant. */
  function Pack(b: seq<Byte>): Word
    requires |b| == 4
  {
    Or(Or(Or(b[3], Shl(b[2], 8)), Shl(b[1], 16)), Shl(b[0], 24))
  }

  /** unpack writes a word big-endian, as section 3.1 of FIPS 180-4 orders its bytes. */
  lemma UnpackBigEndian(x: Word)
    ensures Unpack(x) == Fips180.WordBytes(x)
  {
    ShiftedByte(x, 24);
    ShiftedByte(x, 16);
    ShiftedByte(x, 8);
  }

  /** `(uint8_t) (x >> n)` is byte n / 8 of x, counting from the least significant. */
  lemma ShiftedByte(x: Word, n: nat)
    requires n == 8 || n == 16 || n == 24
    ensures n == 8 ==> LowByte(Shr(x, n)) == (x / 0x100) % 0x100
    ensures n == 16 ==> LowByte(Shr(x, n)) == (x / 0x1_0000) % 0x100
    ensures n == 24 ==> LowByte(Shr(x, n)) == x / 0x100_0000
  {
    ShrDivides(x, n);
    Pow2Values();
  }

  /** Packing the bytes unpack writes gives the word back. */
  lemma PackUnpack(x: Word)
    ensures Pack(Unpack(x)) == x
  {
    var b := Unpack(x);
    var y := Pack(b);
    forall i | 0 <= i < 32
      ensures Bit(y, i) == Bit(x, i)
    {
      var k, j := i / 8, i % 8;
      assert 8 * k + j == i;
      PackBit(b, k, j);
      UnpackBit(x, k, j);
    }
    Pow2Values();
    BitsEqual(y, x, 32);
  }

  /** Bit j of byte 3 - k of unpack(x) is bit 8k + j of x. */
  lemma UnpackBit(x: Word, k: nat, j: nat)
    requires k < 4 && j < 8
    ensures Bit(Unpack(x)[3 - k], j) == Bit(x, 8 * k + j)
  {
    var u := Unpack(x);
    var b := u[3 - k];
    var i := 8 * k + j;
    if k == 0 {
      assert b == u[3] && i == j;
      LowByteBit(x, j);
    } else if k == 1 {
      assert b == u[2] && i == 8 + j;
      ByteBit(x, 8, j);
    } else if k == 2 {
      assert b == u[1] && i == 16 + j;
      ByteBit(x, 16, j);
    } else {
      assert b == u[0] && i == 24 + j;
      ByteBit(x, 24, j);
    }
  }

  /** Bit j of `(uint8_t) (x >> s)` is bit s + j of x. */
  lemma ByteBit(x: Word, s: nat, j: nat)
    requires s < 32 && j < 8
    ensures Bit(LowByte(Shr(x, s)), j) == Bit(x, s + j)
  {
    LowByteBit(Shr(x, s), j);
    ShrBit(x, s, j);
  }

  /** Bit 8k + j of pack(b) is bit j of byte 3 - k. */
  lemma PackBit(b: seq<Byte>, k: nat, j: nat)
    requires |b| == 4 && k < 4 && j < 8
    ensures Bit(Pack(b), 8 * k + j) == Bit(b[3 - k], j)
  {
    var i := 8 * k + j;
    var s2, s1, s0 := Shl(b[2], 8), Shl(b[1], 16), Shl(b[0], 24);
    OrBit(Or(Or(b[3], s2), s1), s0, i);
    OrBit(Or(b[3], s2), s1, i);
    OrBit(b[3], s2, i);
    ShlBit(b[2], 8, i);
    ShlBit(b[1], 16, i);
    ShlBit(b[0], 24, i);
    Pow2Values();
    if 8 <= i {
      HighBit(b[3], 8, i);
    }
    if 16 <= i {
      HighBit(b[2], 8, i - 8);
    }
    if 24 <= i {
      HighBit(b[1], 8, i - 16);
    }
  }

  /** pack reads a word big-endian. */
  lemma PackBigEndian(data: seq<Byte>, i: nat)
    requires i + 4 <= |data|
    ensures Pack(data[i..i + 4]) == Fips180.WordAt(data, i)
  {
    var x := Fips180.WordAt(data, i);
    Fips180.WordBytesAt(data, i);
    UnpackBigEndian(x);
    PackUnpack(x);
  }

  /** Unpacking the word pack reads gives the four bytes back. */
  lemma UnpackPack(b: seq<Byte>)
    requires |b| == 4
    ensures Unpack(Pack(b)) == b
  {
    PackBigEndian(b, 0);
    UnpackBigEndian(Fips180.WordAt(b, 0));
    Fips180.WordBytesAt(b, 0);
    assert b[0..4] == b;
  }

  // ---------------------------------------------------------------------
  // One round of transform, stated against step 3 of section 6.2.2 of FIPS 180-4
  // ---------------------------------------------------------------------

  /** Given t1 and t2 as transform computes them, the round moves the working variables as FIPS 180-4 does. */
  lemma RoundStep(s: seq<Word>, k: Word, w: Word, t1: Word, t2: Word)
    requires |s| == 8
    requires t1 == Add(Add(Add(Add(s[7], F2(s[4])), Choose(s[4], s[5], s[6])), k), w)
    requires t2 == Add(F1(s[0]), Majority(s[0], s[1], s[2]))
    ensures Fips180.Round(s, k, w) == [Add(t1, t2), s[0], s[1], s[2], Add(s[3], t1), s[4], s[5], s[6]]
  {
    F1IsBigSigma0(s[0]);
    F2IsBigSigma1(s[4]);
    ChooseMajority(s[4], s[5], s[6]);
    ChooseMajority(s[0], s[1], s[2]);
  }

  /** Round j + 1 uses constant j of the table and schedule word j. */
  lemma NextRound(h: seq<Word>, ws: seq<Word>, j: nat)
    requires |h| == 8 && |ws| == 64 && j < 64
    ensures Fips180.Rounds(h, ws, j + 1) == Fips180.Round(Fips180.Rounds(h, ws, j), SHA256_K[j], ws[j])
  {
    RoundConstants();
  }

  /** The schedule word transform computes for j >= 16 is W_j of step 1 of section 6.2.2 of FIPS 180-4. */
  lemma ScheduleStep(block: seq<Byte>, j: nat, a: Word, b: Word, c: Word, d: Word)
    requires |block| == 64 && 16 <= j < 64
    requires a == Fips180.ScheduleWord(block, j - 2) && b == Fips180.ScheduleWord(block, j - 7)
    requires c == Fips180.ScheduleWord(block, j - 15) && d == Fips180.ScheduleWord(block, j - 16)
    ensures Add(Add(Add(F4(a), b), F3(c)), d) == Fips180.ScheduleWord(block, j)
  {
    F4IsSmallSigma1(a);
    F3IsSmallSigma0(c);
  }

  /** Hashing the first i + 1 blocks is compressing block i into the hash of the first i. */
  lemma NextBlock(h: seq<Word>, m: seq<Byte>, i: nat)
    requires |h| == 8 && 64 * (i + 1) <= |m|
    ensures Fips180.HashBlocks(h, m[..64 * (i + 1)])
            == Fips180.Compress(Fips180.HashBlocks(h, m[..64 * i]), m[64 * i .. 64 * i + 64])
  {
    BlockSlices(m, i);
  }

  lemma BlockSlices(m: seq<Byte>, i: nat)
    requires 64 * (i + 1) <= |m|
    ensures var d := m[..64 * (i + 1)];
      |d| == 64 * (i + 1) && d[..|d| - 64] == m[..64 * i] && d[|d| - 64..] == m[64 * i .. 64 * i + 64]
  {
  }

  // ---------------------------------------------------------------------
  // The context
  // ---------------------------------------------------------------------

  class SHA256 {
    /** m_tot_len: the bytes already compressed, modulo 2^32. */
    var totLen: Word
    /** m_len: the bytes waiting in block. */
    var len: Word
    /** m_block */
    const block: array<Byte>
    /** m_h */
    const h: array<Word>
    /** The message passed to update since init. */
    ghost var input: seq<Byte>
    /** The prefix of the input that has gone through the compression function. */
    ghost var compressed: seq<Byte>

    ghost predicate Valid()
      reads this
    {
      block.Length == 2 * BLOCK_SIZE && h.Length == 8
    }

    /**
     * Every byte of the input but the last len < 64 has gone through the
     * compression function, in order, in 64-byte blocks, and m_tot_len
     * counts those bytes modulo 2^32.
     */
    ghost predicate Compressed()
      reads this, h
    {
      Valid() && len < 64 && |compressed| % 64 == 0
      && |input| == |compressed| + len && compressed <= input
      && totLen == |compressed| % 0x1_0000_0000
      && h[..] == Fips180.HashBlocks(Fips180.H0, compressed)
    }

    /**
     * After init and each update: the input is compressed but for the
     * last len bytes, and those wait at the start of the block.
     */
    ghost predicate Absorbed()
      reads this, block, h
    {
      Compressed() && input == compressed + block[..len]
    }

    /** `SHA256 ctx{}` value-initialises every member to zero. */
    constructor ()
      ensures Valid() && fresh(block) && fresh(h)
      ensures totLen == 0 && len == 0 && input == []
      ensures forall i :: 0 <= i < block.Length ==> block[i] == 0
      ensures forall i :: 0 <= i < h.Length ==> h[i] == 0
    {
      totLen, len := 0, 0;
      block := new Byte[2 * BLOCK_SIZE](_ => 0);
      h := new Word[8](_ => 0);
      input, compressed := [], [];
    }

    /** init: the initial hash value of section 5.3.3 of FIPS 180-4 and an empty buffer. */
    method Init()
      requires Valid()
      modifies this, h
      ensures Absorbed() && input == [] && h[..] == Fips180.H0
      ensures totLen == 0 && len == 0
    {
      h[0] := 0x6a09e667;
      h[1] := 0xbb67ae85;
      h[2] := 0x3c6ef372;
      h[3] := 0xa54ff53a;
      h[4] := 0x510e527f;
      h[5] := 0x9b05688c;
      h[6] := 0x1f83d9ab;
      h[7] := 0x5be0cd19;
      len := 0;
      totLen := 0;
      input, compressed := [], [];
      assert h[..] == Fips180.H0;
      assert block[..len] == [];
      assert Fips180.HashBlocks(Fips180.H0, []) == Fips180.H0;
    }

    /**
     * transform: compresses the first blockNb 64-byte blocks of message
     * into the hash value, one block after the other. The loop index i is
     * an `int` and the block offset `i << 6` an `int` too, which overflows
     * (undefined behaviour) from i = 2^25 on: blockNb is at most 2^25.
     */
    method Transform(message: seq<Byte>, blockNb: Word)
      requires Valid() && blockNb <= 0x200_0000 && 64 * blockNb <= |message|
      modifies h
      ensures h[..] == Fips180.HashBlocks(old(h[..]), message[..64 * blockNb])
    {
      var w := new Word[64];
      var wv := new Word[8];
      var i := 0;
      while i < blockNb
        invariant 0 <= i <= blockNb
        invariant h[..] == Fips180.HashBlocks(old(h[..]), message[..64 * i])
        modifies h, w, wv
      {
        var subBlock := message[64 * i .. 64 * i + 64];
        CompressBlock(w, wv, subBlock);
        NextBlock(old(h[..]), message, i);
        i := i + 1;
      }
    }

    /**
     * The byte counts: m_tot_len is a multiple of 64, and m_tot_len + m_len
     * is the length of the input modulo 2^32.
     */
    lemma AbsorbedCounts()
      requires Absorbed()
      ensures totLen % 64 == 0 && (totLen + len) % 0x1_0000_0000 == |input| % 0x1_0000_0000
    {
      WrapMultiple(|compressed|);
      WrapSum(|compressed|, len);
    }

    /**
     * update: the message is appended to the bytes waiting in the block;
     * once 64 bytes are there the block is compressed, then every whole
     * block of the rest of the message, and what is left waits in the
     * block. `m_len + len` is an unsigned int sum, which must not wrap,
     * and the blocks given to transform must stay within its 2^25 bound,
     * which holds exactly when `m_len + len` is below 2^31 + 128.
     */
    method Update(message: seq<Byte>)
      requires Absorbed() && len + |message| < 0x8000_0080
      modifies this, block, h
      ensures Absorbed() && input == old(input) + message
    {
      ghost var before, waiting := input, block[..len];
      var tmpLen := 64 - len;
      var remLen := if |message| < tmpLen then |message| else tmpLen;
      CopyInto(block, len, message[..remLen]);
      if len + |message| < 64 {
        assert message[..remLen] == message;
        input := before + message;
        len := len + |message|;
        AppendWaiting(compressed, waiting, message);
        return;
      }
      var rest := UpdateBlocks(message);
      ghost var hashed := h[..];
      CopyInto(block, 0, rest);
      assert h[..] == hashed && block[..len] == rest;
    }

    /**
     * The compressions of update once memcpy has filled the waiting block
     * up to 64 bytes: the filled block and the whole blocks of the rest of
     * the message are compressed, and rest holds the bytes left over.
     */
    method UpdateBlocks(message: seq<Byte>) returns (rest: seq<Byte>)
      requires Compressed() && 64 <= len + |message| < 0x8000_0080
      requires block[..64] == input[|compressed|..] + message[..64 - len]
      modifies this, h
      ensures Compressed() && input == old(input) + message
      ensures input == compressed + rest
    {
      ghost var before, done := input, compressed;
      var remLen := 64 - len;
      var newLen := |message| - remLen;
      var blockNb := newLen / 64;
      var shifted := message[remLen..];
      SplitMessage(|message|, remLen, newLen, blockNb);
      var first := block[..64];
      ghost var next := done + (first + shifted[..64 * blockNb]);
      TransformBoth(done, first, shifted, blockNb);
      remLen := newLen % 64;
      rest := shifted[64 * blockNb .. 64 * blockNb + remLen];
      var newTot := (totLen + (blockNb + 1) * 64) % 0x1_0000_0000;
      LongCounts(|done|, totLen, blockNb, newTot);
      UpdateLong(before, done, message, first, 64 - len, blockNb, remLen);
      len := remLen;
      totLen := newTot;
      input := before + message;
      compressed := next;
    }

    /**
     * final(digest): the waiting bytes are padded in the block (0x80, zeros,
     * and the bit length `(m_tot_len + m_len) << 3` as a 32-bit word in the
     * last four bytes), the one or two blocks are compressed, and the eight
     * words of m_h go big-endian into digest.
     */
    method FinalInto(digest: array<Byte>)
      requires Absorbed() && 32 <= digest.Length
      modifies block, h, digest
      ensures h[..] == Fips180.HashBlocks(Fips180.H0, PaddedAsWritten(input))
      ensures digest[..32] == Fips180.Digest(h[..])
      ensures digest != block ==> digest[32..] == old(digest[32..])
      ensures digest != block ==>
                && |compressed| <= |PaddedAsWritten(input)| <= |compressed| + block.Length
                && compressed + block[..|PaddedAsWritten(input)| - |compressed|] == PaddedAsWritten(input)
    {
      var blockNb: Word := 1 + if 64 - 9 < len % 64 then 1 else 0;
      var lenB := Shl(Add(totLen, len), 3);
      var pmLen := 64 * blockNb;
      ghost var waiting := block[..len];
      ghost var compressedLen := |compressed|;
      FinalCounts(compressedLen, totLen, len, blockNb, lenB);
      PadBlock(block, len, pmLen, lenB);
      FinalPadding(compressed, waiting, pmLen, lenB, block[..pmLen]);
      Fips180.HashBlocksAppend(Fips180.H0, compressed, block[..pmLen]);
      assert block[..][..64 * blockNb] == block[..pmLen];
      Transform(block[..], blockNb);
      WriteDigest(h, digest);
    }

    /**
     * final(): a 32-byte buffer filled by final(digest). Below 2^29 bytes of
     * input the bit length fits the 32-bit word, and the result is the
     * SHA-256 digest of the input.
     */
    method Final() returns (digest: seq<Byte>)
      requires Absorbed()
      modifies block, h
      ensures |digest| == DIGEST_SIZE && digest == Fips180.Digest(h[..])
      ensures h[..] == Fips180.HashBlocks(Fips180.H0, PaddedAsWritten(input))
      ensures |input| < 0x2000_0000 ==> digest == Fips180.Hash(input)
    {
      var buffer := new Byte[DIGEST_SIZE](_ => 0);
      FinalInto(buffer);
      digest := buffer[..];
      assert digest == buffer[..32];
      if |input| < 0x2000_0000 {
        PaddingAgrees(input);
      }
    }

    /**
     * The two transform calls of update: the block just filled up, then
     * the blockNb whole blocks at the start of the rest of the message,
     * after the blocks of done.
     */
    method TransformBoth(ghost done: seq<Byte>, first: seq<Byte>, shifted: seq<Byte>, blockNb: Word)
      requires Valid() && |done| % 64 == 0 && h[..] == Fips180.HashBlocks(Fips180.H0, done)
      requires |first| == 64 && blockNb <= 0x200_0000 && 64 * blockNb <= |shifted|
      modifies h
      ensures h[..] == Fips180.HashBlocks(Fips180.H0, done + (first + shifted[..64 * blockNb]))
    {
      ghost var more := shifted[..64 * blockNb];
      WholeBlocks(64, 64 * blockNb);
      Fips180.HashBlocksAppend(Fips180.H0, done, first + more);
      Fips180.HashBlocksAppend(h[..], first, more);
      assert first[..64 * 1] == first;
      Transform(first, 1);
      Transform(shifted, blockNb);
    }

    /** The body of the block loop of transform: one block compressed into m_h. */
    method CompressBlock(w: array<Word>, wv: array<Word>, block: seq<Byte>)
      requires Valid() && w.Length == 64 && wv.Length == 8 && |block| == 64
      requires wv != h && w != h && w != wv
      modifies h, w, wv
      ensures h[..] == Fips180.Compress(old(h[..]), block)
    {
      ghost var hi := h[..];
      ghost var ws := Fips180.Schedule(block);
      Schedule(w, block);
      LoadWorking(h, wv);
      Rounds64(w, wv, ws, hi);
      AddWorking(h, wv, Fips180.Rounds(hi, ws, 64));
      Fips180.CompressAdds(hi, block);
    }
  }

  /** memcpy(dst + at, src, |src|) */
  method CopyInto(dst: array<Byte>, at: nat, src: seq<Byte>)
    requires at + |src| <= dst.Length
    modifies dst
    ensures dst[..at + |src|] == old(dst[..at]) + src
    ensures dst[at + |src|..] == old(dst[at + |src|..])
  {
    forall i | 0 <= i < |src| {
      dst[at + i] := src[i];
    }
    assert dst[..at + |src|] == old(dst[..at]) + src;
  }

  /**
   * The lengths of a long update: the fill bytes that complete the
   * waiting block, at most 2^25 whole blocks and fewer than 64 bytes
   * left over make up the message.
   */
  lemma SplitMessage(m: nat, fill: nat, newLen: int, blockNb: int)
    requires fill <= 64 && fill <= m && m - fill < 0x8000_0040
    requires newLen == m - fill && blockNb == newLen / 64
    ensures 0 <= blockNb <= 0x200_0000 && 64 * blockNb <= newLen
    ensures m == fill + 64 * blockNb + newLen % 64
  {
  }

  /**
   * The counts after a long update: m_tot_len grows by the blockNb + 1
   * blocks compressed, modulo 2^32, and counts the d bytes compressed
   * before and those blocks.
   */
  lemma LongCounts(d: nat, tot: nat, blockNb: nat, tot2: int)
    requires d % 64 == 0 && tot == d % 0x1_0000_0000
    requires tot2 == (tot + (blockNb + 1) * 64) % 0x1_0000_0000
    ensures (d + (64 + 64 * blockNb)) % 64 == 0 && tot2 == (d + (64 + 64 * blockNb)) % 0x1_0000_0000
  {
    WholeBlocks(d, 64 * (blockNb + 1));
    WrapSum(d, (blockNb + 1) * 64);
  }

  /** Reducing modulo 2^32 keeps a multiple of 64 a multiple of 64. */
  lemma WrapMultiple(n: nat)
    requires n % 64 == 0
    ensures (n % 0x1_0000_0000) % 64 == 0
  {
    assert n == (n / 0x1_0000_0000) * 0x1_0000_0000 + n % 0x1_0000_0000;
    assert 0x1_0000_0000 == 64 * 0x400_0000;
  }

  /** Adding to a value reduced modulo 2^32 is adding before reducing. */
  lemma WrapSum(a: nat, b: nat)
    ensures (a % 0x1_0000_0000 + b) % 0x1_0000_0000 == (a + b) % 0x1_0000_0000
  {
    assert a == (a / 0x1_0000_0000) * 0x1_0000_0000 + a % 0x1_0000_0000;
    DivModUnique(a + b, 0x1_0000_0000, a / 0x1_0000_0000 + (a % 0x1_0000_0000 + b) / 0x1_0000_0000, (a % 0x1_0000_0000 + b) % 0x1_0000_0000);
  }

  /** A short update: the message joins the bytes waiting after those compressed. */
  lemma AppendWaiting(done: seq<Byte>, waiting: seq<Byte>, message: seq<Byte>)
    ensures var after := done + waiting + message;
      done <= after && after == done + (waiting + message)
  {
  }

  /**
   * A long update: the input after it is the bytes compressed so far, the
   * block filled up from the message, whole blocks of the rest of the
   * message, and the `rest` bytes left over.
   */
  lemma UpdateLong(before: seq<Byte>, done: seq<Byte>, message: seq<Byte>, first: seq<Byte>, fill: nat, blockNb: nat, rest: nat)
    requires done <= before && |message| == fill + 64 * blockNb + rest
    requires first == before[|done|..] + message[..fill]
    ensures var shifted := message[fill..];
      var next := done + (first + shifted[..64 * blockNb]);
      before + message == next + shifted[64 * blockNb .. 64 * blockNb + rest] && next <= before + message
  {
    var shifted := message[fill..];
    assert message == message[..fill] + shifted[..64 * blockNb] + shifted[64 * blockNb .. 64 * blockNb + rest];
    assert before == done + before[|done|..];
  }

  // ---------------------------------------------------------------------
  // The padding of final
  // ---------------------------------------------------------------------

  /**
   * The message as final pads it: 0x80, zeros up to the last four bytes
   * of a 64-byte block, and the bit length modulo 2^32 as a big-endian
   * word, where section 5.1.1 of FIPS 180-4 has a 64-bit bit length.
   */
  function PaddedAsWritten(m: seq<Byte>): (p: seq<Byte>)
    ensures |p| % 64 == 0 && |m| + 9 <= |p| < |m| + 9 + 64
    ensures p[..|m|] == m && p[|m|] == 0x80
  {
    m + [0x80] + Fips180.Zeros(Fips180.ZeroCount(|m|) + 4) + Fips180.WordBytes((8 * |m|) % 0x1_0000_0000)
  }

  /** Below 2^29 bytes the bit length fits 32 bits, and final pads as FIPS 180-4 does. */
  lemma PaddingAgrees(m: seq<Byte>)
    requires |m| < 0x2000_0000
    ensures PaddedAsWritten(m) == Fips180.Pad(m)
  {
    var k := Fips180.ZeroCount(|m|);
    var l := 8 * |m|;
    assert l % 0x1_0000_0000 == l;
    assert Fips180.LengthField(|m|) == [0, 0, 0, 0] + Fips180.WordBytes(l);
    assert Fips180.Zeros(k + 4) == Fips180.Zeros(k) + [0, 0, 0, 0];
  }

  /**
   * At 2^29 bytes the bit length is 2^32: the 32-bit length word of final
   * wraps to zero, and the padded message is not that of FIPS 180-4.
   */
  lemma PaddingWraps(m: seq<Byte>)
    requires |m| == 0x2000_0000
    ensures PaddedAsWritten(m) != Fips180.Pad(m)
  {
    var i := |m| + 1 + Fips180.ZeroCount(|m|) + 3;
    assert PaddedAsWritten(m)[i] == 0;
    assert Fips180.Pad(m)[i] == Fips180.LengthField(|m|)[3] == 1;
  }

  /**
   * The counts final reads: block_nb is 2 exactly when the 0x80 byte and
   * the 8 length bytes do not fit after the len waiting bytes, the block_nb
   * blocks leave room for the FIPS 180-4 zero count, and len_b is eight
   * times the input length modulo 2^32.
   */
  lemma FinalCounts(c: nat, tot: Word, len: Word, blockNb: nat, lenB: Word)
    requires c % 64 == 0 && tot == c % 0x1_0000_0000 && len < 64
    requires blockNb == 1 + if 64 - 9 < len % 64 then 1 else 0
    requires lenB == Shl(Add(tot, len), 3)
    ensures (blockNb == 2) == (55 < len)
    ensures 64 * blockNb == len + 9 + Fips180.ZeroCount(c + len)
    ensures lenB == (8 * (c + len)) % 0x1_0000_0000
  {
    WrapSum(c, len);
    ShlMultiplies(Add(tot, len), 3);
    Pow2Values();
    MulWrap(8, c + len);
    assert c == 64 * (c / 64);
    DivModUnique(55 - (c + len), 64, 55 / 64 - c / 64 + (55 - len - (55 - len) % 64) / 64, (55 - len) % 64);
  }

  /**
   * A final block: the len waiting bytes, 0x80, zeros and the length word
   * lenB make the padded message after the compressed bytes c.
   */
  lemma FinalPadding(c: seq<Byte>, waiting: seq<Byte>, pmLen: nat, lenB: Word, padded: seq<Byte>)
    requires |c| % 64 == 0 && pmLen == |waiting| + 9 + Fips180.ZeroCount(|c + waiting|)
    requires lenB == (8 * |c + waiting|) % 0x1_0000_0000
    requires padded == waiting + [0x80] + Fips180.Zeros(pmLen - |waiting| - 5) + Unpack(lenB)
    ensures c + padded == PaddedAsWritten(c + waiting)
  {
    UnpackBigEndian(lenB);
    var tail := [0x80] + Fips180.Zeros(Fips180.ZeroCount(|c + waiting|) + 4) + Fips180.WordBytes(lenB);
    assert padded == waiting + tail;
    assert PaddedAsWritten(c + waiting) == (c + waiting) + tail;
    assert c + (waiting + tail) == (c + waiting) + tail;
  }

  /** unpack(x, str): the four bytes of x, most significant first, at dst[at..at + 4]. */
  method UnpackInto(x: Word, dst: array<Byte>, at: nat)
    requires at + 4 <= dst.Length
    modifies dst
    ensures dst[at..at + 4] == Unpack(x)
    ensures forall k :: 0 <= k < dst.Length && (k < at || at + 4 <= k) ==> dst[k] == old(dst[k])
  {
    dst[at + 3] := LowByte(x);
    dst[at + 2] := LowByte(Shr(x, 8));
    dst[at + 1] := LowByte(Shr(x, 16));
    dst[at] := LowByte(Shr(x, 24));
  }

  /**
   * The padding writes of final: memset clears the block from len to
   * pmLen, 0x80 follows the waiting bytes, and lenB goes big-endian into
   * the last four bytes.
   */
  method PadBlock(block: array<Byte>, len: nat, pmLen: nat, lenB: Word)
    requires len + 9 <= pmLen <= block.Length
    modifies block
    ensures block[..pmLen] == old(block[..len]) + [0x80] + Fips180.Zeros(pmLen - len - 5) + Unpack(lenB)
  {
    CopyInto(block, len, Fips180.Zeros(pmLen - len));
    block[len] := 0x80;
    UnpackInto(lenB, block, pmLen - 4);
    assert block[..pmLen] == old(block[..len]) + [0x80] + Fips180.Zeros(pmLen - len - 5) + Unpack(lenB);
  }

  /** The last loop of final: the eight words of h, big-endian, into digest[0..32]. */
  method WriteDigest(h: array<Word>, digest: array<Byte>)
    requires h.Length == 8 && 32 <= digest.Length
    modifies digest
    ensures digest[..32] == Fips180.Digest(h[..])
    ensures digest[32..] == old(digest[32..])
  {
    var i := 0;
    while i < 8
      invariant 0 <= i <= 8
      invariant forall k :: 0 <= k < 4 * i ==> digest[k] == Fips180.Digest(h[..])[k]
      invariant digest[32..] == old(digest[32..])
    {
      UnpackInto(h[i], digest, 4 * i);
      DigestWord(h[..], i);
      i := i + 1;
    }
    assert digest[..32] == Fips180.Digest(h[..]);
  }

  /** Bytes 4i to 4i + 3 of the digest are word i, big-endian. */
  lemma DigestWord(hv: seq<Word>, i: nat)
    requires |hv| == 8 && i < 8
    ensures Fips180.Digest(hv)[4 * i .. 4 * i + 4] == Unpack(hv[i])
  {
    UnpackBigEndian(hv[i]);
    forall r | 0 <= r < 4
      ensures Fips180.Digest(hv)[4 * i + r] == Fips180.WordBytes(hv[i])[r]
    {
      DivModUnique(4 * i + r, 4, i, r);
    }
  }

  /** Two runs of whole blocks make a run of whole blocks. */
  lemma WholeBlocks(a: nat, b: nat)
    requires a % 64 == 0 && b % 64 == 0
    ensures (a + b) % 64 == 0
  {
    assert a + b == 64 * (a / 64 + b / 64);
  }

  /** The third loop of transform: the working variables start as the hash value. */
  method LoadWorking(h: array<Word>, wv: array<Word>)
    requires h.Length == 8 && wv.Length == 8 && h != wv
    modifies wv
    ensures Holds(wv, h[..])
  {
    var j := 0;
    while j < 8
      invariant 0 <= j <= 8
      invariant forall k :: 0 <= k < j ==> wv[k] == h[k]
    {
      wv[j] := h[j];
      j := j + 1;
    }
  }

  /** The fifth loop of transform: the working variables r are added into the hash value. */
  method AddWorking(h: array<Word>, wv: array<Word>, ghost r: seq<Word>)
    requires h.Length == 8 && h != wv && Holds(wv, r)
    modifies h
    ensures h[..] == Fips180.AddWords(r, old(h[..]))
  {
    ghost var hi := h[..];
    var j := 0;
    while j < 8
      invariant 0 <= j <= 8
      invariant forall k :: 0 <= k < j ==> h[k] == Add(r[k], hi[k])
      invariant forall k :: j <= k < 8 ==> h[k] == hi[k]
    {
      HoldsAt(wv, r, j);
      h[j] := Add(h[j], wv[j]);
      j := j + 1;
    }
    Fips180.AddWordsIs(r, hi, h[..]);
  }

  /** The fourth loop of transform: the sixty-four rounds on the working variables. */
  method Rounds64(w: array<Word>, wv: array<Word>, ghost ws: seq<Word>, ghost hi: seq<Word>)
    requires w.Length == 64 && wv.Length == 8 && |ws| == 64 && |hi| == 8 && w != wv
    requires forall k :: 0 <= k < 64 ==> w[k] == ws[k]
    requires Holds(wv, hi)
    modifies wv
    ensures Holds(wv, Fips180.Rounds(hi, ws, 64))
  {
    var j := 0;
    while j < 64
      invariant 0 <= j <= 64
      invariant Holds(wv, Fips180.Rounds(hi, ws, j))
    {
      NextRound(hi, ws, j);
      RoundUpdate(wv, SHA256_K[j], w[j], Fips180.Rounds(hi, ws, j));
      j := j + 1;
    }
  }

  /** The first two loops of transform: the message schedule of one block. */
  method Schedule(w: array<Word>, block: seq<Byte>)
    requires w.Length == 64 && |block| == 64
    modifies w
    ensures forall k :: 0 <= k < 64 ==> w[k] == Fips180.Schedule(block)[k]
  {
    ScheduleHead(w, block);
    ScheduleTail(w, block);
  }

  /** The first loop of transform: the sixteen words of the block, big-endian. */
  method ScheduleHead(w: array<Word>, block: seq<Byte>)
    requires w.Length == 64 && |block| == 64
    modifies w
    ensures forall k :: 0 <= k < 16 ==> w[k] == Fips180.ScheduleWord(block, k)
  {
    var j := 0;
    while j < 16
      invariant 0 <= j <= 16
      invariant forall k :: 0 <= k < j ==> w[k] == Fips180.ScheduleWord(block, k)
    {
      PackBigEndian(block, 4 * j);
      w[j] := Pack(block[4 * j .. 4 * j + 4]);
      j := j + 1;
    }
  }

  /** The second loop of transform: the other forty-eight words from the earlier ones. */
  method ScheduleTail(w: array<Word>, block: seq<Byte>)
    requires w.Length == 64 && |block| == 64
    requires forall k :: 0 <= k < 16 ==> w[k] == Fips180.ScheduleWord(block, k)
    modifies w
    ensures forall k :: 0 <= k < 64 ==> w[k] == Fips180.ScheduleWord(block, k)
  {
    var j := 16;
    while j < 64
      invariant 16 <= j <= 64
      invariant forall k :: 0 <= k < j ==> w[k] == Fips180.ScheduleWord(block, k)
    {
      ScheduleNext(w, block, j);
      j := j + 1;
    }
  }

  /** The body of the second loop of transform: word j of the schedule from the four it depends on. */
  method ScheduleNext(w: array<Word>, block: seq<Byte>, j: nat)
    requires w.Length == 64 && |block| == 64 && 16 <= j < 64
    requires forall k :: 0 <= k < j ==> w[k] == Fips180.ScheduleWord(block, k)
    modifies w
    ensures forall k :: 0 <= k <= j ==> w[k] == Fips180.ScheduleWord(block, k)
  {
    ScheduleStep(block, j, w[j - 2], w[j - 7], w[j - 15], w[j - 16]);
    w[j] := Add(Add(Add(F4(w[j - 2]), w[j - 7]), F3(w[j - 15])), w[j - 16]);
  }

  /** The eight words of a hold the eight words of s. */
  ghost predicate Holds(a: array<Word>, s: seq<Word>)
    reads a
  {
    a.Length == 8 && |s| == 8
    && a[0] == s[0] && a[1] == s[1] && a[2] == s[2] && a[3] == s[3]
    && a[4] == s[4] && a[5] == s[5] && a[6] == s[6] && a[7] == s[7]
  }

  lemma HoldsAt(a: array<Word>, s: seq<Word>, k: nat)
    requires Holds(a, s) && k < 8
    ensures a[k] == s[k]
  {
  }

  /** The body of the round loop of transform: one round on the working variables. */
  method RoundUpdate(wv: array<Word>, k: Word, x: Word, ghost s: seq<Word>)
    requires wv.Length == 8 && |s| == 8
    requires Holds(wv, s)
    modifies wv
    ensures Holds(wv, Fips180.Round(s, k, x))
  {
    var a, b, c, d, e, f, g, hh := wv[0], wv[1], wv[2], wv[3], wv[4], wv[5], wv[6], wv[7];
    var t1 := Add(Add(Add(Add(hh, F2(e)), Choose(e, f, g)), k), x);
    var t2 := Add(F1(a), Majority(a, b, c));
    RoundStep(s, k, x, t1, t2);
    wv[7] := g;
    wv[6] := f;
    wv[5] := e;
    wv[4] := Add(d, t1);
    wv[3] := c;
    wv[2] := b;
    wv[1] := a;
    wv[0] := Add(t1, t2);
  }
}
