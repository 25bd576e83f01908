/**
 * SHA-256 as FIPS 180-4 defines it, written as functions on byte and word
 * sequences. This is the reference the streaming implementation of
 * include/littlesmith/crypto/SHA256.h is proved against.
 */
module Fips180 {
  import opened Words

  // ---------------------------------------------------------------------
  // Section 3.2 of FIPS 180-4: the rotation ROTR^n(x) = (x >> n) | (x << 32 - n)
  // ---------------------------------------------------------------------

  function Rotr(x: Word, n: nat): Word
    requires 0 < n < 32
  {
    Or(Shr(x, n), Shl(x, 32 - n))
  }

  // ---------------------------------------------------------------------
  // Section 4.1.2 of FIPS 180-4: the six logical functions of SHA-256
  // ---------------------------------------------------------------------

  function Ch(x: Word, y: Word, z: Word): Word {
    Xor(And(x, y), And(Not(x), z))
  }

  function Maj(x: Word, y: Word, z: Word): Word {
    Xor(Xor(And(x, y), And(x, z)), And(y, z))
  }

  function BigSigma0(x: Word): Word {
    Xor(Xor(Rotr(x, 2), Rotr(x, 13)), Rotr(x, 22))
  }

  function BigSigma1(x: Word): Word {
    Xor(Xor(Rotr(x, 6), Rotr(x, 11)), Rotr(x, 25))
  }

  function SmallSigma0(x: Word): Word {
    Xor(Xor(Rotr(x, 7), Rotr(x, 18)), Shr(x, 3))
  }

  function SmallSigma1(x: Word): Word {
    Xor(Xor(Rotr(x, 17), Rotr(x, 19)), Shr(x, 10))
  }

  // ---------------------------------------------------------------------
  // Section 4.2.2 of FIPS 180-4: the sixty-four round constants
  // ---------------------------------------------------------------------

  const K: seq<Word> :=
    [0x428a2f98, 0x71374491, 0xb5c0fbcf, 0xe9b5dba5, 0x3956c25b, 0x59f111f1, 0x923f82a4, 0xab1c5ed5,
     0xd807aa98, 0x12835b01, 0x243185be, 0x550c7dc3, 0x72be5d74, 0x80deb1fe, 0x9bdc06a7, 0xc19bf174,
     0xe49b69c1, 0xefbe4786, 0x0fc19dc6, 0x240ca1cc, 0x2de92c6f, 0x4a7484aa, 0x5cb0a9dc, 0x76f988da,
     0x983e5152, 0xa831c66d, 0xb00327c8, 0xbf597fc7, 0xc6e00bf3, 0xd5a79147, 0x06ca6351, 0x14292967,
     0x27b70a85, 0x2e1b2138, 0x4d2c6dfc, 0x53380d13, 0x650a7354, 0x766a0abb, 0x81c2c92e, 0x92722c85,
     0xa2bfe8a1, 0xa81a664b, 0xc24b8b70, 0xc76c51a3, 0xd192e819, 0xd6990624, 0xf40e3585, 0x106aa070,
     0x19a4c116, 0x1e376c08, 0x2748774c, 0x34b0bcb5, 0x391c0cb3, 0x4ed8aa4a, 0x5b9cca4f, 0x682e6ff3,
     0x748f82ee, 0x78a5636f, 0x84c87814, 0x8cc70208, 0x90befffa, 0xa4506ceb, 0xbef9a3f7, 0xc67178f2]

  // ---------------------------------------------------------------------
  // Section 5.3.3 of FIPS 180-4: the initial hash value
  // ---------------------------------------------------------------------

  const H0: seq<Word> :=
    [0x6a09e667, 0xbb67ae85, 0x3c6ef372, 0xa54ff53a, 0x510e527f, 0x9b05688c, 0x1f83d9ab, 0x5be0cd19]

  // ---------------------------------------------------------------------
  // Section 5.1.1 of FIPS 180-4: padding
  // ---------------------------------------------------------------------

  /** The longest message, in bytes, whose bit length fits in 64 bits. */
  const MAX_MESSAGE: nat := 0x1FFF_FFFF_FFFF_FFFF

  function Zeros(k: nat): (z: seq<Byte>)
    ensures |z| == k && forall i :: 0 <= i < k ==> z[i] == 0
  {
    seq(k, _ => 0)
  }

  /**
   * The number of zero bytes between the 0x80 byte and the length: the
   * least k >= 0 with n + 1 + k + 8 a multiple of 64.
   */
  function ZeroCount(n: nat): (k: nat)
    ensures (n + 1 + k + 8) % 64 == 0 && k < 64
  {
    (55 - n) % 64
  }

  /** The bit length 8n of an n-byte message as a 64-bit big-endian integer. */
  function LengthField(n: nat): (f: seq<Byte>)
    requires n <= MAX_MESSAGE
    ensures |f| == 8
  {
    var l := 8 * n;
    [(l / 0x100_0000_0000_0000) % 0x100, (l / 0x1_0000_0000_0000) % 0x100,
     (l / 0x100_0000_0000) % 0x100, (l / 0x1_0000_0000) % 0x100,
     (l / 0x100_0000) % 0x100, (l / 0x1_0000) % 0x100, (l / 0x100) % 0x100, l % 0x100]
  }

  /** The padded message: a 1 bit, zeros, and the 64-bit bit length. */
  function Pad(m: seq<Byte>): (p: seq<Byte>)
    requires |m| <= MAX_MESSAGE
    ensures |p| % 64 == 0 && |m| + 9 <= |p| < |m| + 9 + 64
    ensures p[..|m|] == m && p[|m|] == 0x80
  {
    m + [0x80] + Zeros(ZeroCount(|m|)) + LengthField(|m|)
  }

  // ---------------------------------------------------------------------
  // Sections 3.1 and 5.2.1 of FIPS 180-4: words are big-endian, a block is 16 words
  // ---------------------------------------------------------------------

  /** The word whose four bytes, most significant first, start at b[i]. */
  function WordAt(b: seq<Byte>, i: nat): Word
    requires i + 4 <= |b|
  {
    (b[i] as int) * 0x100_0000 + (b[i + 1] as int) * 0x1_0000 + (b[i + 2] as int) * 0x100 + b[i + 3]
  }

  /** The four bytes of a word, most significant first. */
  function WordBytes(x: Word): (b: seq<Byte>)
    ensures |b| == 4
  {
    [x / 0x100_0000, (x / 0x1_0000) % 0x100, (x / 0x100) % 0x100, x % 0x100]
  }

  /** Reading back the bytes of a word gives the word. */
  lemma WordAtBytes(x: Word)
    ensures WordAt(WordBytes(x), 0) == x
  {
    var q1, q2 := x / 0x100, x / 0x1_0000;
    assert x == q1 * 0x100 + x % 0x100;
    assert q1 == (q1 / 0x100) * 0x100 + q1 % 0x100;
    DivModUnique(x, 0x1_0000, q1 / 0x100, (q1 % 0x100) * 0x100 + x % 0x100);
    assert q2 == (q2 / 0x100) * 0x100 + q2 % 0x100;
    DivModUnique(x, 0x100_0000, q2 / 0x100, (q2 % 0x100) * 0x1_0000 + x % 0x1_0000);
  }

  /** Writing the word read at b[i] gives the four bytes back. */
  lemma WordBytesAt(b: seq<Byte>, i: nat)
    requires i + 4 <= |b|
    ensures WordBytes(WordAt(b, i)) == b[i..i + 4]
  {
    var b0, b1, b2, b3 := b[i] as int, b[i + 1] as int, b[i + 2] as int, b[i + 3] as int;
    var x := WordAt(b, i);
    DivModUnique(x, 0x100_0000, b0, b1 * 0x1_0000 + b2 * 0x100 + b3);
    DivModUnique(x, 0x1_0000, b0 * 0x100 + b1, b2 * 0x100 + b3);
    DivModUnique(b0 * 0x100 + b1, 0x100, b0, b1);
    DivModUnique(x, 0x100, b0 * 0x1_0000 + b1 * 0x100 + b2, b3);
    DivModUnique(b0 * 0x1_0000 + b1 * 0x100 + b2, 0x100, b0 * 0x100 + b1, b2);
  }

  /** Step 1 of section 6.2.2 of FIPS 180-4 for one block: message schedule word t. */
  function ScheduleWord(block: seq<Byte>, t: nat): Word
    requires |block| == 64 && t < 64
  {
    if t < 16 then WordAt(block, 4 * t)
    else
      Add(Add(Add(SmallSigma1(ScheduleWord(block, t - 2)), ScheduleWord(block, t - 7)),
              SmallSigma0(ScheduleWord(block, t - 15))), ScheduleWord(block, t - 16))
  }

  // ---------------------------------------------------------------------
  // Section 6.2.2 of FIPS 180-4: the SHA-256 hash computation
  // ---------------------------------------------------------------------

  /** Step 3, one round on the working variables a, b, ..., h. */
  function Round(s: seq<Word>, k: Word, w: Word): (r: seq<Word>)
    requires |s| == 8
    ensures |r| == 8
  {
    var t1 := Add(Add(Add(Add(s[7], BigSigma1(s[4])), Ch(s[4], s[5], s[6])), k), w);
    var t2 := Add(BigSigma0(s[0]), Maj(s[0], s[1], s[2]));
    [Add(t1, t2), s[0], s[1], s[2], Add(s[3], t1), s[4], s[5], s[6]]
  }

  /** Step 1: the message schedule W_0, ..., W_63 of one block. */
  function Schedule(block: seq<Byte>): (ws: seq<Word>)
    requires |block| == 64
    ensures |ws| == 64
  {
    seq(64, t requires 0 <= t < 64 => ScheduleWord(block, t))
  }

  /** Steps 2 and 3: the working variables after the first t rounds with schedule ws. */
  function Rounds(h: seq<Word>, ws: seq<Word>, t: nat): (r: seq<Word>)
    requires |h| == 8 && |ws| == 64 && t <= 64
    ensures |r| == 8
  {
    if t == 0 then h else Round(Rounds(h, ws, t - 1), K[t - 1], ws[t - 1])
  }

  /** Step 4: the intermediate hash value after one 64-byte block. */
  function Compress(h: seq<Word>, block: seq<Byte>): (r: seq<Word>)
    requires |h| == 8 && |block| == 64
    ensures |r| == 8
  {
    seq(8, i requires 0 <= i < 8 => Add(Rounds(h, Schedule(block), 64)[i], h[i]))
  }

  /** The compression function adds the working variables after 64 rounds to h. */
  lemma CompressAdds(h: seq<Word>, block: seq<Byte>)
    requires |h| == 8 && |block| == 64
    ensures Compress(h, block) == AddWords(Rounds(h, Schedule(block), 64), h)
  {
  }

  /** The word-by-word sums, modulo 2^32, of s and h. */
  function AddWords(s: seq<Word>, h: seq<Word>): (r: seq<Word>)
    requires |s| == |h|
    ensures |r| == |h|
  {
    seq(|h|, i requires 0 <= i < |h| => Add(s[i], h[i]))
  }

  /** A sequence holding the sums of s and h is their word-by-word sum. */
  lemma AddWordsIs(s: seq<Word>, h: seq<Word>, r: seq<Word>)
    requires |s| == |h| == |r|
    requires forall k :: 0 <= k < |r| ==> r[k] == Add(s[k], h[k])
    ensures r == AddWords(s, h)
  {
  }

  /** The hash value after the blocks of `data`, in order. */
  function HashBlocks(h: seq<Word>, data: seq<Byte>): (r: seq<Word>)
    requires |h| == 8 && |data| % 64 == 0
    ensures |r| == 8
    decreases |data|
  {
    if |data| == 0 then h
    else Compress(HashBlocks(h, data[..|data| - 64]), data[|data| - 64..])
  }

  /** The message digest: the words of the final hash value, each big-endian. */
  function Digest(h: seq<Word>): (d: seq<Byte>)
    ensures |d| == 4 * |h|
  {
    seq(4 * |h|, k requires 0 <= k < 4 * |h| => WordBytes(h[k / 4])[k % 4])
  }

  function Hash(m: seq<Byte>): (d: seq<Byte>)
    requires |m| <= MAX_MESSAGE
    ensures |d| == 32
  {
    Digest(HashBlocks(H0, Pad(m)))
  }

  /** Hashing two runs of blocks is hashing the first, then the second. */
  lemma {:induction false} HashBlocksAppend(h: seq<Word>, a: seq<Byte>, b: seq<Byte>)
    requires |h| == 8 && |a| % 64 == 0 && |b| % 64 == 0
    ensures HashBlocks(h, a + b) == HashBlocks(HashBlocks(h, a), b)
    decreases |b|
  {
    if |b| == 0 {
      assert a + b == a;
    } else {
      LastBlock(a, b);
      HashBlocksAppend(h, a, b[..|b| - 64]);
    }
  }

  lemma LastBlock(a: seq<Byte>, b: seq<Byte>)
    requires |b| >= 64
    ensures (a + b)[..|a + b| - 64] == a + b[..|b| - 64]
    ensures (a + b)[|a + b| - 64..] == b[|b| - 64..]
  {
  }
}
