/**
 * SHA-256 as a function on byte sequences (FIPS 180-4): the round constants,
 * the logical functions of section 4.1.2, the message schedule, the 64 rounds,
 * Merkle-Damgard padding with a 64-bit big-endian bit length, and the
 * big-endian serialisation of the final hash value. The streaming context of
 * module Sha256 is proved against these definitions.
 *
 * Words and bytes are bit-vectors, so every addition wraps modulo 2^32 as the
 * u_int32_t arithmetic of aes/sha256.c does.
 */
module Sha256Spec {

  type Byte = bv8
  type Word = bv32

  /** The 64 round constants K0..K63 (FIPS 180-4 section 4.2.2). */
  const K: seq<Word> := [
    0x428a2f98, 0x71374491, 0xb5c0fbcf, 0xe9b5dba5, 0x3956c25b, 0x59f111f1,
    0x923f82a4, 0xab1c5ed5, 0xd807aa98, 0x12835b01, 0x243185be, 0x550c7dc3,
    0x72be5d74, 0x80deb1fe, 0x9bdc06a7, 0xc19bf174, 0xe49b69c1, 0xefbe4786,
    0x0fc19dc6, 0x240ca1cc, 0x2de92c6f, 0x4a7484aa, 0x5cb0a9dc, 0x76f988da,
    0x983e5152, 0xa831c66d, 0xb00327c8, 0xbf597fc7, 0xc6e00bf3, 0xd5a79147,
    0x06ca6351, 0x14292967, 0x27b70a85, 0x2e1b2138, 0x4d2c6dfc, 0x53380d13,
    0x650a7354, 0x766a0abb, 0x81c2c92e, 0x92722c85, 0xa2bfe8a1, 0xa81a664b,
    0xc24b8b70, 0xc76c51a3, 0xd192e819, 0xd6990624, 0xf40e3585, 0x106aa070,
    0x19a4c116, 0x1e376c08, 0x2748774c, 0x34b0bcb5, 0x391c0cb3, 0x4ed8aa4a,
    0x5b9cca4f, 0x682e6ff3, 0x748f82ee, 0x78a5636f, 0x84c87814, 0x8cc70208,
    0x90befffa, 0xa4506ceb, 0xbef9a3f7, 0xc67178f2
  ]

  /** A 512-bit message block. */
  type Block = b: seq<Byte> | |b| == 64 witness seq(64, _ => 0)

  /** A hash value H0..H7. */
  datatype Hash = Hash(h0: Word, h1: Word, h2: Word, h3: Word, h4: Word, h5: Word, h6: Word, h7: Word)

  /** The working variables a..h of the compression function. */
  datatype Vars = Vars(a: Word, b: Word, c: Word, d: Word, e: Word, f: Word, g: Word, h: Word)

  /** The initial hash value H(0) (FIPS 180-4 section 5.3.3). */
  const IV: Hash := Hash(0x6a09e667, 0xbb67ae85, 0x3c6ef372, 0xa54ff53a,
                         0x510e527f, 0x9b05688c, 0x1f83d9ab, 0x5be0cd19)

  /** Addition of two u_int32_t values, which wraps modulo 2^32. */
  function Add(x: Word, y: Word): Word { x + y }

  function Rotr(x: Word, n: Word): Word
    requires 0 < n < 32
  {
    (x >> n) | (x << (32 - n))
  }

  function Ch(x: Word, y: Word, z: Word): Word { (x & y) ^ (!x & z) }
  function Maj(x: Word, y: Word, z: Word): Word { (x & y) ^ (x & z) ^ (y & z) }
  function Sum0(x: Word): Word { Rotr(x, 2) ^ Rotr(x, 13) ^ Rotr(x, 22) }
  function Sum1(x: Word): Word { Rotr(x, 6) ^ Rotr(x, 11) ^ Rotr(x, 25) }
  function S0(x: Word): Word { Rotr(x, 7) ^ Rotr(x, 18) ^ (x >> 3) }
  function S1(x: Word): Word { Rotr(x, 17) ^ Rotr(x, 19) ^ (x >> 10) }

  /** The least significant byte of a word (C's conversion to unsigned char). */
  function LowByte(x: Word): Byte { (x & 0xff) as Byte }

  /** The least significant byte of a non-negative integer. */
  function LowByteOf(x: nat): Byte { (x % 256) as Byte }

  // ---------------------------------------------------------------------------
  // Message schedule and compression (FIPS 180-4 section 6.2.2)
  // ---------------------------------------------------------------------------

  /** Word `i` of a block, read big-endian. */
  function BlockWord(block: Block, i: nat): Word
    requires i < 16
  {
    (block[4 * i] as Word << 24) | (block[4 * i + 1] as Word << 16)
    | (block[4 * i + 2] as Word << 8) | block[4 * i + 3] as Word
  }

  /** W_t from W_{t-2}, W_{t-7}, W_{t-15} and W_{t-16}, modulo 2^32. */
  function ScheduleWord(w2: Word, w7: Word, w15: Word, w16: Word): Word
  {
    S1(w2) + w7 + S0(w15) + w16
  }

  /** The next word of the message schedule after the words `w`. */
  function NextScheduleWord(w: seq<Word>): Word
    requires 16 <= |w|
  {
    var t := |w|;
    ScheduleWord(w[t - 2], w[t - 7], w[t - 15], w[t - 16])
  }

  /** Extends a schedule prefix to all 64 words; the prefix is kept. */
  function Expand(w: seq<Word>): (r: seq<Word>)
    requires 16 <= |w| <= 64
    ensures |r| == 64 && r[..|w|] == w
    decreases 64 - |w|
  {
    if |w| == 64 then w else Expand(w + [NextScheduleWord(w)])
  }

  /** The message schedule W0..W63 of one block. */
  function Schedule(block: Block): (w: seq<Word>)
    ensures |w| == 64
  {
    Expand(seq(16, i requires 0 <= i < 16 => BlockWord(block, i)))
  }

  /** The first 16 schedule words are the block's words. */
  lemma ScheduleStartsWithBlock(block: Block)
    ensures forall j :: 0 <= j < 16 ==> Schedule(block)[j] == BlockWord(block, j)
  {
    var m := seq(16, i requires 0 <= i < 16 => BlockWord(block, i));
    assert Schedule(block)[..16] == m;
  }

  lemma {:induction false} ExpandRecurrence(w: seq<Word>, t: nat)
    requires 16 <= |w| <= t < 64
    ensures Expand(w)[t] == NextScheduleWord(Expand(w)[..t])
    decreases t - |w|
  {
    var w' := w + [NextScheduleWord(w)];
    assert Expand(w) == Expand(w');
    if |w| == t {
      assert Expand(w')[..|w'|] == w';
      assert Expand(w)[..t] == w;
    } else {
      ExpandRecurrence(w', t);
    }
  }

  /** For 16 <= t < 64, W_t = sigma1(W_{t-2}) + W_{t-7} + sigma0(W_{t-15}) + W_{t-16}. */
  lemma ScheduleRecurrence(block: Block, t: nat)
    requires 16 <= t < 64
    ensures var w := Schedule(block);
      w[t] == ScheduleWord(w[t - 2], w[t - 7], w[t - 15], w[t - 16])
  {
    ExpandRecurrence(seq(16, i requires 0 <= i < 16 => BlockWord(block, i)), t);
  }

  /** T1 of a round, from h, e, f, g, K_t and W_t. */
  function Temp1(h: Word, e: Word, f: Word, g: Word, kt: Word, wt: Word): Word
  {
    h + Sum1(e) + Ch(e, f, g) + kt + wt
  }

  /** T2 of a round, from a, b and c. */
  function Temp2(a: Word, b: Word, c: Word): Word
  {
    Sum0(a) + Maj(a, b, c)
  }

  /** One of the 64 rounds (step 3). */
  function Round(v: Vars, kt: Word, wt: Word): Vars
  {
    var t1 := Temp1(v.h, v.e, v.f, v.g, kt, wt);
    var t2 := Temp2(v.a, v.b, v.c);
    Vars(Add(t1, t2), v.a, v.b, v.c, Add(v.d, t1), v.e, v.f, v.g)
  }

  /** Rounds 0..n-1 applied to `v`. */
  function Rounds(v: Vars, w: seq<Word>, n: nat): Vars
    requires |w| == 64 && n <= 64
  {
    if n == 0 then v else Round(Rounds(v, w, n - 1), K[n - 1], w[n - 1])
  }

  /** The compression function: the hash value after one more block (steps 2 to 4). */
  function Compress(hv: Hash, block: Block): Hash
  {
    var v := Rounds(Vars(hv.h0, hv.h1, hv.h2, hv.h3, hv.h4, hv.h5, hv.h6, hv.h7), Schedule(block), 64);
    Hash(Add(hv.h0, v.a), Add(hv.h1, v.b), Add(hv.h2, v.c), Add(hv.h3, v.d),
         Add(hv.h4, v.e), Add(hv.h5, v.f), Add(hv.h6, v.g), Add(hv.h7, v.h))
  }

  /** The hash value after applying the compression function `compress` to
      every 64-byte block of `m` in order, starting from `hv`. SHA-256 uses
      `Compress`; the streaming context is proved against any function that
      agrees with it (see Agrees). */
  function HashBlocks(compress: (Hash, Block) -> Hash, hv: Hash, m: seq<Byte>): Hash
    requires |m| % 64 == 0
    decreases |m|
  {
    if m == [] then hv else HashBlocks(compress, compress(hv, m[..64]), m[64..])
  }

  /** `compress` computes the SHA-256 compression function. The trigger keeps
      the definition of `Compress` out of proofs that do not mention it. */
  ghost predicate Agrees(compress: (Hash, Block) -> Hash)
  {
    forall hv, block {:trigger Compress(hv, block)} :: compress(hv, block) == Compress(hv, block)
  }

  /** Hashing in two runs of whole blocks is hashing the concatenation. */
  lemma {:induction false} HashBlocksAppend(compress: (Hash, Block) -> Hash, hv: Hash, m1: seq<Byte>, m2: seq<Byte>)
    requires |m1| % 64 == 0 && |m2| % 64 == 0
    ensures HashBlocks(compress, hv, m1 + m2) == HashBlocks(compress, HashBlocks(compress, hv, m1), m2)
    decreases |m1|
  {
    if m1 == [] {
      assert m1 + m2 == m2;
    } else {
      assert (m1 + m2)[..64] == m1[..64];
      assert (m1 + m2)[64..] == m1[64..] + m2;
      HashBlocksAppend(compress, compress(hv, m1[..64]), m1[64..], m2);
    }
  }

  /** Hashing a single block is compressing it. */
  lemma HashBlocksOne(compress: (Hash, Block) -> Hash, hv: Hash, block: Block)
    ensures HashBlocks(compress, hv, block) == compress(hv, block)
  {
    assert block[..64] == block;
    assert block[64..] == [];
  }

  /** Compressing the blocks of `m` and then one more block is hashing `m + block`. */
  lemma HashBlocksSnoc(compress: (Hash, Block) -> Hash, hv: Hash, m: seq<Byte>, block: Block)
    requires |m| % 64 == 0
    ensures HashBlocks(compress, hv, m + block) == compress(HashBlocks(compress, hv, m), block)
  {
    HashBlocksAppend(compress, hv, m, block);
    HashBlocksOne(compress, HashBlocks(compress, hv, m), block);
  }

  /** Functions that agree with Compress hash every message alike. */
  lemma {:induction false} AgreeingHashBlocks(compress: (Hash, Block) -> Hash, hv: Hash, m: seq<Byte>)
    requires Agrees(compress) && |m| % 64 == 0
    ensures HashBlocks(compress, hv, m) == HashBlocks(Compress, hv, m)
    decreases |m|
  {
    if m != [] {
      var block: Block := m[..64];
      assert compress(hv, block) == Compress(hv, block);
      AgreeingHashBlocks(compress, Compress(hv, block), m[64..]);
    }
  }

  // ---------------------------------------------------------------------------
  // Padding (FIPS 180-4 section 5.1.1) and the digest (section 6.2.2, step 4)
  // ---------------------------------------------------------------------------

  function Zeros(n: nat): (r: seq<Byte>)
    ensures |r| == n && forall i :: 0 <= i < n ==> r[i] == 0
  {
    seq(n, _ => 0)
  }

  /** A 32-bit value as four bytes, most significant first. */
  function U32Bytes(x: nat): (r: seq<Byte>)
    ensures |r| == 4
  {
    [LowByteOf(x / 0x100_0000), LowByteOf(x / 0x1_0000), LowByteOf(x / 0x100), LowByteOf(x)]
  }

  /** A bit length as the 64-bit big-endian field that ends the padding:
      the high 32 bits, then the low 32 bits. */
  function LengthBytes(bits: nat): (r: seq<Byte>)
    ensures |r| == 8
  {
    U32Bytes((bits / 0x1_0000_0000) % 0x1_0000_0000) + U32Bytes(bits % 0x1_0000_0000)
  }

  /** Message padding with a given length field: the byte 0x80, the fewest zero
      bytes that leave the total 8 short of a multiple of 64, then the length. */
  function PadWith(m: seq<Byte>, bits: nat): (r: seq<Byte>)
    ensures |r| % 64 == 0 && 64 <= |r| && |m| + 9 <= |r| < |m| + 73
  {
    m + [0x80] + Zeros((55 - |m|) % 64) + LengthBytes(bits)
  }

  /** The padded message starts with the message and the byte 0x80, ends with
      the length field, and holds only zero bytes in between. */
  lemma PaddingShape(m: seq<Byte>, bits: nat)
    ensures var r := PadWith(m, bits);
            r[..|m|] == m && r[|m|] == 0x80 && r[|r| - 8..] == LengthBytes(bits)
            && forall i :: |m| < i < |r| - 8 ==> r[i] == 0
  {
    var r := PadWith(m, bits);
    var z := Zeros((55 - |m|) % 64);
    assert r == m + [0x80] + z + LengthBytes(bits);
    assert r[..|m|] == m;
    assert r[|r| - 8..] == LengthBytes(bits);
    forall i | |m| < i < |r| - 8
      ensures r[i] == 0
    {
      assert r[i] == z[i - |m| - 1];
    }
  }

  /** FIPS 180-4 padding: the length field is the message length in bits. */
  function Pad(m: seq<Byte>): seq<Byte>
  {
    PadWith(m, 8 * |m|)
  }

  /** A word serialised big-endian. */
  function WordBytes(x: Word): seq<Byte>
  {
    [LowByte(x >> 24), LowByte(x >> 16), LowByte(x >> 8), LowByte(x)]
  }

  /** Words serialised big-endian one after the other. */
  function WordsBytes(ws: seq<Word>): (r: seq<Byte>)
    ensures |r| == 4 * |ws|
  {
    if ws == [] then [] else WordsBytes(ws[..|ws| - 1]) + WordBytes(ws[|ws| - 1])
  }

  /** The hash value H0..H7 serialised big-endian, word by word. */
  function HashBytes(hv: Hash): (r: seq<Byte>)
    ensures |r| == 32
  {
    WordsBytes([hv.h0, hv.h1, hv.h2, hv.h3, hv.h4, hv.h5, hv.h6, hv.h7])
  }

  /** The digest of `m` padded with the length field `bits`. */
  function DigestWith(m: seq<Byte>, bits: nat): (r: seq<Byte>)
    ensures |r| == 32
  {
    HashBytes(HashBlocks(Compress, IV, PadWith(m, bits)))
  }

  /** SHA-256 of `m` (FIPS 180-4 section 6.2). */
  function Digest(m: seq<Byte>): (r: seq<Byte>)
    ensures |r| == 32
  {
    DigestWith(m, 8 * |m|)
  }

  /** A hash value reached by a function that agrees with Compress over the
      padded message serialises to the digest. */
  lemma AgreeingDigest(compress: (Hash, Block) -> Hash, m: seq<Byte>, bits: nat, hv: Hash)
    requires Agrees(compress) && hv == HashBlocks(compress, IV, PadWith(m, bits))
    ensures HashBytes(hv) == DigestWith(m, bits)
  {
    AgreeingHashBlocks(compress, IV, PadWith(m, bits));
  }
}
