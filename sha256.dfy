/**
 * The streaming SHA-256 of aes/sha256.c over the SHA256_CONTEXT record of
 * paes/sha256.h: eight chaining words, a 32-bit block counter, a 64-byte
 * buffer and its fill count. Every operation is proved against the functional
 * definition in module Sha256Spec.
 *
 * The chaining words h0..h7 are kept together as one `Hash` value `h`. The
 * counters `nblocks` (a u_int32_t) and `count` (an int) are mathematical
 * integers, and the 32-bit wrap-around of `nblocks` is written out.
 */
module Sha256 {
  import opened Sha256Spec


  /** 64 * nblocks + count is the number of bytes written, modulo 2^38, whenever
      nblocks counts the whole blocks of n bytes modulo 2^32 and c < 64 more follow. */
  lemma CounterArithmetic(n: nat, c: nat)
    requires n % 64 == 0 && c < 64
    ensures 64 * ((n / 64) % 0x1_0000_0000) + c == (n + c) % 0x40_0000_0000
  {
    var q := n / 64;
    assert n == 64 * q;
    var r := q % 0x1_0000_0000;
    assert q == (q / 0x1_0000_0000) * 0x1_0000_0000 + r;
    assert n + c == (q / 0x1_0000_0000) * 0x40_0000_0000 + (64 * r + c);
    assert 0 <= 64 * r + c < 0x40_0000_0000;
  }

  /** A count below 64 that leaves a multiple of 64 before it is the remainder. */
  lemma BufferedIsRemainder(n: nat, c: nat)
    requires c <= n && c < 64 && (n - c) % 64 == 0
    ensures c == n % 64
  {
    assert n == 64 * ((n - c) / 64) + c;
  }

  /** The remainder and quotient by 2^32 of k * 2^32 + y, for y < 2^32. */
  lemma DivMod32(x: int, k: int, y: int)
    requires 0 <= y < 0x1_0000_0000 && x == k * 0x1_0000_0000 + y
    ensures x % 0x1_0000_0000 == y && x / 0x1_0000_0000 == k
  {
  }

  /** The arithmetic of BitCount: the carry into msb never happens, because
      lsb is a multiple of 64 before the count is added, and shifting the three
      top bits of lsb into msb cannot collide with msb's own bits. */
  lemma BitCountArithmetic(nblocks: nat, count: nat, sum: nat)
    requires nblocks < 0x1_0000_0000 && count < 64 && sum == (nblocks * 64) % 0x1_0000_0000 + count
    ensures sum < 0x1_0000_0000
    ensures ((nblocks / 0x400_0000) * 8) % 0x1_0000_0000 + sum / 0x2000_0000 < 0x1_0000_0000
    ensures (((nblocks / 0x400_0000) * 8) % 0x1_0000_0000 + sum / 0x2000_0000) * 0x1_0000_0000 + (sum * 8) % 0x1_0000_0000
            == 8 * (64 * nblocks + count)
  {
    var q, r := nblocks / 0x400_0000, nblocks % 0x400_0000;
    assert q < 64;
    DivMod32(nblocks * 64, q, r * 64);
    var r1, r2 := sum / 0x2000_0000, sum % 0x2000_0000;
    DivMod32(sum * 8, r1, r2 * 8);
    DivMod32(q * 8, 0, q * 8);
  }

  /** Two 32-bit words msb:lsb with value `bits` are the two halves of the
      length field. */
  lemma LengthFieldWords(bits: nat, msb: nat, lsb: nat)
    requires msb < 0x1_0000_0000 && lsb < 0x1_0000_0000 && msb * 0x1_0000_0000 + lsb == bits
    ensures LengthBytes(bits) == U32Bytes(msb) + U32Bytes(lsb)
  {
    LengthHalves(bits, msb, lsb);
  }

  lemma LengthHalves(bits: nat, msb: nat, lsb: nat)
    requires msb < 0x1_0000_0000 && lsb < 0x1_0000_0000 && msb * 0x1_0000_0000 + lsb == bits
    ensures (bits / 0x1_0000_0000) % 0x1_0000_0000 == msb && bits % 0x1_0000_0000 == lsb
  {
  }

  /** The padded message is what is already compressed, the head of the last
      block, and the length field. */
  lemma LastBlockOfPadding(m: seq<Byte>, bits: nat, done: seq<Byte>, head: seq<Byte>, len: seq<Byte>)
    requires done + head == m + [0x80] + Zeros((55 - |m|) % 64) && len == LengthBytes(bits)
    ensures PadWith(m, bits) == done + (head + len)
  {
  }

  /** The compressed bytes followed by the buffered tail, 0x80 and z zero
      bytes are the message followed by 0x80 and z zero bytes. */
  lemma PaddedHead(m: seq<Byte>, done: seq<Byte>, tail: seq<Byte>, head: seq<Byte>, z: nat)
    requires m == done + tail && head == tail + [0x80] + Zeros(z)
    ensures done + head == m + [0x80] + Zeros(z)
  {
  }

  /** The number of zero bytes PadWith puts after 0x80, by the fill of the last block. */
  lemma PaddingZeros(n: nat)
    ensures (55 - n) % 64 == if n % 64 < 56 then 55 - n % 64 else 119 - n % 64
  {
    var k := n / 64;
    assert n == 64 * k + n % 64;
    assert 55 - n == 64 * (-k) + (55 - n % 64);
    if n % 64 >= 56 {
      assert 55 - n == 64 * (-k - 1) + (119 - n % 64);
    }
  }

  /** One more block increments the block counter modulo 2^32. */
  lemma NextBlockCount(n: nat)
    requires n % 64 == 0
    ensures ((n + 64) / 64) % 0x1_0000_0000 == ((n / 64) % 0x1_0000_0000 + 1) % 0x1_0000_0000
  {
    assert (n + 64) / 64 == n / 64 + 1;
  }

  /** A SHA256_CONTEXT. The ghost members exist only for the proofs:
      `absorbed` is every byte written since `Init`, and `compress` is the
      compression function that `Transform` computes, fixed to
      Sha256Spec.Compress at construction. */
  class Context {
    var h: Hash        // h0..h7
    var nblocks: int   // u_int32_t: blocks compressed by sha256_write, modulo 2^32
    const buf: array<Byte>
    var count: int     // bytes waiting in buf
    ghost var absorbed: seq<Byte>
    ghost var hashed: seq<Byte>
    ghost const compress: (Hash, Block) -> Hash

    /** What holds of a context from its construction on. */
    ghost predicate Allocated()
    {
      buf.Length == 64 && Agrees(compress)
    }

    /** The context ties its fields to the bytes written so far: h is the hash
        value after the whole blocks, nblocks counts those blocks modulo 2^32,
        and buf[0..count) holds the remaining bytes. A full buffer (count == 64)
        is allowed: it is compressed at the next write or flush. */
    ghost predicate Consistent()
      reads this, buf
    {
      Allocated() && 0 <= count <= 64 && |hashed| % 64 == 0
      && h == HashBlocks(compress, IV, hashed)
      && nblocks == (|hashed| / 64) % 0x1_0000_0000
      && absorbed == hashed + buf[..count]
    }

    /** The state after every sha256_write: consistent, and the buffer not full. */
    ghost predicate Valid()
      reads this, buf
    {
      Consistent() && count < 64
    }

    constructor ()
      ensures Allocated() && fresh(buf)
    {
      buf := new Byte[64];
      compress := Compress;
    }

    /** sha256_init: the initial hash value and empty counters. */
    method Init()
      requires Allocated()
      modifies this
      ensures Valid() && absorbed == []
      ensures h == IV && nblocks == 0 && count == 0
    {
      h := IV;
      nblocks := 0;
      count := 0;
      absorbed := [];
      hashed := [];
    }

    /** The message schedule of a block in a fresh array: the 16 words of the
        block read big-endian, then W16..W63 by the recurrence. */
    static method LoadSchedule(data: Block) returns (w: array<Word>)
      ensures fresh(w) && w[..] == Schedule(data)
    {
      w := new Word[64];
      var i := 0;
      while i < 16
        modifies w
        invariant 0 <= i <= 16
        invariant forall j :: 0 <= j < i ==> w[j] == BlockWord(data, j)
      {
        w[i] := (data[4 * i] as Word << 24) | (data[4 * i + 1] as Word << 16)
                | (data[4 * i + 2] as Word << 8) | data[4 * i + 3] as Word;
        i := i + 1;
      }
      ghost var schedule := Schedule(data);
      ScheduleStartsWithBlock(data);
      var t := 16;
      while t < 64
        modifies w
        invariant 16 <= t <= 64
        invariant forall j :: 0 <= j < t ==> w[j] == schedule[j]
      {
        ScheduleRecurrence(data, t);
        w[t] := ScheduleWord(w[t - 2], w[t - 7], w[t - 15], w[t - 16]);
        t := t + 1;
      }
      assert w[..] == schedule;
    }

    /** The 64 rounds on the working variables a..h. */
    static method RunRounds(start: Vars, w: array<Word>) returns (v: Vars)
      requires w.Length == 64
      ensures v == Rounds(start, w[..], 64)
    {
      var a, b, c, d, e, f, g, h := start.a, start.b, start.c, start.d, start.e, start.f, start.g, start.h;
      ghost var schedule := w[..];
      var t := 0;
      while t < 64
        invariant 0 <= t <= 64
        invariant Vars(a, b, c, d, e, f, g, h) == Rounds(start, schedule, t)
      {
        var t1 := Temp1(h, e, f, g, K[t], w[t]);
        var t2 := Temp2(a, b, c);
        h := g;
        g := f;
        f := e;
        e := Add(d, t1);
        d := c;
        c := b;
        b := a;
        a := Add(t1, t2);
        t := t + 1;
      }
      v := Vars(a, b, c, d, e, f, g, h);
    }

    /** The body of transform on a value: schedule, rounds, and the final
        addition into the chaining words. */
    static method CompressBlock(hv: Hash, data: Block) returns (r: Hash)
      ensures r == Compress(hv, data)
    {
      var w := LoadSchedule(data);
      var v := RunRounds(Vars(hv.h0, hv.h1, hv.h2, hv.h3, hv.h4, hv.h5, hv.h6, hv.h7), w);
      r := Hash(Add(hv.h0, v.a), Add(hv.h1, v.b), Add(hv.h2, v.c), Add(hv.h3, v.d),
                Add(hv.h4, v.e), Add(hv.h5, v.f), Add(hv.h6, v.g), Add(hv.h7, v.h));
    }

    /** transform: compresses one 64-byte block into the chaining words. */
    method Transform(data: Block)
      requires Agrees(compress)
      modifies this`h
      ensures h == compress(old(h), data)
    {
      h := CompressBlock(h, data);
    }

    /** The body of the flush in sha256_write: the full buffer is compressed
        as one block, emptied and counted. */
    method CompressBuffer()
      requires Allocated() && count == 64
      modifies this`h, this`count, this`nblocks
      ensures h == compress(old(h), buf[..]) && count == 0
      ensures nblocks == (old(nblocks) + 1) % 0x1_0000_0000
    {
      Transform(buf[..]);
      count := 0;
      nblocks := (nblocks + 1) % 0x1_0000_0000;
    }

    /** sha256_write(hd, NULL, 0): a full buffer is compressed and emptied. */
    method Flush()
      requires Consistent()
      modifies this`h, this`count, this`nblocks, this`hashed
      ensures Valid() && absorbed == old(absorbed)
      ensures old(count) == 64 ==> count == 0
      ensures old(count) < 64 ==> h == old(h) && count == old(count) && nblocks == old(nblocks)
    {
      if count == 64 {
        assert buf[..count] == buf[..];
        HashBlocksSnoc(compress, IV, hashed, buf[..]);
        NextBlockCount(|hashed|);
        CompressBuffer();
        hashed := absorbed;
        assert buf[..count] == [];
      }
    }

    /** One byte into the buffer: hd->buf[hd->count++] = byte. */
    method Put(x: Byte)
      requires Consistent() && count < 64
      modifies this`count, this`absorbed, buf
      ensures Consistent() && absorbed == old(absorbed) + [x] && count == old(count) + 1
    {
      buf[count] := x;
      absorbed := absorbed + [x];
      count := count + 1;
      assert buf[..count] == old(buf[..count]) + [x];
    }

    /** The byte-copying loop of sha256_write: copies input bytes from `pos`
        on into the buffer until the input ends or the buffer is full. The
        ghost `start` is the message before this call of sha256_write. */
    method Fill(ghost start: seq<Byte>, inbuf: seq<Byte>, pos: nat) returns (next: nat)
      requires Consistent() && count < 64 && pos <= |inbuf|
      requires absorbed == start + inbuf[..pos]
      modifies this`count, this`absorbed, buf
      ensures Consistent() && pos <= next <= |inbuf|
      ensures next == |inbuf| || count == 64
      ensures count == old(count) + (next - pos)
      ensures absorbed == start + inbuf[..next]
    {
      next := pos;
      while next < |inbuf| && count < 64
        invariant Consistent() && pos <= next <= |inbuf|
        invariant count == old(count) + (next - pos)
        invariant absorbed == start + inbuf[..next]
      {
        Put(inbuf[next]);
        assert inbuf[..next + 1] == inbuf[..next] + [inbuf[next]];
        next := next + 1;
      }
    }

    /** One pass of the block loop of sha256_write: a whole block of the
        input is compressed with the buffer empty. */
    method Absorb(block: Block)
      requires Valid() && count == 0
      modifies this`h, this`count, this`nblocks, this`absorbed, this`hashed
      ensures Valid() && count == 0 && absorbed == old(absorbed) + block
    {
      assert buf[..count] == [] && hashed == absorbed;
      HashBlocksSnoc(compress, IV, hashed, block);
      NextBlockCount(|hashed|);
      Transform(block);
      count := 0;
      nblocks := (nblocks + 1) % 0x1_0000_0000;
      absorbed := absorbed + block;
      hashed := absorbed;
      assert absorbed == hashed + buf[..count];
    }

    /** The block loop of sha256_write: with the buffer empty, every whole
        block of the input from `pos` on is compressed straight from the input. */
    method Blocks(ghost start: seq<Byte>, inbuf: seq<Byte>, pos: nat) returns (next: nat)
      requires Valid() && count == 0 && pos <= |inbuf|
      requires absorbed == start + inbuf[..pos]
      modifies this`h, this`count, this`nblocks, this`absorbed, this`hashed
      ensures Valid() && count == 0 && pos <= next <= |inbuf| && |inbuf| - next < 64
      ensures absorbed == start + inbuf[..next]
    {
      next := pos;
      while |inbuf| - next >= 64
        invariant Valid() && count == 0 && pos <= next <= |inbuf|
        invariant absorbed == start + inbuf[..next]
      {
        Absorb(inbuf[next..next + 64]);
        assert inbuf[..next + 64] == inbuf[..next] + inbuf[next..next + 64];
        next := next + 64;
      }
    }

    /** sha256_write: appends `inbuf` to the message. A partly filled buffer
        is topped up first; once it is empty, whole blocks of the input are
        compressed straight from it, and the tail is buffered. */
    method Write(inbuf: seq<Byte>)
      requires Consistent()
      modifies this`h, this`count, this`nblocks, this`absorbed, this`hashed, buf
      ensures Valid() && absorbed == old(absorbed) + inbuf
    {
      Flush();
      ghost var start := absorbed;
      var pos := 0;
      if count != 0 {
        pos := Fill(start, inbuf, 0);
        Flush();
        if pos == |inbuf| {
          return;
        }
      }
      pos := Blocks(start, inbuf, pos);
      if pos < |inbuf| {
        pos := Fill(start, inbuf, pos);
      }
    }

    /** The length in the counters: 64 * nblocks + count is the number of
        bytes written, modulo 2^38. */
    lemma CountersTrackLength()
      requires Valid()
      ensures 0 <= nblocks < 0x1_0000_0000
      ensures 64 * nblocks + count == |absorbed| % 0x40_0000_0000
    {
      CounterArithmetic(|hashed|, count);
    }

    /** The padding loops of sha256_final: from `count` up to `limit`, the
        buffer is filled with zero bytes. */
    method ZeroFill(limit: int)
      requires buf.Length == 64 && 0 <= count <= limit <= 64
      modifies this`count, buf
      ensures count == limit
      ensures buf[..] == old(buf[..count]) + Zeros(limit - old(count)) + old(buf[limit..])
    {
      ghost var start, before := count, buf[..];
      while count < limit
        invariant start <= count <= limit
        invariant buf[..] == before[..start] + Zeros(count - start) + before[count..]
      {
        buf[count] := 0;
        count := count + 1;
        assert Zeros(count - start) == Zeros(count - 1 - start) + [0];
      }
    }

    /** The padding step of sha256_final: the byte 0x80 and zero bytes up to
        offset 56 of the last block. When fewer than 9 bytes are free, the
        zeros complete a block that is compressed, and the next block starts
        with 56 zero bytes (the memset). `done` is everything compressed so
        far, so that `done + buf[..56]` is the message and its padding without
        the length field. */
    method PadBuffer() returns (ghost done: seq<Byte>)
      requires Valid()
      modifies this`h, this`count, this`nblocks, buf
      ensures |done| % 64 == 0 && h == HashBlocks(compress, IV, done)
      ensures nblocks == (|done| / 64) % 0x1_0000_0000
      ensures done + buf[..56] == absorbed + [0x80] + Zeros((55 - |absorbed|) % 64)
      ensures count == (if |absorbed| % 64 < 56 then 56 else 0)
    {
      ghost var m := absorbed;
      BufferedIsRemainder(|m|, count);
      PaddingZeros(|m|);
      ghost var tail := buf[..count];
      done := hashed;
      assert m == done + tail;
      buf[count] := 0x80;
      count := count + 1;
      assert buf[..count] == tail + [0x80];
      if count <= 56 {
        ZeroFill(56);
        assert buf[..56] == tail + [0x80] + Zeros(55 - |tail|);
        PaddedHead(m, done, tail, buf[..56], 55 - |tail|);
      } else {
        ZeroFill(64);
        done := PadExtraBlock(done, tail);
      }
    }

    /** The second branch of the padding in sha256_final: the block of the
        message tail, 0x80 and zeros is compressed, and the next block starts
        with 56 zero bytes (the memset). */
    method PadExtraBlock(ghost hashed0: seq<Byte>, ghost tail: seq<Byte>) returns (ghost done: seq<Byte>)
      requires buf.Length == 64 && Agrees(compress) && count == 64 && |tail| < 64
      requires |hashed0| % 64 == 0 && h == HashBlocks(compress, IV, hashed0)
      requires nblocks == (|hashed0| / 64) % 0x1_0000_0000
      requires buf[..] == tail + [0x80] + Zeros(63 - |tail|)
      modifies this`h, this`count, this`nblocks, buf
      ensures |done| % 64 == 0 && h == HashBlocks(compress, IV, done) && count == 0
      ensures nblocks == (|done| / 64) % 0x1_0000_0000
      ensures done + buf[..56] == hashed0 + tail + [0x80] + Zeros(119 - |tail|)
    {
      ghost var block: Block := buf[..];
      HashBlocksSnoc(compress, IV, hashed0, block);
      NextBlockCount(|hashed0|);
      CompressBuffer();
      done := hashed0 + block;
      forall i | 0 <= i < 56 {
        buf[i] := 0;
      }
      assert buf[..56] == Zeros(56);
      assert Zeros(119 - |tail|) == Zeros(63 - |tail|) + Zeros(56);
    }

    /** Lines 148-160 of sha256_final: the message length in bits as two
        32-bit words msb:lsb, from the block counter and the buffer fill. */
    static method BitCount(nblocks: int, count: int, ghost bits: nat) returns (msb: int, lsb: int)
      requires 0 <= nblocks < 0x1_0000_0000 && 0 <= count < 64
      requires bits == 8 * (64 * nblocks + count)
      ensures 0 <= msb < 0x1_0000_0000 && 0 <= lsb < 0x1_0000_0000
      ensures LengthBytes(bits) == U32Bytes(msb) + U32Bytes(lsb)
    {
      var t := nblocks;
      lsb := (t * 64) % 0x1_0000_0000;     // t << 6
      msb := t / 0x400_0000;         // t >> 26
      t := lsb;
      ghost var sum := lsb + count;
      BitCountArithmetic(nblocks, count, sum);
      DivMod32(sum, 0, sum);
      lsb := (lsb + count) % 0x1_0000_0000;
      if lsb < t {
        msb := msb + 1;
      }
      t := lsb;
      lsb := (lsb * 8) % 0x1_0000_0000;    // lsb <<= 3
      msb := (msb * 8) % 0x1_0000_0000;    // msb <<= 3
      msb := msb + t / 0x2000_0000;  // msb |= t >> 29, on disjoint bits
      assert msb == ((nblocks / 0x400_0000) * 8) % 0x1_0000_0000 + sum / 0x2000_0000;
      assert lsb == (sum * 8) % 0x1_0000_0000;
      LengthFieldWords(bits, msb, lsb);
    }

    /** The length field at offsets 56..63, most significant byte first. */
    method StoreLength(msb: int, lsb: int)
      requires buf.Length == 64 && 0 <= msb && 0 <= lsb
      modifies buf
      ensures buf[..56] == old(buf[..56]) && buf[56..] == U32Bytes(msb) + U32Bytes(lsb)
    {
      buf[56] := LowByteOf(msb / 0x100_0000);
      buf[57] := LowByteOf(msb / 0x1_0000);
      buf[58] := LowByteOf(msb / 0x100);
      buf[59] := LowByteOf(msb);
      buf[60] := LowByteOf(lsb / 0x100_0000);
      buf[61] := LowByteOf(lsb / 0x1_0000);
      buf[62] := LowByteOf(lsb / 0x100);
      buf[63] := LowByteOf(lsb);
    }

    /** The first n of the words are in the buffer big-endian, and the
        bytes after them are those of `before`. */
    ghost predicate DigestStored(words: seq<Word>, n: nat, before: seq<Byte>)
      reads this, buf
    {
      n <= |words| && 4 * n <= |before| && buf[..] == WordsBytes(words[..n]) + before[4 * n..]
    }

    /** X(n): word n of the words stored after the first n. */
    method StoreNth(words: seq<Word>, n: nat, ghost before: seq<Byte>)
      requires buf.Length == 64 && |words| == 8 && n < 8 && |before| == 64
      requires DigestStored(words, n, before)
      modifies buf
      ensures DigestStored(words, n + 1, before)
    {
      ghost var stored := buf[..];
      StoreWord(4 * n, words[n]);
      StoredStep(words, n, before, stored, buf[..]);
    }

    /** Storing word n big-endian after the first n extends the stored words
        by one. */
    static lemma StoredStep(words: seq<Word>, n: nat, before: seq<Byte>, b0: seq<Byte>, b1: seq<Byte>)
      requires |words| == 8 && n < 8 && |before| == 64 && |b1| == 64
      requires b0 == WordsBytes(words[..n]) + before[4 * n..]
      requires b1[..4 * n] == b0[..4 * n] && b1[4 * n..4 * n + 4] == WordBytes(words[n])
      requires b1[4 * n + 4..] == b0[4 * n + 4..]
      ensures b1 == WordsBytes(words[..n + 1]) + before[4 * n + 4..]
    {
      assert words[..n + 1][..n] == words[..n];
      assert b0[..4 * n] == WordsBytes(words[..n]);
      assert b0[4 * n + 4..] == before[4 * n + 4..];
      assert b1 == b1[..4 * n] + b1[4 * n..4 * n + 4] + b1[4 * n + 4..];
    }

    /** The X(0) .. X(7) steps of sha256_final: h0..h7 big-endian into the
        first 32 bytes of the buffer. */
    method StoreDigest()
      requires buf.Length == 64
      modifies buf
      ensures buf[..] == HashBytes(h) + old(buf[32..])
    {
      var words := [h.h0, h.h1, h.h2, h.h3, h.h4, h.h5, h.h6, h.h7];
      ghost var before := buf[..];
      assert words[..0] == [] && before[0..] == before;
      StoreFour(words, 0, before);
      StoreFour(words, 4, before);
      assert words[..8] == words;
    }

    /** X(n) .. X(n + 3): four more words stored. */
    method StoreFour(words: seq<Word>, n: nat, ghost before: seq<Byte>)
      requires buf.Length == 64 && |words| == 8 && n <= 4 && |before| == 64
      requires DigestStored(words, n, before)
      modifies buf
      ensures DigestStored(words, n + 4, before)
    {
      StoreNth(words, n, before);
      StoreNth(words, n + 1, before);
      StoreNth(words, n + 2, before);
      StoreNth(words, n + 3, before);
    }

    /** One X(a) step: a word big-endian into buf[p..p+4]. */
    method StoreWord(p: nat, x: Word)
      requires buf.Length == 64 && p + 4 <= 64
      modifies buf
      ensures buf[..p] == old(buf[..p]) && buf[p..p + 4] == WordBytes(x) && buf[p + 4..] == old(buf[p + 4..])
    {
      buf[p] := LowByte(x >> 24);
      buf[p + 1] := LowByte(x >> 16);
      buf[p + 2] := LowByte(x >> 8);
      buf[p + 3] := LowByte(x);
    }

    /** The padding of sha256_final: 0x80, zeros, and the length field msb:lsb
        at offsets 56..63. `done` is what is compressed so far, and the buffer
        holds the last block of the padded message. */
    method PadWithLength(ghost bits: nat, msb: int, lsb: int) returns (ghost done: seq<Byte>)
      requires Valid() && 0 <= msb && 0 <= lsb
      requires LengthBytes(bits) == U32Bytes(msb) + U32Bytes(lsb)
      modifies this`h, this`count, this`nblocks, buf
      ensures |done| % 64 == 0 && h == HashBlocks(compress, IV, done)
      ensures nblocks == (|done| / 64) % 0x1_0000_0000
      ensures done + buf[..] == PadWith(absorbed, bits)
      ensures count == (if |absorbed| % 64 < 56 then 56 else 0)
    {
      ghost var m := absorbed;
      done := PadBuffer();
      ghost var head := buf[..56];
      StoreLength(msb, lsb);
      assert buf[..] == head + buf[56..];
      LastBlockOfPadding(m, bits, done, head, buf[56..]);
    }

    /** The context after the last transform of sha256_final over the padded
        message: h is its hash, the buffer holds h big-endian and then the
        last 32 bytes of the padded message, and nblocks counts the blocks
        before the last. */
    ghost predicate Finished(padded: seq<Byte>)
      reads this, buf
    {
      |padded| % 64 == 0 && 64 <= |padded|
      && h == HashBlocks(compress, IV, padded)
      && buf[..] == HashBytes(h) + padded[|padded| - 32..]
      && nblocks == (|padded| / 64 - 1) % 0x1_0000_0000
    }

    /** The context after sha256_final with the length field `bits`: finished
        over the message padded with `bits`, with count where the padding
        loop stopped. */
    ghost predicate Finalized(bits: nat)
      reads this, buf
    {
      Finished(PadWith(absorbed, bits)) && count == (if |absorbed| % 64 < 56 then 56 else 0)
    }

    /** The steps of sha256_final after the bit count: padding, the final
        transform, and the digest in the first 32 bytes of the buffer. */
    method PadAndCompress(ghost bits: nat, msb: int, lsb: int)
      requires Valid() && 0 <= msb && 0 <= lsb
      requires LengthBytes(bits) == U32Bytes(msb) + U32Bytes(lsb)
      modifies this`h, this`count, this`nblocks, buf
      ensures Finalized(bits)
    {
      ghost var padded := PadWith(absorbed, bits);
      ghost var done := PadWithLength(bits, msb, lsb);
      CompressLast(done, padded);
    }

    /** The final transform of sha256_final and the X(0) .. X(7) steps: the
        last block in the buffer is compressed, and the hash value goes to
        the first 32 bytes of the buffer. */
    method CompressLast(ghost done: seq<Byte>, ghost padded: seq<Byte>)
      requires buf.Length == 64 && Agrees(compress)
      requires |done| % 64 == 0 && h == HashBlocks(compress, IV, done) && done + buf[..] == padded
      requires nblocks == (|done| / 64) % 0x1_0000_0000
      modifies this`h, buf
      ensures Finished(padded)
    {
      assert |padded| / 64 - 1 == |done| / 64;
      ghost var block: Block := buf[..];
      HashBlocksSnoc(compress, IV, done, block);
      Transform(buf[..]);
      assert block[32..] == padded[|padded| - 32..];
      StoreDigest();
    }

    /** The first steps of sha256_final: the flush, then the bit length of
        the message as two 32-bit words msb:lsb. */
    method FlushAndCount() returns (msb: int, lsb: int)
      requires Consistent()
      modifies this`h, this`count, this`nblocks, this`hashed
      ensures Valid() && absorbed == old(absorbed) && 0 <= msb && 0 <= lsb
      ensures LengthBytes(8 * (|absorbed| % 0x40_0000_0000)) == U32Bytes(msb) + U32Bytes(lsb)
    {
      Flush();
      CountersTrackLength();
      msb, lsb := BitCount(nblocks, count, 8 * (|absorbed| % 0x40_0000_0000));
    }

    /** sha256_final: pads the message with 0x80, zeros and the 64-bit bit
        length, compresses the last block or blocks, and leaves the digest in
        the first 32 bytes of the buffer. The bit length is 8 times the byte
        count modulo 2^38, since the counters hold no more. */
    method Final()
      requires Consistent()
      modifies this`h, this`count, this`nblocks, this`hashed, buf
      ensures Finalized(8 * (|absorbed| % 0x40_0000_0000))
    {
      var msb, lsb := FlushAndCount();
      PadAndCompress(8 * (|absorbed| % 0x40_0000_0000), msb, lsb);
    }

    /** sha256_read: the buffer, whose first 32 bytes hold the digest after Final. */
    method Read() returns (r: array<Byte>)
      ensures r == buf
    {
      r := buf;
    }
  }

  /** Contexts that have been written the same bytes agree on every field the
      hash depends on: writing a and then b is the same as writing a + b. */
  lemma SameInputSameState(c1: Context, c2: Context)
    requires c1.Valid() && c2.Valid() && c1.absorbed == c2.absorbed
    ensures c1.h == c2.h && c1.nblocks == c2.nblocks && c1.count == c2.count
    ensures c1.buf[..c1.count] == c2.buf[..c2.count]
  {
    var n := |c1.absorbed|;
    BufferedIsRemainder(n, c1.count);
    BufferedIsRemainder(n, c2.count);
    assert c1.hashed == c1.absorbed[..n - c1.count];
    assert c2.hashed == c2.absorbed[..n - c2.count];
    AgreeingHashBlocks(c1.compress, IV, c1.hashed);
    AgreeingHashBlocks(c2.compress, IV, c2.hashed);
  }

  /** Below 2^38 bytes the length field of sha256_final is the bit length
      of the message, as FIPS 180-4 requires. */
  lemma ShortMessageDigest(m: seq<Byte>)
    requires |m| < 0x40_0000_0000
    ensures DigestWith(m, 8 * (|m| % 0x40_0000_0000)) == Digest(m)
  {
    assert |m| % 0x40_0000_0000 == |m|;
  }

  /** The bytes of a sequence of chunks, one after the other. */
  function Concat(chunks: seq<seq<Byte>>): (r: seq<Byte>)
  {
    if chunks == [] then [] else Concat(chunks[..|chunks| - 1]) + chunks[|chunks| - 1]
  }

  /** The calling sequence of paes/sha256.h: sha256_init, sha256_write once per
      chunk, sha256_final, and the first 32 bytes of sha256_read. However the
      message is cut into chunks, the result is the SHA-256 digest of the whole
      message as long as it is shorter than 2^38 bytes. */
  method HashChunks(chunks: seq<seq<Byte>>) returns (d: seq<Byte>)
    ensures d == DigestWith(Concat(chunks), 8 * (|Concat(chunks)| % 0x40_0000_0000))
    ensures |Concat(chunks)| < 0x40_0000_0000 ==> d == Digest(Concat(chunks))
  {
    var ctx := new Context();
    ctx.Init();
    var i := 0;
    while i < |chunks|
      invariant 0 <= i <= |chunks|
      invariant ctx.Valid() && fresh(ctx.buf) && ctx.absorbed == Concat(chunks[..i])
    {
      ctx.Write(chunks[i]);
      assert chunks[..i + 1][..i] == chunks[..i];
      i := i + 1;
    }
    assert chunks[..i] == chunks;
    ghost var m := ctx.absorbed;
    ctx.Final();
    var out := ctx.Read();
    d := out[..32];
    AgreeingDigest(ctx.compress, m, 8 * (|m| % 0x40_0000_0000), ctx.h);
    if |m| < 0x40_0000_0000 {
      ShortMessageDigest(m);
    }
  }
}
