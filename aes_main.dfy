/** The `main` of the stand-alone AES program: the action check, the
    derivation of nk and nr from the key size argument, the password hash,
    the key schedule, and the loop that gathers the input into 16-byte blocks
    and hands each complete block to `cipher` or `inv_cipher`. The bodies of
    those two transforms are not part of this model: each call is recorded
    with the block buffer it finds. */
module AesMain {
  import opened Gf256
  import opened KeySchedule
  import opened AesCommon
  import Sha256Spec
  import Paes
  import PaesFunctions
  import opened Options

  /** The check of lines 40-44: only "encrypt" and "decrypt" go on. */
  predicate ValidAction(action: string)
  {
    action == "encrypt" || action == "decrypt"
  }

  /** C's `/` on `int`: the quotient truncated toward zero. */
  function TruncDiv(a: int, b: int): (q: int)
    requires b > 0
    ensures 0 <= a ==> q == a / b
    ensures a < 0 ==> q == -((-a) / b)
  {
    if 0 <= a then a / b else -((-a) / b)
  }

  /** The two derived globals. */
  datatype KeyShape = KeyShape(nk: int, nr: int)

  /** Lines 46-49 as written: nk = key_bits / 32 in C division, nr = nk + 6,
      with no check of key_bits. */
  function DeriveShapeAsWritten(keyBits: int): (r: KeyShape)
    ensures r.nr == r.nk + 6
    ensures 0 <= keyBits ==> 0 <= r.nk && 32 * r.nk <= keyBits < 32 * r.nk + 32
    ensures keyBits < 0 ==> r.nk <= 0 && 32 * r.nk - 32 < keyBits <= 32 * r.nk
  {
    var nk := TruncDiv(keyBits, 32);
    KeyShape(nk, nk + 6)
  }

  /** What the unchecked derivation lets through: a 512-bit key size asks
      for 64 key bytes, more than the 32 of the digest, and a schedule of
      368 bytes, more than the 240 of `round_key`; a key size below 32 gives
      nk = 0, by which `key_expansion` divides; and a negative key size gives
      a negative nk, which C rounds toward zero. */
  lemma AsWrittenLetsThrough()
    ensures var s := DeriveShapeAsWritten(512);
      s.nk == 16 && s.nr == 22 && 4 * s.nk > 32 && 4 * Words(s.nk, s.nr) == 368 > 240
    ensures DeriveShapeAsWritten(31).nk == 0
    ensures DeriveShapeAsWritten(-40).nk == -1 != -40 / 32
  {
  }

  /** The key sizes the unchecked derivation handles without fault: nk of 1
      to 8 words. */
  predicate SafeKeySize(keyBits: int)
  {
    32 <= keyBits < 288
  }

  /** The unchecked derivation stays within the program's buffers exactly
      for the safe key sizes: `key_expansion` divides by a positive nk, the
      key of nk * 4 bytes is a prefix of the 32-byte digest, and the schedule
      fits `round_key`. Sizes from 32 to 287 other than 128, 192 and 256 give
      the Rijndael schedules for 1, 2, 3, 5 and 7 key words. */
  lemma SafeShape(keyBits: int)
    ensures SafeKeySize(keyBits) <==>
      1 <= DeriveShapeAsWritten(keyBits).nk && 4 * DeriveShapeAsWritten(keyBits).nk <= 32
      && 4 * Words(DeriveShapeAsWritten(keyBits).nk, DeriveShapeAsWritten(keyBits).nr) <= 240
    ensures SafeKeySize(keyBits) ==> DeriveShapeAsWritten(keyBits).nk == keyBits / 32
  {
  }

  /** For a safe shape, `rcon[i / nk]` is read within the 255 entries of
      the table: i / nk < 32 for every word i the schedule computes. */
  lemma SafeRconIndex(nk: int, i: int)
    requires 1 <= nk <= 8 && nk <= i < Words(nk, nk + 6)
    ensures 1 <= i / nk < 32 && i / nk < |Rcon|
  {
    RconSize();
  }

  /** The derivation with the key size check the parallel program makes in
      `check_arguments`: only 128, 192 and 256 bits give a shape. */
  function DeriveShape(keyBits: int): (r: Option<KeyShape>)
    ensures r.Some? <==> Paes.SupportedKeySize(keyBits)
  {
    if Paes.SupportedKeySize(keyBits) then Some(DeriveShapeAsWritten(keyBits)) else None
  }

  /** A checked shape is one of the three AES key lengths: the key of nk * 4
      bytes is a prefix of the 32-byte digest, the schedule fits in
      `round_key`, and the round count agrees with the parallel program's
      `get_rounds_number`. */
  lemma CheckedShapeFits(keyBits: int, s: KeyShape)
    requires DeriveShape(keyBits) == Some(s)
    ensures s.nk == keyBits / 32 && (s.nk == 4 || s.nk == 6 || s.nk == 8) && s.nr == s.nk + 6
    ensures 4 * s.nk == keyBits / 8 <= 32 && 4 * Words(s.nk, s.nr) <= 240
    ensures s.nr == PaesFunctions.GetRoundsNumber(keyBits)
  {
    StandardKeyFits(s.nk);
  }

  /** The two transforms the loop can call. */
  datatype Transform = Cipher | InvCipher

  /** One call of `cipher` or `inv_cipher`: its offset argument and the 16
      bytes of `temp_buffer` at the time of the call. */
  datatype Call = Call(transform: Transform, offset: int, block: seq<Byte>)

  /** The transform the loop selects: `cipher` exactly when the action is
      "encrypt". */
  function TransformFor(action: string): (t: Transform)
    ensures t == Cipher <==> action == "encrypt"
  {
    if action == "encrypt" then Cipher else InvCipher
  }

  /** The calls made for the first `blocks` complete blocks of the input:
      call b has offset 16 b and sees bytes 16 b to 16 b + 15. */
  function Calls(input: seq<Byte>, action: string, blocks: nat): (r: seq<Call>)
    requires 16 * blocks <= |input|
    ensures |r| == blocks
    ensures forall b :: 0 <= b < blocks ==>
      r[b].transform == TransformFor(action) && r[b].offset == 16 * b && r[b].block == input[16 * b..16 * b + 16]
    decreases blocks
  {
    if blocks == 0 then []
    else Calls(input, action, blocks - 1) + [Call(TransformFor(action), 16 * (blocks - 1), input[16 * (blocks - 1)..16 * blocks])]
  }

  /** The bytes the calls see, one block after the other. */
  function Payload(calls: seq<Call>): seq<Byte>
  {
    if calls == [] then [] else Payload(calls[..|calls| - 1]) + calls[|calls| - 1].block
  }

  /** The blocks handed to the transforms are the input up to its last
      complete block, in order, each byte exactly once. */
  lemma {:induction false} PayloadIsInput(input: seq<Byte>, action: string, blocks: nat)
    requires 16 * blocks <= |input|
    ensures Payload(Calls(input, action, blocks)) == input[..16 * blocks]
    decreases blocks
  {
    if blocks > 0 {
      var m := blocks - 1;
      var prev := Calls(input, action, m);
      var last := Call(TransformFor(action), 16 * m, input[16 * m..16 * m + 16]);
      assert Calls(input, action, blocks) == prev + [last];
      PayloadIsInput(input, action, m);
      PayloadSnoc(prev, last);
      SplitPrefix(input, 16 * m, 16 * blocks);
    }
  }

  lemma PayloadSnoc(calls: seq<Call>, c: Call)
    ensures Payload(calls + [c]) == Payload(calls) + c.block
  {
    assert (calls + [c])[..|calls|] == calls;
  }

  lemma SplitPrefix(s: seq<Byte>, a: nat, b: nat)
    requires a <= b <= |s|
    ensures s[..b] == s[..a] + s[a..b]
  {
  }

  /** The last |input| % 16 bytes are never handed to a transform: every
      call covers a whole block that ends before them, at an offset that is a
      multiple of 16. */
  lemma TrailingBytesSkipped(input: seq<Byte>, action: string)
    ensures var calls := Calls(input, action, |input| / 16);
      forall c :: c in calls ==>
        c.offset % 16 == 0 && 0 <= c.offset && c.offset + 16 <= |input| - |input| % 16
  {
    var calls := Calls(input, action, |input| / 16);
    forall c | c in calls
      ensures c.offset % 16 == 0 && 0 <= c.offset && c.offset + 16 <= |input| - |input| % 16
    {
      var b :| 0 <= b < |calls| && calls[b] == c;
      MulMonotone(16, b + 1, |input| / 16);
    }
  }

  /** The store `temp_buffer[pos / 4][pos % 4] = input_file_buffer[k]`: byte
      `pos` of the buffer becomes x, and no other. */
  method StoreCell(a: array2<Byte>, pos: int, x: Byte)
    requires a.Length0 == 4 && a.Length1 == 4 && 0 <= pos < 16
    modifies a
    ensures Cells(a) == old(Cells(a))[pos := x]
  {
    ghost var before := Cells(a);
    var i := pos / 4;
    var j := pos % 4;
    a[i, j] := x;
    forall p | 0 <= p < 16
      ensures Cells(a)[p] == before[pos := x][p]
    {
      assert p == 4 * (p / 4) + p % 4;
    }
  }

  /** The 16 bytes `c` of the block buffer after the first k input bytes,
      `blocks` of whose blocks are complete: the bytes of the block being
      filled, then the rest of the last complete block, or of the buffer's
      `initial` contents when no block is complete yet. */
  ghost predicate Gathered(c: seq<Byte>, input: seq<Byte>, k: int, blocks: int, initial: seq<Byte>)
  {
    0 <= k <= |input| && 0 <= blocks && 0 <= k - 16 * blocks < 16 && |c| == 16 && |initial| == 16
    && forall p :: 0 <= p < 16 ==>
      c[p] == (if p < k - 16 * blocks then input[16 * blocks + p]
               else if 0 < blocks then input[16 * blocks - 16 + p]
               else initial[p])
  }

  /** Storing input byte k at position k - 16 * blocks < 15 keeps the buffer
      gathered. */
  lemma GatherNext(c: seq<Byte>, input: seq<Byte>, k: int, blocks: int, initial: seq<Byte>)
    requires Gathered(c, input, k, blocks, initial) && k < |input| && k - 16 * blocks < 15
    ensures Gathered(c[k - 16 * blocks := input[k]], input, k + 1, blocks, initial)
  {
  }

  /** Storing input byte k at the last position of a block completes it: the
      buffer holds the whole block from 16 * blocks, and the next byte starts
      a new one. */
  lemma GatherLast(c: seq<Byte>, input: seq<Byte>, k: int, blocks: int, initial: seq<Byte>)
    requires Gathered(c, input, k, blocks, initial) && k < |input| && k - 16 * blocks == 15
    ensures c[15 := input[k]] == input[16 * blocks..16 * blocks + 16]
    ensures Gathered(c[15 := input[k]], input, k + 1, blocks + 1, initial)
  {
    var full := c[15 := input[k]];
    assert forall p :: 0 <= p < 16 ==> full[p] == input[16 * blocks + p];
  }

  /** One pass of the loop of lines 75-90 for input byte k: the byte goes to
      temp_buffer[(k % 16) / 4][k % 4], and when it is the last byte of a
      block, `cipher` (for "encrypt") or `inv_cipher` is called with the
      block's offset k - 15. */
  method GatherByte(buffer: array2<Byte>, input: seq<Byte>, action: string, k: int,
                    ghost blocks: int, ghost initial: seq<Byte>, calls: seq<Call>)
    returns (next: int, ghost nextBlocks: int, nextCalls: seq<Call>)
    requires buffer.Length0 == 4 && buffer.Length1 == 4
    requires Gathered(Cells(buffer), input, k, blocks, initial) && k < |input|
    requires calls == Calls(input, action, blocks)
    modifies buffer
    ensures next == k + 1 && Gathered(Cells(buffer), input, next, nextBlocks, initial)
    ensures nextCalls == Calls(input, action, nextBlocks)
  {
    var pos := k % 16;
    var offset := k - pos;
    assert pos == k - 16 * blocks;
    ghost var c := Cells(buffer);
    StoreCell(buffer, pos, input[k]);
    nextCalls, nextBlocks := calls, blocks;
    if pos == 15 {
      GatherLast(c, input, k, blocks, initial);
      nextCalls := calls + [Call(TransformFor(action), offset, Cells(buffer))];
      nextBlocks := blocks + 1;
    } else {
      GatherNext(c, input, k, blocks, initial);
    }
    next := k + 1;
  }

  /** The loop of lines 73-90 over the whole input. At the end the calls
      are those of every complete block, and the buffer holds the trailing
      bytes at its start and after them the rest of the last complete block
      (or what it held before, when there was none). */
  method ProcessBlocks(aes: Aes, input: seq<Byte>, action: string) returns (calls: seq<Call>)
    requires aes.tempBuffer.Length0 == 4 && aes.tempBuffer.Length1 == 4
    modifies aes.tempBuffer
    ensures calls == Calls(input, action, |input| / 16)
    ensures Gathered(Cells(aes.tempBuffer), input, |input|, |input| / 16, old(Cells(aes.tempBuffer)))
  {
    var buffer := aes.tempBuffer;
    ghost var initial := Cells(buffer);
    calls := [];
    ghost var blocks := 0;
    var k := 0;
    while k < |input|
      invariant Gathered(Cells(buffer), input, k, blocks, initial)
      invariant calls == Calls(input, action, blocks)
    {
      k, blocks, calls := GatherByte(buffer, input, action, k, blocks, initial, calls);
    }
  }

  /** What `main` reports back. */
  datatype Outcome = WrongAction | WrongKeySize | Processed(calls: seq<Call>)

  /** The globals after lines 46-71 for a safe key size: nk and nr derived
      from it, the key the first nk * 4 bytes of the password's SHA-256
      digest, and `round_key` starting with the key's schedule. */
  ghost predicate Keyed(aes: Aes, keyBits: int, password: seq<Byte>)
    reads aes, aes.roundKey
  {
    aes.nk == keyBits / 32 && aes.nr == aes.nk + 6 && 1 <= aes.nk <= 8 && |aes.key| == 4 * aes.nk
    && (|password| < 0x40_0000_0000 ==> aes.key == Sha256Spec.Digest(password)[..4 * aes.nk])
    && Domain(aes.sbox, aes.key, aes.nk) && 4 * Words(aes.nk, aes.nr) <= aes.roundKey.Length
    && aes.roundKey[..4 * Words(aes.nk, aes.nr)] == ScheduleBytes(aes.sbox, Rcon, aes.key, aes.nk, Words(aes.nk, aes.nr))
  }

  /** Line 53: `key = hash_password(password, nk * 4)`, the bytes of the
      array it returns. */
  method HashKey(password: seq<Byte>, size: nat) returns (key: seq<Byte>)
    requires size <= 32
    ensures |key| == size
    ensures |password| < 0x40_0000_0000 ==> key == Sha256Spec.Digest(password)[..size]
  {
    var hash := Paes.HashPassword(password, size);
    key := hash[..];
  }

  /** Lines 46-53 for a safe key size: nk and nr, and the key as
      `hash_password(password, nk * 4)`. */
  method DeriveKey(aes: Aes, keyBits: int, password: seq<Byte>)
    requires SafeKeySize(keyBits)
    modifies aes
    ensures aes.nk == keyBits / 32 && aes.nr == aes.nk + 6 && 1 <= aes.nk <= 8
    ensures |aes.key| == 4 * aes.nk && 4 * Words(aes.nk, aes.nr) <= 240
    ensures |password| < 0x40_0000_0000 ==> aes.key == Sha256Spec.Digest(password)[..4 * aes.nk]
  {
    var shape := DeriveShapeAsWritten(keyBits);
    SafeShape(keyBits);
    var key := HashKey(password, shape.nk * 4);
    aes.nk, aes.nr, aes.key := shape.nk, shape.nr, key;
  }

  /** Lines 46-71 for a safe key size: the key, then `key_expansion`. */
  method SetKey(aes: Aes, keyBits: int, password: seq<Byte>)
    requires SafeKeySize(keyBits) && |aes.sbox| == 256 && aes.roundKey.Length == 240
    modifies aes, aes.roundKey
    ensures Keyed(aes, keyBits, password)
  {
    DeriveKey(aes, keyBits, password);
    aes.KeyExpansion();
  }

  /** `main` as written, from the action check to the end of the loop, for
      a key size it handles without fault: a wrong action stops the program;
      otherwise the globals are keyed (Keyed) and every complete block of
      the input goes to the selected transform. */
  method RunAsWritten(aes: Aes, action: string, keyBits: int, password: seq<Byte>, input: seq<Byte>) returns (r: Outcome)
    requires SafeKeySize(keyBits) && |aes.sbox| == 256 && aes.roundKey.Length == 240
    requires aes.tempBuffer.Length0 == 4 && aes.tempBuffer.Length1 == 4
    modifies aes, aes.roundKey, aes.tempBuffer
    ensures r == WrongAction <==> !ValidAction(action)
    ensures r != WrongKeySize
    ensures r.Processed? ==> r.calls == Calls(input, action, |input| / 16) && Keyed(aes, keyBits, password)
  {
    if !ValidAction(action) {
      return WrongAction;
    }
    SetKey(aes, keyBits, password);
    var calls := ProcessBlocks(aes, input, action);
    r := Processed(calls);
  }

  /** `main` from the action check to the end of the loop, with the key size
      checked as in the parallel program: a wrong action or key size stops
      the program before anything is hashed or expanded; otherwise the
      globals are keyed (Keyed) and every complete block of the input goes
      to the selected transform. */
  method Run(aes: Aes, action: string, keyBits: int, password: seq<Byte>, input: seq<Byte>) returns (r: Outcome)
    requires |aes.sbox| == 256 && aes.roundKey.Length == 240
    requires aes.tempBuffer.Length0 == 4 && aes.tempBuffer.Length1 == 4
    modifies aes, aes.roundKey, aes.tempBuffer
    ensures r == WrongAction <==> !ValidAction(action)
    ensures r == WrongKeySize <==> ValidAction(action) && !Paes.SupportedKeySize(keyBits)
    ensures r.Processed? ==> r.calls == Calls(input, action, |input| / 16) && Keyed(aes, keyBits, password)
  {
    if !ValidAction(action) {
      return WrongAction;
    }
    if DeriveShape(keyBits).None? {
      return WrongKeySize;
    }
    SetKey(aes, keyBits, password);
    var calls := ProcessBlocks(aes, input, action);
    r := Processed(calls);
  }
}
