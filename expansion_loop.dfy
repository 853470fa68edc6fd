/** The loops shared by both copies of `key_expansion` (aes/common.c and
    paes/paes_functions.c): they differ only in where `round_key`, the S-box
    and `rcon` live and in how the word count is written, so each copy passes
    those in. */
module ExpansionLoop {
  import opened Gf256
  import opened KeySchedule

  /** Storing word w after the first |done| bytes of done + rest extends done
      by w. */
  lemma StoreExtends(done: seq<Byte>, w: seq<Byte>, orig: seq<Byte>, before: seq<Byte>, after: seq<Byte>)
    requires |w| == 4 && |done| + 4 <= |orig| && before == done + orig[|done|..]
    requires after == before[..|done|] + w + before[|done| + 4..]
    ensures after == (done + w) + orig[|done| + 4..]
  {
    assert before[..|done|] == done;
    assert before[|done| + 4..] == orig[|done| + 4..];
  }

  /** The first i words of roundKey are the schedule's, and the bytes after
      them are still those of orig. */
  predicate Expanded(roundKey: array<Byte>, sbox: seq<Byte>, rcon: seq<Byte>, key: seq<Byte>, nk: nat, i: nat, orig: seq<Byte>)
    reads roundKey
  {
    Domain(sbox, key, nk) && 4 * i <= |orig| &&
    roundKey[..] == ScheduleBytes(sbox, rcon, key, nk, i) + orig[4 * i..]
  }

  /** Writes word i of roundKey, byte by byte. */
  method StoreWord(roundKey: array<Byte>, i: nat, w: seq<Byte>)
    requires 4 * i + 4 <= roundKey.Length && |w| == 4
    modifies roundKey
    ensures roundKey[..] == old(roundKey[..4 * i]) + w + old(roundKey[4 * i + 4..])
  {
    roundKey[4 * i] := w[0];
    roundKey[4 * i + 1] := w[1];
    roundKey[4 * i + 2] := w[2];
    roundKey[4 * i + 3] := w[3];
  }

  /** The `temp` word of step i: word i - 1, rotated, substituted and
      combined with rcon[i / nk] at the start of each key length; only
      substituted half-way through a key of more than six words. */
  method ComputeTemp(roundKey: array<Byte>, sbox: seq<Byte>, rcon: seq<Byte>, nk: nat, i: nat) returns (temp: seq<Byte>)
    requires |sbox| == 256 && 1 <= nk && 1 <= i && 4 * i <= roundKey.Length && i / nk < |rcon|
    ensures temp == KeyTemp(sbox, rcon, nk, i, roundKey[4 * (i - 1)..4 * i])
  {
    temp := roundKey[4 * (i - 1)..4 * i];
    if i % nk == 0 {
      temp := RotWord(temp);
      temp := SubWord(sbox, temp);
      temp := temp[0 := temp[0] ^ rcon[i / nk]];
    } else if nk > 6 && i % nk == 4 {
      temp := SubWord(sbox, temp);
    }
  }

  /** The word that the body of either loop writes at index i: a key word
      below nk, else word i - nk xor the temp word. */
  method ComputeWord(roundKey: array<Byte>, sbox: seq<Byte>, rcon: seq<Byte>, key: seq<Byte>, nk: nat, i: nat) returns (w: seq<Byte>)
    requires Domain(sbox, key, nk) && 4 * i + 4 <= roundKey.Length && (i < nk || i / nk < |rcon|)
    ensures w == NextWord(sbox, rcon, key, nk, i, roundKey[..4 * i])
  {
    if i < nk {
      w := key[i * 4..i * 4 + 4];
    } else {
      var temp := ComputeTemp(roundKey, sbox, rcon, nk, i);
      var back := roundKey[4 * (i - nk)..4 * (i - nk) + 4];
      w := XorWord(back, temp);
      NextWordReads(sbox, rcon, key, nk, i, roundKey[..4 * i], back, roundKey[4 * (i - 1)..4 * i]);
    }
  }

  /** One step of either loop keeps roundKey equal to the schedule so far
      followed by the bytes not yet written. */
  lemma Extend(roundKey: array<Byte>, sbox: seq<Byte>, rcon: seq<Byte>, key: seq<Byte>, nk: nat, i: nat, orig: seq<Byte>, before: seq<Byte>)
    requires Domain(sbox, key, nk) && 4 * i + 4 <= |orig|
    requires before == ScheduleBytes(sbox, rcon, key, nk, i) + orig[4 * i..]
    requires roundKey[..] == before[..4 * i] + NextWord(sbox, rcon, key, nk, i, before[..4 * i]) + before[4 * i + 4..]
    ensures Expanded(roundKey, sbox, rcon, key, nk, i + 1, orig)
  {
    var done := ScheduleBytes(sbox, rcon, key, nk, i);
    assert before[..4 * i] == done;
    StoreExtends(done, NextWord(sbox, rcon, key, nk, i, done), orig, before, roundKey[..]);
  }

  /** The body of either loop: word i is computed and stored. */
  method PutWord(roundKey: array<Byte>, sbox: seq<Byte>, rcon: seq<Byte>, key: seq<Byte>, nk: nat, i: nat, ghost orig: seq<Byte>) returns (next: nat)
    requires Expanded(roundKey, sbox, rcon, key, nk, i, orig) && 4 * i + 4 <= roundKey.Length
    requires i < nk || i / nk < |rcon|
    modifies roundKey
    ensures next == i + 1 && Expanded(roundKey, sbox, rcon, key, nk, next, orig)
  {
    ghost var before := roundKey[..];
    var w := ComputeWord(roundKey, sbox, rcon, key, nk, i);
    StoreWord(roundKey, i, w);
    Extend(roundKey, sbox, rcon, key, nk, i, orig, before);
    next := i + 1;
  }

  /** The first loop: the nk key words, one per step. */
  method CopyKey(roundKey: array<Byte>, sbox: seq<Byte>, rcon: seq<Byte>, key: seq<Byte>, nk: nat, ghost orig: seq<Byte>) returns (i: nat)
    requires Domain(sbox, key, nk) && orig == roundKey[..] && 4 * nk <= roundKey.Length
    modifies roundKey
    ensures i == nk && Expanded(roundKey, sbox, rcon, key, nk, i, orig)
  {
    i := 0;
    while i < nk
      invariant 0 <= i <= nk
      invariant Expanded(roundKey, sbox, rcon, key, nk, i, orig)
    {
      i := PutWord(roundKey, sbox, rcon, key, nk, i, orig);
    }
  }

  /** The second loop: the words from nk up to `limit`, one per step. */
  method ExpandFrom(roundKey: array<Byte>, sbox: seq<Byte>, rcon: seq<Byte>, key: seq<Byte>, nk: nat, limit: int, start: nat, ghost orig: seq<Byte>) returns (i: nat)
    requires start == nk && Expanded(roundKey, sbox, rcon, key, nk, start, orig)
    requires 4 * limit <= roundKey.Length && (limit <= nk || (limit - 1) / nk < |rcon|)
    modifies roundKey
    ensures i == (if limit < nk then nk else limit) && Expanded(roundKey, sbox, rcon, key, nk, i, orig)
  {
    i := start;
    while i < limit
      invariant nk <= i && (i <= limit || i == nk)
      invariant Expanded(roundKey, sbox, rcon, key, nk, i, orig)
    {
      DivMonotone(i, limit - 1, nk);
      i := PutWord(roundKey, sbox, rcon, key, nk, i, orig);
    }
  }

  /** Both loops: the first n words of roundKey become the schedule's, where
      n is nk or `limit`, whichever is larger; the bytes after them are left
      alone. */
  method Expand(roundKey: array<Byte>, sbox: seq<Byte>, rcon: seq<Byte>, key: seq<Byte>, nk: nat, limit: int) returns (ghost n: nat)
    requires Domain(sbox, key, nk) && 4 * nk <= roundKey.Length && 4 * limit <= roundKey.Length
    requires limit <= nk || (limit - 1) / nk < |rcon|
    modifies roundKey
    ensures n == (if limit < nk then nk else limit)
    ensures roundKey[..4 * n] == ScheduleBytes(sbox, rcon, key, nk, n)
    ensures roundKey[4 * n..] == old(roundKey[4 * n..])
  {
    ghost var orig := roundKey[..];
    var i := CopyKey(roundKey, sbox, rcon, key, nk, orig);
    i := ExpandFrom(roundKey, sbox, rcon, key, nk, limit, i, orig);
    n := i;
  }
}
