/** The AES key schedule (FIPS-197 section 5.2) that both copies of
    `key_expansion` compute, stated on byte sequences. The S-box and the round
    constant table are parameters: the S-box is not part of this model, and
    the two programs take `rcon` from different places. */
module KeySchedule {
  import opened Gf256

  /** SubWord: the S-box applied to each byte of a word. */
  function SubWord(sbox: seq<Byte>, w: seq<Byte>): (r: seq<Byte>)
    requires |sbox| == 256 && |w| == 4
    ensures |r| == 4 && forall k :: 0 <= k < 4 ==> r[k] == sbox[w[k] as int]
  {
    seq(4, k requires 0 <= k < 4 => sbox[w[k] as int])
  }

  /** RotWord: [a0, a1, a2, a3] becomes [a1, a2, a3, a0]. */
  function RotWord(w: seq<Byte>): (r: seq<Byte>)
    requires |w| == 4
    ensures |r| == 4 && forall k :: 0 <= k < 4 ==> r[k] == w[(k + 1) % 4]
  {
    [w[1], w[2], w[3], w[0]]
  }

  function XorWord(a: seq<Byte>, b: seq<Byte>): (r: seq<Byte>)
    requires |a| == 4 && |b| == 4
    ensures |r| == 4 && forall k :: 0 <= k < 4 ==> r[k] == a[k] ^ b[k]
  {
    seq(4, k requires 0 <= k < 4 => a[k] ^ b[k])
  }

  /** Entry j of a round constant table; the programs only read entries the
      table has, and the schedule below reads 0 beyond its end so that it is
      defined for every length. */
  function RconAt(rcon: seq<Byte>, j: nat): (r: Byte)
    ensures j < |rcon| ==> r == rcon[j]
  {
    if j < |rcon| then rcon[j] else 0
  }

  /** The `temp` word of step i, computed from word i - 1: RotWord, SubWord and
      rcon[i / nk] on the first byte at the start of each key length; SubWord
      alone half-way through for keys of more than six words; else unchanged. */
  function KeyTemp(sbox: seq<Byte>, rcon: seq<Byte>, nk: nat, i: nat, prev: seq<Byte>): (r: seq<Byte>)
    requires |sbox| == 256 && |prev| == 4 && 1 <= nk
    ensures |r| == 4
  {
    if i % nk == 0 then
      var s := SubWord(sbox, RotWord(prev));
      [Add(s[0], RconAt(rcon, i / nk)), s[1], s[2], s[3]]
    else if nk > 6 && i % nk == 4 then
      SubWord(sbox, prev)
    else
      prev
  }

  /** What the schedule needs: a 256-entry S-box and a key of nk >= 1 words. */
  predicate Domain(sbox: seq<Byte>, key: seq<Byte>, nk: nat)
  {
    |sbox| == 256 && 1 <= nk && 4 * nk <= |key|
  }

  lemma MulMonotone(k: nat, a: nat, b: nat)
    requires a <= b
    ensures k * a <= k * b
  {
    assert k * b == k * a + k * (b - a);
  }

  /** Integer division by a positive number is monotone. */
  lemma DivMonotone(a: nat, b: nat, d: nat)
    requires a <= b && 1 <= d
    ensures a / d <= b / d
  {
    if b / d < a / d {
      MulMonotone(d, b / d + 1, a / d);
      assert false;
    }
  }

  /** The first n words of the expanded key as the bytes `key_expansion`
      writes, built the way the loop builds them: each word from the bytes
      already written. */
  function ScheduleBytes(sbox: seq<Byte>, rcon: seq<Byte>, key: seq<Byte>, nk: nat, n: nat): (r: seq<Byte>)
    requires Domain(sbox, key, nk)
    ensures |r| == 4 * n
    decreases n
  {
    if n == 0 then []
    else
      var done := ScheduleBytes(sbox, rcon, key, nk, n - 1);
      done + NextWord(sbox, rcon, key, nk, n - 1, done)
  }

  /** Word i computed from the 4i bytes before it. */
  function NextWord(sbox: seq<Byte>, rcon: seq<Byte>, key: seq<Byte>, nk: nat, i: nat, done: seq<Byte>): (r: seq<Byte>)
    requires Domain(sbox, key, nk) && |done| == 4 * i
    ensures |r| == 4
  {
    if i < nk then key[4 * i..4 * i + 4]
    else XorWord(done[4 * (i - nk)..4 * (i - nk) + 4], KeyTemp(sbox, rcon, nk, i, done[4 * (i - 1)..4 * i]))
  }

  /** A longer schedule extends a shorter one. */
  lemma {:induction false} SchedulePrefix(sbox: seq<Byte>, rcon: seq<Byte>, key: seq<Byte>, nk: nat, m: nat, n: nat)
    requires m <= n && Domain(sbox, key, nk)
    ensures ScheduleBytes(sbox, rcon, key, nk, n)[..4 * m] == ScheduleBytes(sbox, rcon, key, nk, m)
    decreases n
  {
    if m < n {
      SchedulePrefix(sbox, rcon, key, nk, m, n - 1);
      var done := ScheduleBytes(sbox, rcon, key, nk, n - 1);
      PrefixOfAppend(done, NextWord(sbox, rcon, key, nk, n - 1, done), 4 * m);
    }
  }

  /** The first j bytes of a + b are those of a, for j <= |a|. */
  lemma PrefixOfAppend(a: seq<Byte>, b: seq<Byte>, j: nat)
    requires j <= |a|
    ensures (a + b)[..j] == a[..j]
  {
    assert forall k :: 0 <= k < j ==> (a + b)[k] == a[k];
  }

  /** Word i read from the bytes before it, named by the words it reads. */
  lemma NextWordReads(sbox: seq<Byte>, rcon: seq<Byte>, key: seq<Byte>, nk: nat, i: nat, done: seq<Byte>, back: seq<Byte>, prev: seq<Byte>)
    requires Domain(sbox, key, nk) && |done| == 4 * i && nk <= i
    requires done[4 * (i - nk)..4 * (i - nk) + 4] == back && done[4 * (i - 1)..4 * i] == prev
    ensures NextWord(sbox, rcon, key, nk, i, done) == XorWord(back, KeyTemp(sbox, rcon, nk, i, prev))
  {
  }

  /** Word i of a schedule of n > i words is word i of the schedule of i + 1
      words, computed from the first i words. */
  lemma ScheduleWord(sbox: seq<Byte>, rcon: seq<Byte>, key: seq<Byte>, nk: nat, n: nat, i: nat)
    requires i < n && Domain(sbox, key, nk)
    ensures ScheduleBytes(sbox, rcon, key, nk, n)[..4 * i] == ScheduleBytes(sbox, rcon, key, nk, i)
    ensures ScheduleBytes(sbox, rcon, key, nk, n)[4 * i..4 * i + 4]
      == NextWord(sbox, rcon, key, nk, i, ScheduleBytes(sbox, rcon, key, nk, i))
  {
    SchedulePrefix(sbox, rcon, key, nk, i + 1, n);
    SchedulePrefix(sbox, rcon, key, nk, i, n);
    var whole := ScheduleBytes(sbox, rcon, key, nk, n);
    var upto := ScheduleBytes(sbox, rcon, key, nk, i + 1);
    assert whole[4 * i..4 * i + 4] == upto[4 * i..4 * i + 4];
  }

  /** The first nk words are the key, byte for byte. */
  lemma ScheduleStartsWithKey(sbox: seq<Byte>, rcon: seq<Byte>, key: seq<Byte>, nk: nat, n: nat)
    requires nk <= n && Domain(sbox, key, nk)
    ensures ScheduleBytes(sbox, rcon, key, nk, n)[..4 * nk] == key[..4 * nk]
  {
    var whole := ScheduleBytes(sbox, rcon, key, nk, n);
    forall p | 0 <= p < 4 * nk
      ensures whole[p] == key[p]
    {
      var i := p / 4;
      ScheduleWord(sbox, rcon, key, nk, n, i);
      assert whole[p] == whole[4 * i..4 * i + 4][p - 4 * i];
    }
  }

  /** A slice of a prefix is the same slice of the whole sequence. */
  lemma SliceOfPrefix(w: seq<Byte>, done: seq<Byte>, a: nat, b: nat)
    requires |done| <= |w| && done == w[..|done|] && a <= b <= |done|
    ensures done[a..b] == w[a..b]
  {
    assert forall k :: a <= k < b ==> done[k] == w[k];
  }

  /** Beyond the key, word i is word i - nk xor the temp word of word i - 1:
      the recurrence of FIPS-197 section 5.2, on the bytes. */
  lemma ScheduleRecurrence(sbox: seq<Byte>, rcon: seq<Byte>, key: seq<Byte>, nk: nat, n: nat, i: nat)
    requires nk <= i < n && Domain(sbox, key, nk)
    ensures ScheduleBytes(sbox, rcon, key, nk, n)[4 * i..4 * i + 4]
      == XorWord(ScheduleBytes(sbox, rcon, key, nk, n)[4 * (i - nk)..4 * (i - nk) + 4],
                 KeyTemp(sbox, rcon, nk, i, ScheduleBytes(sbox, rcon, key, nk, n)[4 * (i - 1)..4 * i]))
  {
    ScheduleWord(sbox, rcon, key, nk, n, i);
    var w := ScheduleBytes(sbox, rcon, key, nk, n);
    var done := ScheduleBytes(sbox, rcon, key, nk, i);
    var back := w[4 * (i - nk)..4 * (i - nk) + 4];
    var prev := w[4 * (i - 1)..4 * i];
    SliceOfPrefix(w, done, 4 * (i - nk), 4 * (i - nk) + 4);
    SliceOfPrefix(w, done, 4 * (i - 1), 4 * i);
    NextWordReads(sbox, rcon, key, nk, i, done, back, prev);
  }

  /** Word i reads the round constant table only at i / nk, and only when
      i is a positive multiple of nk. */
  lemma NextWordRcon(sbox: seq<Byte>, r1: seq<Byte>, r2: seq<Byte>, key: seq<Byte>, nk: nat, i: nat, done: seq<Byte>)
    requires Domain(sbox, key, nk) && |done| == 4 * i
    requires nk <= i ==> RconAt(r1, i / nk) == RconAt(r2, i / nk)
    ensures NextWord(sbox, r1, key, nk, i, done) == NextWord(sbox, r2, key, nk, i, done)
  {
  }

  /** Two round constant tables that agree on the entries 1 to m give the
      same first n words when (n - 1) / nk <= m: the schedule reads no other
      entry. */
  lemma {:induction false} ScheduleRconAgree(sbox: seq<Byte>, r1: seq<Byte>, r2: seq<Byte>, key: seq<Byte>, nk: nat, n: nat, m: nat)
    requires Domain(sbox, key, nk) && (n == 0 || (n - 1) / nk <= m)
    requires forall j :: 1 <= j <= m ==> RconAt(r1, j) == RconAt(r2, j)
    ensures ScheduleBytes(sbox, r1, key, nk, n) == ScheduleBytes(sbox, r2, key, nk, n)
    decreases n
  {
    if n > 0 {
      var i := n - 1;
      if i > 0 {
        DivMonotone(i - 1, i, nk);
      }
      ScheduleRconAgree(sbox, r1, r2, key, nk, i, m);
      if nk <= i {
        DivMonotone(nk, i, nk);
      }
      NextWordRcon(sbox, r1, r2, key, nk, i, ScheduleBytes(sbox, r1, key, nk, i));
    }
  }
}
