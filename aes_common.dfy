/** The shared part of the stand-alone AES program: the round constant
    table, the key schedule `key_expansion` and `add_round_key`, over the
    program's global variables `nr`, `nk`, `key`, `round_key` and `state`. */
module AesCommon {
  import opened Gf256
  import opened KeySchedule
  import opened ExpansionLoop

  /** {02} raised to the power k in GF(2^8). */
  function GfPow(k: nat): Byte
  {
    if k == 0 then 1 else GfXtime(GfPow(k - 1))
  }

  /** rcon[0..10]: the entries the key schedule reads. */
  const RconHead: seq<Byte> := [0x8d, 0x01, 0x02, 0x04, 0x08, 0x10, 0x20, 0x40, 0x80, 0x1b, 0x36]

  const RconTail: seq<Byte> := [
                                                                                     0x6c, 0xd8, 0xab, 0x4d, 0x9a,
    0x2f, 0x5e, 0xbc, 0x63, 0xc6, 0x97, 0x35, 0x6a, 0xd4, 0xb3, 0x7d, 0xfa, 0xef, 0xc5, 0x91, 0x39,
    0x72, 0xe4, 0xd3, 0xbd, 0x61, 0xc2, 0x9f, 0x25, 0x4a, 0x94, 0x33, 0x66, 0xcc, 0x83, 0x1d, 0x3a,
    0x74, 0xe8, 0xcb, 0x8d, 0x01, 0x02, 0x04, 0x08, 0x10, 0x20, 0x40, 0x80, 0x1b, 0x36, 0x6c, 0xd8,
    0xab, 0x4d, 0x9a, 0x2f, 0x5e, 0xbc, 0x63, 0xc6, 0x97, 0x35, 0x6a, 0xd4, 0xb3, 0x7d, 0xfa, 0xef,
    0xc5, 0x91, 0x39, 0x72, 0xe4, 0xd3, 0xbd, 0x61, 0xc2, 0x9f, 0x25, 0x4a, 0x94, 0x33, 0x66, 0xcc,
    0x83, 0x1d, 0x3a, 0x74, 0xe8, 0xcb, 0x8d, 0x01, 0x02, 0x04, 0x08, 0x10, 0x20, 0x40, 0x80, 0x1b,
    0x36, 0x6c, 0xd8, 0xab, 0x4d, 0x9a, 0x2f, 0x5e, 0xbc, 0x63, 0xc6, 0x97, 0x35, 0x6a, 0xd4, 0xb3,
    0x7d, 0xfa, 0xef, 0xc5, 0x91, 0x39, 0x72, 0xe4, 0xd3, 0xbd, 0x61, 0xc2, 0x9f, 0x25, 0x4a, 0x94,
    0x33, 0x66, 0xcc, 0x83, 0x1d, 0x3a, 0x74, 0xe8, 0xcb, 0x8d, 0x01, 0x02, 0x04, 0x08, 0x10, 0x20,
    0x40, 0x80, 0x1b, 0x36, 0x6c, 0xd8, 0xab, 0x4d, 0x9a, 0x2f, 0x5e, 0xbc, 0x63, 0xc6, 0x97, 0x35,
    0x6a, 0xd4, 0xb3, 0x7d, 0xfa, 0xef, 0xc5, 0x91, 0x39, 0x72, 0xe4, 0xd3, 0xbd, 0x61, 0xc2, 0x9f,
    0x25, 0x4a, 0x94, 0x33, 0x66, 0xcc, 0x83, 0x1d, 0x3a, 0x74, 0xe8, 0xcb, 0x8d, 0x01, 0x02, 0x04,
    0x08, 0x10, 0x20, 0x40, 0x80, 0x1b, 0x36, 0x6c, 0xd8, 0xab, 0x4d, 0x9a, 0x2f, 0x5e, 0xbc, 0x63,
    0xc6, 0x97, 0x35, 0x6a, 0xd4, 0xb3, 0x7d, 0xfa, 0xef, 0xc5, 0x91, 0x39, 0x72, 0xe4, 0xd3, 0xbd,
    0x61, 0xc2, 0x9f, 0x25, 0x4a, 0x94, 0x33, 0x66, 0xcc, 0x83, 0x1d, 0x3a, 0x74, 0xe8, 0xcb]

  /** The `rcon` table: 255 entries, rcon[i] = {02}^(i - 1), repeating with
      period 51. */
  const Rcon: seq<Byte> := RconHead + RconTail

  lemma RconSize()
    ensures |Rcon| == 255
  {
  }

  /** The entries the schedule reads for the three AES key sizes are the
      powers of {02} that FIPS-197 section 5.2 prescribes. */
  lemma RconPowers(i: nat)
    requires 1 <= i <= 10
    ensures Rcon[i] == GfPow(i - 1)
  {
    assert GfPow(0) == 1 && GfPow(1) == 2 && GfPow(2) == 4 && GfPow(3) == 8 && GfPow(4) == 0x10;
    assert GfPow(5) == 0x20 && GfPow(6) == 0x40 && GfPow(7) == 0x80 && GfPow(8) == 0x1b && GfPow(9) == 0x36;
    assert Rcon[i] == RconHead[i];
  }

  /** The number of words `key_expansion` leaves in `round_key`: the nk key
      words, and the schedule words up to nb * (nr + 1). */
  function Words(nk: int, nr: int): int
  {
    if 4 * (nr + 1) < nk then nk else 4 * (nr + 1)
  }

  /** For the three AES key lengths (nk = 4, 6 or 8 words and nr = nk + 6
      rounds) the schedule is nb * (nr + 1) words long and fits `round_key`. */
  lemma StandardKeyFits(nk: int)
    requires nk == 4 || nk == 6 || nk == 8
    ensures Words(nk, nk + 6) == 4 * (nk + 7) && 4 * Words(nk, nk + 6) <= 240
  {
  }

  /** For the three AES key lengths the schedule reads rcon only at indices
      1 to 10, and there the table holds {02}^(i / nk - 1). */
  lemma StandardRcon(nk: int, i: nat)
    requires nk == 4 || nk == 6 || nk == 8
    requires nk <= i < Words(nk, nk + 6)
    ensures 1 <= i / nk <= 10 && RconAt(Rcon, i / nk) == GfPow(i / nk - 1)
  {
    RconSize();
    assert 1 <= i / nk <= 10 by {
      if nk == 4 {
        assert i < 44;
      } else if nk == 6 {
        assert i < 52;
      } else {
        assert i < 60;
      }
    }
    RconPowers(i / nk);
  }

  /** The xor of a 16-byte block with a 16-byte round key. */
  function XorBlock(block: seq<Byte>, rk: seq<Byte>): (r: seq<Byte>)
    requires |block| == 16 && |rk| == 16
    ensures |r| == 16
  {
    seq(16, k requires 0 <= k < 16 => block[k] ^ rk[k])
  }

  /** Adding the same round key twice gives the block back: AddRoundKey is
      its own inverse. */
  lemma XorBlockTwice(block: seq<Byte>, rk: seq<Byte>)
    requires |block| == 16 && |rk| == 16
    ensures XorBlock(XorBlock(block, rk), rk) == block
  {
    assert forall k :: 0 <= k < 16 ==> XorBlock(XorBlock(block, rk), rk)[k] == block[k];
  }

  /** The 16 bytes of a 4 by 4 array of the program, a[0, 0], a[0, 1], ...,
      a[3, 3]: byte 4 * i + j is a[i, j]. */
  function Cells(a: array2<Byte>): (r: seq<Byte>)
    requires a.Length0 == 4 && a.Length1 == 4
    reads a
    ensures |r| == 16
  {
    seq(16, k requires 0 <= k < 16 reads a => a[k / 4, k % 4])
  }

  /** The variables of the program that the key schedule and the round key
      addition read and write, and the block buffer `temp_buffer` of the
      stand-alone program's main loop. `state` is indexed as the program
      indexes it: state[c, r] is byte r of column c. */
  class Aes {
    var nr: int
    var nk: int
    var key: seq<Byte>
    const sbox: seq<Byte>
    const roundKey: array<Byte>
    const state: array2<Byte>
    const tempBuffer: array2<Byte>

    /** The program's globals start at zero; `key` starts empty. */
    constructor (sbox: seq<Byte>)
      requires |sbox| == 256
      ensures this.sbox == sbox && nr == 0 && nk == 0 && key == []
      ensures roundKey.Length == 240 && state.Length0 == 4 && state.Length1 == 4
      ensures tempBuffer.Length0 == 4 && tempBuffer.Length1 == 4
      ensures forall p :: 0 <= p < 240 ==> roundKey[p] == 0
      ensures forall c, r :: 0 <= c < 4 && 0 <= r < 4 ==> state[c, r] == 0 && tempBuffer[c, r] == 0
      ensures fresh(roundKey) && fresh(state) && fresh(tempBuffer)
    {
      this.sbox := sbox;
      nr := 0;
      nk := 0;
      key := [];
      roundKey := new Byte[240](_ => 0);
      state := new Byte[4, 4]((_, _) => 0);
      tempBuffer := new Byte[4, 4]((_, _) => 0);
    }

    /** `add_round_key`: byte r of column c of `state` is xored with byte
        4 * c + r of round key `round`, that is of `round_key` from byte
        16 * round on; applying it twice with the same round restores the
        state (XorBlockTwice). */
    method AddRoundKey(round: int)
      requires state.Length0 == 4 && state.Length1 == 4 && roundKey.Length == 240
      requires 0 <= round && 16 * round + 16 <= 240
      modifies state
      ensures forall c, r :: 0 <= c < 4 && 0 <= r < 4 ==> state[c, r] == Add(old(state[c, r]), roundKey[16 * round + 4 * c + r])
      ensures Cells(state) == XorBlock(old(Cells(state)), roundKey[16 * round..16 * round + 16])
    {
      ghost var before := Cells(state);
      var i := 0;
      while i < 4
        invariant 0 <= i <= 4
        invariant forall c, r :: 0 <= c < i && 0 <= r < 4 ==> state[c, r] == Add(old(state[c, r]), roundKey[16 * round + 4 * c + r])
        invariant forall c, r :: i <= c < 4 && 0 <= r < 4 ==> state[c, r] == old(state[c, r])
      {
        var j := 0;
        while j < 4
          invariant 0 <= j <= 4
          invariant forall c, r :: 0 <= c < i && 0 <= r < 4 ==> state[c, r] == Add(old(state[c, r]), roundKey[16 * round + 4 * c + r])
          invariant forall r :: 0 <= r < j ==> state[i, r] == Add(old(state[i, r]), roundKey[16 * round + 4 * i + r])
          invariant forall c, r :: (i < c < 4 || (c == i && j <= r)) && 0 <= r < 4 ==> state[c, r] == old(state[c, r])
        {
          // round * nb * 4 + i * nb + j, with nb = 4
          state[i, j] := state[i, j] ^ roundKey[round * 4 * 4 + i * 4 + j];
          j := j + 1;
        }
        i := i + 1;
      }
      ghost var rk := roundKey[16 * round..16 * round + 16];
      forall k | 0 <= k < 16
        ensures Cells(state)[k] == XorBlock(before, rk)[k]
      {
        assert k == 4 * (k / 4) + k % 4;
      }
    }

    /** What `key_expansion` needs: a 256-entry S-box, at least one key word
        and the bytes of nk words of key, and room in `round_key` for every
        word it writes. */
    predicate CanExpand()
      reads this
    {
      |sbox| == 256 && 1 <= nk && 4 * nk <= |key| && roundKey.Length == 240 && 4 * Words(nk, nr) <= 240
    }

    /** `key_expansion`: the first nk words of `round_key` are the key, and
        every later word up to nb * (nr + 1) follows the FIPS-197 recurrence
        (KeySchedule.ScheduleStartsWithKey and KeySchedule.ScheduleRecurrence);
        the rest of `round_key` is left as it was. */
    method KeyExpansion()
      requires CanExpand()
      modifies roundKey
      ensures roundKey[..4 * Words(nk, nr)] == ScheduleBytes(sbox, Rcon, key, nk, Words(nk, nr))
      ensures roundKey[4 * Words(nk, nr)..] == old(roundKey[4 * Words(nk, nr)..])
    {
      RconSize();
      ghost var n := Expand(roundKey, sbox, Rcon, key, nk, 4 * (nr + 1));
    }
  }
}
