/** The host-side AES helpers of the parallel program: the mode and device
    names, the round count and round key size, and its own copy of
    `key_expansion`, which fills a freshly allocated buffer. */
module PaesFunctions {
  import opened Gf256
  import opened KeySchedule
  import opened ExpansionLoop
  import AesCommon

  /** AES_STATE_SIDE, the side of the square AES state. Its definition is not
      part of this model; FIPS-197 fixes the state at 4 by 4 bytes. */
  const StateSide: nat := 4

  /** aes_mode, in the order of the names `get_aes_mode_name` lists. */
  datatype AesMode = Encrypt | Decrypt | ModeNone

  /** opencl_device, in the order of the names `get_opencl_device_name`
      lists. */
  datatype OpenclDevice = Cpu | Gpu | DeviceNone

  function GetAesModeName(mode: AesMode): string
  {
    match mode
    case Encrypt => "encrypt"
    case Decrypt => "decrypt"
    case ModeNone => "unspecified"
  }

  function GetOpenclDeviceName(device: OpenclDevice): string
  {
    match device
    case Cpu => "cpu"
    case Gpu => "gpu"
    case DeviceNone => "unspecified"
  }

  /** Different modes have different names. */
  lemma ModeNamesDistinct(m1: AesMode, m2: AesMode)
    ensures GetAesModeName(m1) == GetAesModeName(m2) <==> m1 == m2
  {
  }

  /** Different devices have different names. */
  lemma DeviceNamesDistinct(d1: OpenclDevice, d2: OpenclDevice)
    ensures GetOpenclDeviceName(d1) == GetOpenclDeviceName(d2) <==> d1 == d2
  {
  }

  /** `get_rounds_number`: nk = key_size_bits / 32 key words (unsigned
      division) and nr = nk + 6 rounds. */
  function GetRoundsNumber(keySizeBits: nat): nat
  {
    var nk := keySizeBits / 32;
    nk + 6
  }

  /** `get_round_key_size`: one AES_STATE_SIDE by AES_STATE_SIDE round key per
      round, plus the initial one. */
  function GetRoundKeySize(keySizeBits: nat): nat
  {
    StateSide * StateSide * (GetRoundsNumber(keySizeBits) + 1)
  }

  /** 128-, 192- and 256-bit keys get the 10, 12 and 14 rounds of FIPS-197
      section 5, and round keys of 176, 208 and 240 bytes. */
  lemma AesRounds(keySizeBits: nat)
    requires keySizeBits == 128 || keySizeBits == 192 || keySizeBits == 256
    ensures GetRoundsNumber(keySizeBits) == (if keySizeBits == 128 then 10 else if keySizeBits == 192 then 12 else 14)
    ensures GetRoundKeySize(keySizeBits) == 16 * (GetRoundsNumber(keySizeBits) + 1) <= 240
  {
  }

  /** The round key size is a whole number of 16-byte round keys, and its
      words are the nb * (nr + 1) words that the other copy of
      `key_expansion` writes for the same key size; in 32-bit unsigned
      arithmetic it never wraps around. */
  lemma RoundKeyWords(keySizeBits: nat)
    ensures GetRoundKeySize(keySizeBits) % 16 == 0
    ensures GetRoundKeySize(keySizeBits) / StateSide == Nb * (GetRoundsNumber(keySizeBits) + 1)
    ensures GetRoundKeySize(keySizeBits) / StateSide == AesCommon.Words(keySizeBits / 32, GetRoundsNumber(keySizeBits))
    ensures keySizeBits < 0x1_0000_0000 ==> GetRoundKeySize(keySizeBits) < 0x1_0000_0000
  {
    assert StateSide * StateSide == 16;
  }

  /** `key_expansion` of the parallel program: a fresh buffer of
      `get_round_key_size` bytes, all of them written, holding the key
      schedule of the key (whose first nk words are the key and the rest
      follow FIPS-197 section 5.2); the key is only read. */
  method KeyExpansion(key: array<Byte>, keySizeBits: nat, sbox: seq<Byte>, rcon: seq<Byte>) returns (roundKey: array<Byte>)
    requires |sbox| == 256 && 32 <= keySizeBits && 4 * (keySizeBits / 32) <= key.Length
    requires (GetRoundKeySize(keySizeBits) / StateSide - 1) / (keySizeBits / 32) < |rcon|
    ensures fresh(roundKey) && roundKey.Length == GetRoundKeySize(keySizeBits)
    ensures roundKey[..] == ScheduleBytes(sbox, rcon, key[..], keySizeBits / 32, GetRoundKeySize(keySizeBits) / StateSide)
    ensures key[..] == old(key[..])
  {
    var nk := keySizeBits / 32;
    var roundKeySize := GetRoundKeySize(keySizeBits);
    RoundKeyWords(keySizeBits);
    roundKey := new Byte[roundKeySize];
    ghost var n := Expand(roundKey, sbox, rcon, key[..], nk, roundKeySize / StateSide);
    assert roundKey[..] == roundKey[..4 * n];
  }

  /** For a 128-, 192- or 256-bit key, and a `rcon` table holding the
      FIPS-197 powers of {02} at indices 1 to 10, this copy of
      `key_expansion` produces the bytes that aes/common.c leaves in
      `round_key` with nk = key_size_bits / 32 and nr = nk + 6 (its
      KeyExpansion), byte for byte. */
  lemma AgreesWithCommon(sbox: seq<Byte>, rcon: seq<Byte>, key: seq<Byte>, keySizeBits: nat)
    requires keySizeBits == 128 || keySizeBits == 192 || keySizeBits == 256
    requires |sbox| == 256 && 4 * (keySizeBits / 32) <= |key|
    requires forall j :: 1 <= j <= 10 ==> RconAt(rcon, j) == AesCommon.GfPow(j - 1)
    ensures var nk := keySizeBits / 32;
      ScheduleBytes(sbox, rcon, key, nk, GetRoundKeySize(keySizeBits) / StateSide)
      == ScheduleBytes(sbox, AesCommon.Rcon, key, nk, AesCommon.Words(nk, nk + 6))
  {
    var nk := keySizeBits / 32;
    RoundKeyWords(keySizeBits);
    var n := AesCommon.Words(nk, nk + 6);
    assert (n - 1) / nk <= 10 by {
      AesCommon.StandardRcon(nk, n - 1);
    }
    forall j | 1 <= j <= 10
      ensures RconAt(rcon, j) == RconAt(AesCommon.Rcon, j)
    {
      AesCommon.RconSize();
      AesCommon.RconPowers(j);
    }
    ScheduleRconAgree(sbox, rcon, AesCommon.Rcon, key, nk, n, 10);
  }
}
