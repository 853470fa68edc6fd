/** The argument handling of the parallel program's `main`: the parsing of
    the mode and device options, `check_arguments`, and the key derivation
    `hash_password`, which keeps the first bytes of the SHA-256 digest of the
    password. */
module Paes {
  import Sha256Spec
  import Sha256
  import opened PaesFunctions
  import opened Options

  type Byte = Sha256Spec.Byte

  /** The `-m` option: "encrypt" and "decrypt" select a mode; any other text
      leaves no mode. */
  function ParseMode(arg: string): (r: AesMode)
    ensures r == Encrypt <==> arg == "encrypt"
    ensures r == Decrypt <==> arg == "decrypt"
  {
    if arg == "encrypt" then Encrypt
    else if arg == "decrypt" then Decrypt
    else ModeNone
  }

  /** The `-d` option: "cpu" and "gpu" select a device; any other text leaves
      no device. */
  function ParseDevice(arg: string): (r: OpenclDevice)
    ensures r == Cpu <==> arg == "cpu"
    ensures r == Gpu <==> arg == "gpu"
  {
    if arg == "cpu" then Cpu
    else if arg == "gpu" then Gpu
    else DeviceNone
  }

  /** Parsing the name of a mode or a device gives that mode or device back;
      in particular the name "unspecified" parses to no mode and no device. */
  lemma ParseNames(mode: AesMode, device: OpenclDevice)
    ensures ParseMode(GetAesModeName(mode)) == mode
    ensures ParseDevice(GetOpenclDeviceName(device)) == device
  {
  }

  /** The reasons `check_arguments` stops the program, one per message. */
  datatype ArgumentError = WrongMode | WrongKeySize | WrongDevice

  /** A key size the program accepts. */
  predicate SupportedKeySize(keySizeBits: int)
  {
    keySizeBits == 128 || keySizeBits == 192 || keySizeBits == 256
  }

  /** `check_arguments`: the mode is checked first, then the key size, then the
      device; the first failing check stops the program with its error, and
      None means the program goes on. */
  function CheckArguments(mode: AesMode, keySizeBits: int, device: OpenclDevice): (r: Option<ArgumentError>)
    ensures r == None <==> mode != ModeNone && SupportedKeySize(keySizeBits) && device != DeviceNone
    ensures r == Some(WrongMode) <==> mode == ModeNone
    ensures r == Some(WrongKeySize) <==> mode != ModeNone && !SupportedKeySize(keySizeBits)
    ensures r == Some(WrongDevice) <==> mode != ModeNone && SupportedKeySize(keySizeBits) && device == DeviceNone
  {
    if mode == ModeNone then Some(WrongMode)
    else if !SupportedKeySize(keySizeBits) then Some(WrongKeySize)
    else if device == DeviceNone then Some(WrongDevice)
    else None
  }

  /** Once the arguments pass the check, the key that `main` derives,
      key_size_bits / 8 bytes, is 16, 24 or 32 bytes: never more than the
      32-byte digest, and exactly the nk = key_size_bits / 32 words that
      `key_expansion` reads, whose round keys fit in 240 bytes. */
  lemma ValidatedKeyLength(mode: AesMode, keySizeBits: int, device: OpenclDevice)
    requires CheckArguments(mode, keySizeBits, device) == None
    ensures keySizeBits / 8 == 16 || keySizeBits / 8 == 24 || keySizeBits / 8 == 32
    ensures keySizeBits / 8 <= 32 && keySizeBits / 8 == 4 * (keySizeBits / 32)
    ensures GetRoundKeySize(keySizeBits) <= 240
  {
    AesRounds(keySizeBits);
  }

  /** The bit length sha256_final writes for a message of n bytes: 8 n modulo
      2^41, since the counters hold the byte count modulo 2^38. */
  function LengthField(n: nat): nat
  {
    8 * (n % 0x40_0000_0000)
  }

  /** The 64-byte buffer that sha256_read returns after sha256_final: the
      digest, then the last 32 bytes of the padded final block. */
  function FinalBuffer(password: seq<Byte>): (r: seq<Byte>)
    ensures |r| == 64
  {
    var padded := Sha256Spec.PadWith(password, LengthField(|password|));
    Sha256Spec.DigestWith(password, LengthField(|password|)) + padded[|padded| - 32..]
  }

  /** The first 32 bytes of that buffer are the SHA-256 digest of any password
      shorter than 2^38 bytes, so its first `size` bytes for size <= 32 are a
      prefix of the digest. */
  lemma FinalBufferDigest(password: seq<Byte>, size: nat)
    requires |password| < 0x40_0000_0000 && size <= 32
    ensures FinalBuffer(password)[..size] == Sha256Spec.Digest(password)[..size]
  {
    assert |password| % 0x40_0000_0000 == |password|;
    assert FinalBuffer(password)[..32] == Sha256Spec.Digest(password);
  }

  /** The hashing half of `hash_password`: a context through init, write of
      the password (its bytes up to the terminating NUL), final, and read. */
  method HashToBuffer(password: seq<Byte>) returns (digest: array<Byte>)
    ensures digest[..] == FinalBuffer(password)
  {
    var context := new Sha256.Context();
    context.Init();
    context.Write(password);
    assert context.absorbed == password;
    context.Final();
    FinalizedBuffer(context, password);
    digest := context.Read();
  }

  /** A context finalized over the password, whose compression function is
      the standard one, holds FinalBuffer(password). */
  lemma FinalizedBuffer(c: Sha256.Context, password: seq<Byte>)
    requires Sha256Spec.Agrees(c.compress) && c.absorbed == password
    requires c.Finalized(LengthField(|password|))
    ensures c.buf[..] == FinalBuffer(password)
  {
    Sha256Spec.AgreeingDigest(c.compress, password, LengthField(|password|), c.h);
  }

  /** memcpy of the first `size` bytes of `src` into a fresh array. */
  method CopyPrefix(src: array<Byte>, size: nat) returns (dst: array<Byte>)
    requires size <= src.Length
    ensures fresh(dst) && dst[..] == src[..size]
  {
    dst := new Byte[size];
    var i := 0;
    while i < size
      invariant 0 <= i <= size
      invariant dst[..i] == src[..i]
    {
      dst[i] := src[i];
      i := i + 1;
    }
    assert dst[..] == dst[..i];
  }

  /** `hash_password`: the first `size` bytes of the buffer sha256_read
      returns, in a fresh array of `size` bytes. Up to 32 bytes these are a
      prefix of the SHA-256 digest of the password; the same password and
      size always give the same bytes. */
  method HashPassword(password: seq<Byte>, size: nat) returns (hash: array<Byte>)
    requires size <= 64
    ensures fresh(hash) && hash.Length == size
    ensures hash[..] == FinalBuffer(password)[..size]
    ensures size <= 32 && |password| < 0x40_0000_0000 ==> hash[..] == Sha256Spec.Digest(password)[..size]
  {
    var digest := HashToBuffer(password);
    hash := CopyPrefix(digest, size);
    if size <= 32 && |password| < 0x40_0000_0000 {
      FinalBufferDigest(password, size);
    }
  }

  /** Lines 191 and 200 of `main`: the arguments are checked, and only then is
      the password hashed into a key of key_size_bits / 8 bytes, the prefix of
      its SHA-256 digest. */
  method DeriveKey(mode: AesMode, keySizeBits: int, device: OpenclDevice, password: seq<Byte>)
    returns (r: Option<ArgumentError>, key: array<Byte>)
    ensures r == CheckArguments(mode, keySizeBits, device)
    ensures r == None ==> fresh(key) && key.Length == keySizeBits / 8 == 4 * (keySizeBits / 32)
    ensures r == None && |password| < 0x40_0000_0000 ==> key[..] == Sha256Spec.Digest(password)[..keySizeBits / 8]
  {
    r := CheckArguments(mode, keySizeBits, device);
    if r != None {
      key := new Byte[0];
      return;
    }
    ValidatedKeyLength(mode, keySizeBits, device);
    key := HashPassword(password, keySizeBits / 8);
  }
}
