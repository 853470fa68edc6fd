# PAES core in Dafny

A model of the core of PAES (Parallel AES for CPUs and GPUs) and of its
stand-alone AES program, with proofs about it:

- `sha256_spec.dfy` (module `Sha256Spec`): SHA-256 as a function on byte
  sequences, following FIPS 180-4. It covers the round constants, the
  message schedule, the compression function, the padding with a 64-bit
  length field and the big-endian digest.
- `sha256.dfy` (module `Sha256`): the streaming `SHA256_CONTEXT` of
  `aes/sha256.c` as a class. `sha256_init`, `sha256_write`,
  `sha256_final` and `sha256_read` are methods on it. They are proved to leave
  in the buffer the digest of everything written, padded with its bit length
  modulo 2^41. That is the SHA-256 digest for messages shorter than 2^38
  bytes.
- `gf256.dfy` (module `Gf256`): the `nb`, `xtime` and `multiply` macros of
  `aes/common.h` on 32-bit C ints, proved against GF(2^8) arithmetic.
- `key_schedule.dfy` (module `KeySchedule`): the AES key schedule of
  FIPS-197 section 5.2 on bytes, built word by word as both copies of
  `key_expansion` build it.
- `expansion_loop.dfy` (module `ExpansionLoop`): the two loops shared by both
  copies of `key_expansion`, on an array, proved to write the schedule.
- `aes_common.dfy` (module `AesCommon`): the globals of `aes/common.c` as
  class `Aes`, plus the `rcon` table, `key_expansion` and `add_round_key`.
- `paes_functions.dfy` (module `PaesFunctions`): the mode and device names,
  `get_rounds_number`, `get_round_key_size` and the parallel program's own
  `key_expansion`, which returns a fresh buffer.
- `paes.dfy` (module `Paes`): the option parsing of `-m` and `-d`,
  `check_arguments` and `hash_password` of `paes/paes.c`.
- `aes_main.dfy` (module `AesMain`): `main` of `aes/aes.c`. It covers the
  action check, the derivation of nk and nr, the key, the key schedule and
  the loop that gathers 16-byte blocks for `cipher`/`inv_cipher`.
- `correggi.dfy` (module `Correggi`): the table-of-contents fixer
  `thesis-text/correggi-lol.py`.
- `options.dfy` (module `Options`): the Option type shared by the modules.

The S-box is a parameter: a 256-entry table given to the class or the method.
Each call of `cipher`/`inv_cipher` is recorded as a `Call` value, holding the
transform, the offset and the block it finds.

## Model

| member | source | states |
|---|---|---|
| Sha256Spec.Expand | aes/sha256.c:84-85 | Extending a schedule prefix to 64 words keeps the prefix. |
| Sha256Spec.ScheduleStartsWithBlock | aes/sha256.c:63-73 | W0..W15 are the 16 words of the block, read big-endian. |
| Sha256Spec.ScheduleRecurrence | aes/sha256.c:84-85 | For 16 <= t < 64, W_t = S1(W_{t-2}) + W_{t-7} + S0(W_{t-15}) + W_{t-16}, modulo 2^32. |
| Sha256Spec.HashBlocksAppend | aes/sha256.c:130-136 | Compressing two runs of whole blocks one after the other equals compressing their concatenation. |
| Sha256Spec.HashBlocksSnoc | aes/sha256.c:115-119 | Compressing one more block after m equals hashing m followed by that block. |
| Sha256Spec.PadWith | aes/sha256.c:162-181 | The padded message is whole 64-byte blocks, at least one block, and 9 to 72 bytes longer than the message. |
| Sha256Spec.PaddingShape | aes/sha256.c:162-181 | The padded message is the message, then 0x80, then only zero bytes, then the 8-byte length field. |
| Sha256Spec.HashBytes | aes/sha256.c:184-198 | H0..H7 serialise to 32 bytes. |
| Sha256Spec.Digest | aes/sha256.c:141-200 | The SHA-256 digest is 32 bytes. |
| Sha256.CounterArithmetic | aes/sha256.c:113-139 | 64 * (blocks mod 2^32) + count is the byte count modulo 2^38. |
| Sha256.BufferedIsRemainder | aes/sha256.c:137-138 | The bytes left in the buffer are the length modulo 64. |
| Sha256.BitCountArithmetic | aes/sha256.c:148-160 | The carry into msb never fires, and msb:lsb equals 8 * (64 * nblocks + count). |
| Sha256.LengthFieldWords | aes/sha256.c:174-181 | The eight length bytes are msb then lsb, each big-endian. |
| Sha256.LengthHalves | aes/sha256.c:174-181 | msb and lsb are the high and low 32 bits of the bit length. |
| Sha256.LastBlockOfPadding | aes/sha256.c:162-181 | The compressed bytes, then the buffered head, then the length field, make up the padded message. |
| Sha256.PaddingZeros | aes/sha256.c:162-172 | The number of zero bytes the padding needs, for each of the two branches of the buffer fill. |
| Sha256.NextBlockCount | aes/sha256.c:118 | One more block increments nblocks modulo 2^32. |
| Sha256.Context.constructor | paes/sha256.h:24-29 | A fresh 64-byte buffer; the context's compression function is SHA-256's. |
| Sha256.Context.Init | aes/sha256.c:16-29 | h is the initial hash value; nblocks and count are 0; nothing has been absorbed. |
| Sha256.Context.LoadSchedule | aes/sha256.c:63-85 | The array holds the 64-word message schedule of the block. |
| Sha256.Context.RunRounds | aes/sha256.c:87-100 | The working variables after the 64 rounds. |
| Sha256.Context.CompressBlock | aes/sha256.c:31-111 | The result is the compression function applied to the chaining value and the block. |
| Sha256.Context.Transform | aes/sha256.c:31-111 | h becomes the compression of old h with the block; nothing else changes. |
| Sha256.Context.CompressBuffer | aes/sha256.c:115-119 | A full buffer is compressed; count is set to 0 and nblocks increments modulo 2^32. |
| Sha256.Context.Flush | aes/sha256.c:115-119 | A full buffer is compressed and emptied, anything else is left as is; the absorbed bytes do not change. |
| Sha256.Context.Put | aes/sha256.c:138 | One byte is appended to the buffer and to the absorbed message. |
| Sha256.Context.Fill | aes/sha256.c:122-128 | Bytes are copied until the input ends or the buffer is full; the absorbed message grows by exactly those bytes. |
| Sha256.Context.Absorb | aes/sha256.c:130-136 | A whole block is compressed directly and added to the absorbed message. |
| Sha256.Context.Blocks | aes/sha256.c:130-136 | Whole blocks are compressed until fewer than 64 input bytes are left. |
| Sha256.Context.Write | aes/sha256.c:113-139 | After the call the context is valid and the absorbed message is the old one plus the input. |
| Sha256.Context.CountersTrackLength | aes/sha256.c:113-139 | In a valid context, 64 * nblocks + count is the absorbed length modulo 2^38. |
| Sha256.Context.ZeroFill | aes/sha256.c:164-169 | Zero bytes fill the buffer from count up to the limit; the bytes before and after are kept. |
| Sha256.Context.PadBuffer | aes/sha256.c:162-172 | The compressed bytes and buf[..56] are the message, then 0x80, then its zero bytes; count is 56 or 0. |
| Sha256.Context.PadExtraBlock | aes/sha256.c:166-172 | The extra block is compressed and the next one is zeroed up to byte 56. |
| Sha256.Context.BitCount | aes/sha256.c:148-160 | msb and lsb are 32-bit values whose big-endian bytes are the length field for the byte count. |
| Sha256.Context.StoreLength | aes/sha256.c:174-181 | Bytes 56..63 become msb and lsb big-endian; bytes 0..55 are kept. |
| Sha256.Context.StoreWord | aes/sha256.c:188-189 | One word is written big-endian at p; the other bytes are kept. |
| Sha256.Context.StoreNth | aes/sha256.c:188-191 | One X(n) step: after the first n words, word n is also stored big-endian and the bytes after it are kept. |
| Sha256.Context.StoredStep | aes/sha256.c:188-191 | Writing word n big-endian after n stored words gives n + 1 stored words, the rest unchanged. |
| Sha256.Context.StoreFour | aes/sha256.c:191-198 | Four consecutive X steps store four more words. |
| Sha256.Context.StoreDigest | aes/sha256.c:184-199 | buf[..32] becomes H0..H7 big-endian; buf[32..] is kept. |
| Sha256.Context.PadWithLength | aes/sha256.c:162-181 | The compressed bytes followed by the buffer are exactly the padded message. |
| Sha256.Context.PadAndCompress | aes/sha256.c:162-199 | h is the hash of the padded message; the buffer holds its bytes and then the tail of the last block. |
| Sha256.Context.CompressLast | aes/sha256.c:182-199 | The last padded block is compressed, so h hashes the whole padded message; the digest then fills buf[..32] and the last 32 padded bytes stay in buf[32..]. |
| Sha256.Context.FlushAndCount | aes/sha256.c:146-160 | After the flush, msb:lsb encode 8 * (absorbed length mod 2^38). |
| Sha256.Context.Final | aes/sha256.c:141-200 | h hashes the absorbed message padded with its bit length mod 2^41; buf holds the serialised hash and then the last 32 padded bytes. |
| Sha256.Context.Read | aes/sha256.c:202-205 | Returns the context's buffer itself. |
| Sha256.SameInputSameState | aes/sha256.c:113-139 | Two contexts that absorbed the same bytes agree on h, nblocks, count and the buffered bytes. |
| Sha256.ShortMessageDigest | aes/sha256.c:148-160 | Below 2^38 bytes, the length field written is the true bit length, so the result is SHA-256. |
| Sha256.HashChunks | paes/sha256.h:31-58 | init, write of each chunk, final and read give the digest of the concatenated chunks. |
| Gf256.Xtime | aes/common.h:8 | The `xtime` macro on a 32-bit int, without truncation to a byte; XtimeLowByte and XtimeSmall state what it computes. |
| Gf256.XtimeLowByte | aes/common.h:8 | The low byte of xtime(x) is {02} times the low byte of x in GF(2^8), whatever the higher bits hold. |
| Gf256.XtimeSmall | aes/common.h:8 | Below 0x80, xtime is a plain left shift and stays below 0x100. |
| Gf256.Multiply | aes/common.h:11 | The `multiply` macro: the xor of the five partial products for bits 0..4 of y; MultiplyIsProduct, MultiplyLowBits and MultiplyByZero..MultiplyByThree state what it computes. |
| Gf256.MultiplyTermsProduct | aes/common.h:11 | The low byte of the partial-product sum for y < 2^n is the GF(2^8) product. |
| Gf256.MultiplyIsProduct | aes/common.h:11 | For y < 32, the low byte of multiply(x, y) is the GF(2^8) product of the low bytes. |
| Gf256.MultiplyTermsLowBits | aes/common.h:11 | n partial products give the same result for any two values of y that agree on bits 0..n-1. |
| Gf256.MultiplyLowBits | aes/common.h:11 | multiply(x, y) == multiply(x, y & 0x1f) on all 32 bits: the macro reads bits 0..4 of y and no other. |
| Gf256.MultiplyByZero | aes/common.h:11 | multiply(x, 0) == 0 on all 32 bits. |
| Gf256.MultiplyByOne | aes/common.h:11 | multiply(x, 1) == x on all 32 bits. |
| Gf256.MultiplyByTwo | aes/common.h:11 | multiply(x, 2) == xtime(x) on all 32 bits. |
| Gf256.MultiplyByThree | aes/common.h:11 | multiply(x, 3) == x ^ xtime(x) on all 32 bits. |
| KeySchedule.SubWord | aes/common.c:116-122 | Each byte of the word is replaced by its S-box entry. |
| KeySchedule.RotWord | aes/common.c:104-111 | [a0, a1, a2, a3] becomes [a1, a2, a3, a0]. |
| KeySchedule.XorWord | aes/common.c:136-139 | The result is the bytewise xor of the two words. |
| KeySchedule.KeyTemp | aes/common.c:97-134 | The temp word of step i: RotWord, SubWord and rcon[i / nk] when i % nk == 0; SubWord alone when nk > 6 and i % nk == 4; otherwise word i - 1 unchanged. ScheduleRecurrence uses it. |
| KeySchedule.RconAt | aes/common.c:124 | Within the table, the result is the table entry. |
| KeySchedule.SchedulePrefix | aes/common.c:95-141 | A longer schedule extends a shorter one. |
| KeySchedule.ScheduleWord | aes/common.c:95-141 | Word i of any longer schedule is computed from the first i words. |
| KeySchedule.ScheduleStartsWithKey | aes/common.c:87-93 | The first nk words of the schedule are the key, byte for byte. |
| KeySchedule.ScheduleRecurrence | aes/common.c:95-141 | Beyond the key, word i = word i - nk xor temp(word i - 1), as FIPS-197 section 5.2 prescribes. |
| KeySchedule.NextWordRcon | aes/common.c:124 | A word depends on the rcon table only through the entry i / nk, and only when i >= nk. |
| KeySchedule.ScheduleRconAgree | aes/common.c:124 | Two rcon tables that agree on entries 1..m give the same schedule whenever (n - 1) / nk <= m. |
| ExpansionLoop.StoreWord | aes/common.c:136-139 | Word i of round_key becomes w; every other byte is kept. |
| ExpansionLoop.ComputeTemp | aes/common.c:97-134 | temp is RotWord, SubWord and the rcon xor at a multiple of nk, SubWord alone at i % nk == 4 when nk > 6, and otherwise the previous word. |
| ExpansionLoop.ComputeWord | aes/common.c:88-139 | The word written at i is the schedule's next word after the bytes already written. |
| ExpansionLoop.Extend | aes/common.c:96-141 | Storing the next word extends the expanded prefix by one word. |
| ExpansionLoop.PutWord | aes/common.c:96-141 | One loop step keeps round_key equal to the schedule so far, followed by the untouched bytes. |
| ExpansionLoop.CopyKey | aes/common.c:88-93 | After the first loop, round_key starts with the nk key words. |
| ExpansionLoop.ExpandFrom | aes/common.c:96-141 | After the second loop, round_key holds the schedule up to max(nk, limit) words. |
| ExpansionLoop.Expand | aes/common.c:84-142 | The first max(nk, limit) words are the key schedule; the bytes after them are unchanged. |
| AesCommon.RconSize | aes/common.c:28-44 | The rcon table as declared, with its 255 entries. |
| AesCommon.RconPowers | aes/common.c:25-31 | rcon[i] = {02}^(i-1) in GF(2^8) for i = 1..10. |
| AesCommon.StandardKeyFits | aes/common.c:96 | For nk = 4, 6 or 8 and nr = nk + 6, the loop writes nb * (nr + 1) words, and they fit round_key[240]. |
| AesCommon.StandardRcon | aes/common.c:124 | For the three AES key sizes the schedule reads only rcon[1..10], and those entries are powers of {02}. |
| AesCommon.XorBlockTwice | aes/common.c:146-154 | Xoring a round key twice gives the block back. |
| AesCommon.Aes.constructor | aes/common.c:19-67 | The globals start at zero; round_key is 240 bytes; state and temp_buffer are 4x4. |
| AesCommon.Aes.AddRoundKey | aes/common.c:146-154 | state[c][r] ^= round_key[16 * round + 4c + r] for every cell, so the state is the block xored with round key `round`. |
| AesCommon.Aes.KeyExpansion | aes/common.c:82-142 | round_key holds the schedule of the key for Words(nk, nr) words; later bytes are unchanged. |
| PaesFunctions.GetAesModeName | paes/paes_functions.c:78-82 | Mode i is named by entry i of {"encrypt", "decrypt", "unspecified"}; ModeNamesDistinct and Paes.ParseNames state its properties. |
| PaesFunctions.ModeNamesDistinct | paes/paes_functions.c:78-82 | Two modes have the same name exactly when they are the same mode. |
| PaesFunctions.GetOpenclDeviceName | paes/paes_functions.c:159-163 | Device i is named by entry i of {"cpu", "gpu", "unspecified"}; DeviceNamesDistinct and Paes.ParseNames state its properties. |
| PaesFunctions.DeviceNamesDistinct | paes/paes_functions.c:159-163 | Two devices have the same name exactly when they are the same device. |
| PaesFunctions.GetRoundsNumber | paes/paes_functions.c:84-89 | nk = key_size_bits / 32 in unsigned division, and nk + 6 rounds; AesRounds and RoundKeyWords state its values. |
| PaesFunctions.GetRoundKeySize | paes/paes_functions.c:91-95 | One 4 by 4 round key per round plus the initial one; AesRounds and RoundKeyWords state its values. |
| PaesFunctions.AesRounds | paes/paes_functions.c:84-95 | 128, 192 and 256 bits give 10, 12 and 14 rounds and round keys of 16(nr + 1) <= 240 bytes. |
| PaesFunctions.RoundKeyWords | paes/paes_functions.c:91-95 | The round key size is a multiple of 16; its words are nb(nr + 1), the same count as aes/common.c; it does not wrap in 32 bits. |
| PaesFunctions.KeyExpansion | paes/paes_functions.c:98-155 | Returns a fresh buffer of get_round_key_size bytes, all of them the key schedule; the key is not modified. |
| PaesFunctions.AgreesWithCommon | paes/paes_functions.c:98-155 | For AES key sizes and an rcon holding the powers of {02}, this copy yields the same bytes as the aes/common.c copy. |
| Paes.ParseMode | paes/paes.c:114-121 | Encrypt exactly for "encrypt", Decrypt exactly for "decrypt". |
| Paes.ParseDevice | paes/paes.c:99-106 | Cpu exactly for "cpu", Gpu exactly for "gpu". |
| Paes.ParseNames | paes/paes.c:99-121 | Parsing the name of a mode or device gives it back. |
| Paes.CheckArguments | paes/paes.c:135-151 | The mode is checked first, then the key size (128/192/256), then the device; each error occurs exactly when its check is the first to fail. |
| Paes.ValidatedKeyLength | paes/paes.c:191-200 | After the check, the key is 16, 24 or 32 bytes, i.e. 4 * nk, at most 32, and its round keys fit in 240 bytes. |
| Paes.FinalBufferDigest | paes/paes.c:159-171 | For size <= 32, the first size bytes of the final buffer are a prefix of SHA-256(password). |
| Paes.HashToBuffer | paes/paes.c:163-168 | init, write, final and read leave the digest and the tail of the padding in the buffer. |
| Paes.FinalizedBuffer | paes/paes.c:166-168 | A context finalized over the password holds the SHA-256 digest of the password padded with LengthField, then the last 32 padded bytes. |
| Paes.CopyPrefix | paes/paes.c:168 | memcpy: a fresh array that holds the first size bytes of the source. |
| Paes.HashPassword | paes/paes.c:159-171 | A fresh array of size bytes; up to 32 bytes it is the prefix of the SHA-256 digest of the password. |
| Paes.DeriveKey | paes/paes.c:190-200 | The arguments are checked first; only when they pass is the key derived, key_size_bits / 8 bytes of the digest. |
| AesMain.ValidAction | aes/aes.c:40-44 | The program goes on exactly for the actions "encrypt" and "decrypt"; AesMain.Run states the outcome. |
| AesMain.TruncDiv | aes/aes.c:48 | C int division truncates toward zero for either sign. |
| AesMain.DeriveShapeAsWritten | aes/aes.c:46-49 | nr = nk + 6, and nk is key_bits / 32 rounded toward zero. |
| AesMain.AsWrittenLetsThrough | aes/aes.c:46-53 | Unchecked: 512 gives a 64-byte key and a 368-byte schedule; 31 gives nk = 0; -40 gives nk = -1. |
| AesMain.SafeShape | aes/aes.c:46-71 | The unchecked derivation gives 1 <= nk, a key within the 32-byte digest and a schedule within round_key[240] exactly when 32 <= key_bits < 288. |
| AesMain.SafeRconIndex | aes/common.c:124 | For 1 <= nk <= 8 and nr = nk + 6, every rcon[i / nk] read is at an index from 1 to 31, inside the 255-entry table. |
| AesMain.DeriveShape | aes/aes.c:46-49 | With the check, a shape exists exactly for 128, 192 and 256 bits. |
| AesMain.CheckedShapeFits | aes/aes.c:46-53 | A checked shape has nk in {4, 6, 8}, a key prefix of the digest, a schedule that fits round_key, and nr equal to get_rounds_number. |
| AesMain.TransformFor | aes/aes.c:83-87 | cipher exactly when the action is "encrypt". |
| AesMain.Calls | aes/aes.c:75-90 | Call b has offset 16b and the block input[16b..16b+16], with the selected transform. |
| AesMain.PayloadIsInput | aes/aes.c:75-90 | The blocks handed to the transforms are the input up to its last complete block, in order. |
| AesMain.TrailingBytesSkipped | aes/aes.c:75-90 | Every call's block is 16-aligned and ends before the trailing file_size % 16 bytes. |
| AesMain.StoreCell | aes/aes.c:76-80 | temp_buffer[pos/4][pos%4] = x changes cell pos only. |
| AesMain.GatherNext | aes/aes.c:75-80 | Storing a byte inside a block keeps the buffer gathered. |
| AesMain.GatherLast | aes/aes.c:75-82 | Storing the 16th byte completes the block: the buffer is exactly that block of the input. |
| AesMain.GatherByte | aes/aes.c:76-89 | One loop pass stores the byte and, on the 16th, records the call for the completed block. |
| AesMain.ProcessBlocks | aes/aes.c:73-90 | The calls are exactly those of every complete block; the buffer holds the trailing bytes, then the rest of the last block. |
| AesMain.HashKey | aes/aes.c:53 | The key is nk * 4 bytes, the prefix of SHA-256(password). |
| AesMain.DeriveKey | aes/aes.c:46-53 | For any key size from 32 to 287 bits: nk = key_bits / 32 in 1..8, nr = nk + 6, and the key is the first nk * 4 digest bytes. |
| AesMain.SetKey | aes/aes.c:46-71 | For any key size from 32 to 287 bits: after the key and key_expansion, round_key starts with the key's schedule (Keyed). |
| AesMain.RunAsWritten | aes/aes.c:40-90 | As written, for a key size from 32 to 287 bits: a wrong action stops the program exactly when the action is wrong; otherwise the program is keyed and every complete block goes to the selected transform. |
| AesMain.Run | aes/aes.c:40-90 | A wrong action or key size stops the program exactly when it holds; otherwise the program is keyed and every complete block goes to the selected transform. |
| Correggi.BeforeDot | thesis-text/correggi-lol.py:12 | The result is the longest prefix with no '.', followed by a '.' or by the end of the string. |
| Correggi.ChapterKey | thesis-text/correggi-lol.py:12 | A key exists exactly when the line has a group; it is the group's text before the first dot. |
| Correggi.KeysOf | thesis-text/correggi-lol.py:12 | Key j is the chapter key of line j. |
| Correggi.Entries | thesis-text/correggi-lol.py:11-18 | What the loop writes: for each line, a separator when Separates marks it, then the line; LinesPreserved, LineAt and SeparatorIffChange state its properties. |
| Correggi.EntriesPrefix | thesis-text/correggi-lol.py:11-18 | The output for n lines is the output for n - 1 lines, then the separator if any, then line n - 1. |
| Correggi.LinesOfEntries | thesis-text/correggi-lol.py:17 | The copied lines of the output are the input lines. |
| Correggi.SpacesOfEntries | thesis-text/correggi-lol.py:13-14 | The number of separators is the number of key changes that Separates marks. |
| Correggi.LinesPreserved | thesis-text/correggi-lol.py:11-18 | Every line is written once, in order and unchanged; the output length is the line count plus the change count. |
| Correggi.NoSeparatorFirst | thesis-text/correggi-lol.py:10-14 | No separator is written before the first line. |
| Correggi.LineAtLast | thesis-text/correggi-lol.py:13-17 | The last line is at its Position, preceded by a separator exactly when Separates holds. |
| Correggi.LineAt | thesis-text/correggi-lol.py:13-17 | Line i is at Position(i), preceded by a separator exactly when Separates holds. |
| Correggi.EntriesWithoutSentinel | thesis-text/correggi-lol.py:10-13 | When no key equals "azz", the script as written matches the rewrite without a sentinel. |
| Correggi.SeparatorIffChange | thesis-text/correggi-lol.py:13-16 | With no sentinel, or with one no line uses, a separator precedes line i exactly when its key differs from line i - 1's. |
| Correggi.SentinelSuppressesSeparator | thesis-text/correggi-lol.py:10-13 | After a line keyed "azz", a key change gets no separator. |
| Correggi.RewriteStep | thesis-text/correggi-lol.py:12-17 | Line i adds the separator (when Separates holds) and the line; Separates compares the previous key with the sentinel and with the new key. |
| Correggi.ProgressNext | thesis-text/correggi-lol.py:12-17 | One loop pass keeps the output equal to what the rewrite writes for the lines so far. |
| Correggi.RewriteLine | thesis-text/correggi-lol.py:12-17 | The loop body: the output and the previous key are advanced to line i + 1. |
| Correggi.Rewrite | thesis-text/correggi-lol.py:9-18 | The script raises at the first line without a group; otherwise it writes the lines with a separator before each key change. |

## Left out

- File and terminal I/O are not modelled: `open_files`, `alloc_files`, `close_file`, `read_file`, `write_file`, mmap, the timing with `now()`, every `printf`, and `getpass`. `main` takes the input as a byte sequence.
- The OpenCL plumbing of `paes/paes_functions.c` (`apply_aes`, device setup, kernels) and the command line plumbing (`parse_command_line` with getopt, `show_help`, `argc` checks) are not modelled. Only the per-option decisions are: `ParseMode`, `ParseDevice`, and the key size as an integer.
- Paes.CheckArguments: takes the key size as an int. The `atoi` result is not truncated to `unsigned short`, so e.g. 65664 is not wrapped to 128.
- The S-box tables, `ROUND_CONSTANT` and `AES_STATE_SIDE` are not part of this model. The S-box is a 256-entry parameter, rcon of the parallel program is a parameter, and `StateSide` is 4.
- The bodies of `cipher` and `inv_cipher` (crypter.h/decrypter.h) are not part of this model. `AesMain.Run` records each call with the block in `temp_buffer`.
- AesMain.ProcessBlocks: the model assumes that `cipher` and `inv_cipher` write none of `temp_buffer`, `round_key`, `nk`, `nr` or `key`. Its second ensures (the buffer contents) and `Keyed` in the ensures of `AesMain.Run` and `AesMain.RunAsWritten` rest on this.
- Gf256.MultiplyIsProduct: proved only for y < 32, since the macro looks at bits 0..4 of y alone (Gf256.MultiplyLowBits). For larger y the macro is not a GF(2^8) product.
- Sha256.Context.Write: writing after `sha256_final` without a new `sha256_init` is not modelled; the method requires a consistent context.
- Sha256.Context.BitCount: `msb |= t >> 29` is modelled as an addition. The two operands occupy disjoint bits, so the value is the same.
- Paes.HashPassword: the password is the byte sequence before its terminating NUL (`strlen`).
- Paes.HashPassword: its size is at most 64. A larger memcpy would read past the 64-byte context buffer.
- AesMain.Run: checks the key size as the parallel program does (see Findings), so it reports `WrongKeySize` for sizes from 32 to 287 bits other than 128, 192 and 256. The program as written runs those without fault; `AesMain.RunAsWritten` models them.
- AesMain.RunAsWritten: key sizes below 32 or from 288 bits on are excluded. For those, the program divides by zero, reads past the digest or writes past `round_key` (AesMain.SafeShape, AesMain.AsWrittenLetsThrough).
- AesMain.HashKey: the size is at most 32, the digest length. The conversion of a negative `nk * 4` to `size_t` is not modelled.
- Correggi.Rewrite: the regular expression `numberline.*?{(.*?)}` is a given function `extract` from a line to its first group. Writing the temporary file and renaming it over the input are not modelled; `Raised` means the input file is left as it was.
- Correggi.Rewrite: Python's `IndexError` on a line without a group is the `Raised` outcome.

## Findings

| source | as written | input that shows it | evidently intended | confidence | as-written member | corrected member |
|---|---|---|---|---|---|---|
| aes/aes.c:46-53 | The key size argument is not checked; nk = key_bits / 32 and nr = nk + 6 are used as they come. | key_bits = 512 gives nk = 16 and nr = 22. That is a 64-byte key from a 32-byte digest and a 368-byte schedule into `round_key[240]`. key_bits = 31 gives nk = 0, and `key_expansion` divides by it. | A key size check before the key is derived. The program as written is safe exactly from 32 to 287 bits (AesMain.SafeShape); the check of the parallel program, `check_arguments` of paes/paes.c, admits 128, 192 and 256. | high for the arithmetic, not executed | AesMain.AsWrittenLetsThrough | AesMain.CheckedShapeFits |
| thesis-text/correggi-lol.py:10 | The initial previous key is the string "azz", which a chapter key can equal. | Lines keyed "azz" then "1": no separator is written between them. | A separator at every change of key, with no sentinel value that a key can take. | low, not executed | Correggi.SentinelSuppressesSeparator | Correggi.SeparatorIffChange |
