# Partial SHA-1 collision search: the C host side

The repository searches for partial SHA-1 collisions. A 48-byte message
begins with a 4-byte counter. The program looks for the first counter whose
digest starts with `target` zero bits. An FPGA custom instruction runs the
search. Around it, two C files hold sequential logic. This project models that
logic in Dafny and proves what it computes:

- `src/c/cinterface.c` builds the padded SHA-1 block from the base string
  (`setsearchstring`). It packs the block into eight pairs of big-endian words
  for the coprocessor.
- The same file coerces the target (`settarget`). It resets the search state
  (`searchcollision`) and reads it back (`shacomputed`, `collisionfound`).
- It also keeps, commented out, the leading-zero-bit test (`testdigest`) and
  the software search loop. They are the reference semantics of the hardware.
- `src/c/collisions.c` rebuilds the colliding message for the report
  (`reportcollision`). It prints the digest in hex (`printdigest`) and keeps
  throughput statistics in the alarm callback (`updatecallback`). Its `main`
  raises the target one bit per round.

Modules:

- `Bytes` (`bytes.dfy`) holds the machine vocabulary:
  - `unsigned char`, `unsigned` and `int` as bounded integer types;
  - the conversions between them, and C's truncating division;
  - big-endian words;
  - `strncpy`, as a specification function and as an in-place method on an
    array.
- `CInterface` (`cinterface.dfy`) holds:
  - the block, the word packing and the target;
  - the globals, as a class `Driver` whose methods change its fields;
  - `testdigest`, as a method over the bit predicate `ZeroPrefix`;
  - the software search, as a method over the specification function
    `FirstMatch`.
- `Collisions` (`collisions.dfy`) holds:
  - the report message;
  - the hex line, as a method over the specification function `DigestLine`;
  - the callback context, as a class;
  - the round loop of `main`.

SHA-1 is a parameter `sha1: seq<byte> -> Digest`, an uninterpreted function
from the message bytes to 20 bytes. The collision instruction is a parameter
too.

Four facts about the code shape the model:

- `shacomputed()` returns "the number of sha computed" (src/c/cinterface.h:39).
  The software loop increments `currentcount` only after a failed trial.
  So when counter `c` is found, `shacomputed()` is `c`: the trials of
  0 .. c-1 are counted and the successful one is not.
- The header documents a return of 0 when no counter succeeds
  (src/c/cinterface.h:33-34). That is the same value as "found at counter 0",
  and the model returns it in both cases. The specification function
  `FirstMatch` keeps the two outcomes apart.
- `setsearchstring` copies up to 48 bytes of the base string
  (src/c/cinterface.c:58). The first four of the 48 are always overwritten by
  the counter.
- `hascollision` is reset but never set to 1 by the code, and the model never
  sets it.

## Model

| member | source | states |
|---|---|---|
| `Bytes.ToInt` | src/c/cinterface.c:92-101 | an `unsigned` returned as `int` is the same value modulo 2^32: unchanged below 2^31, negative from 2^31 |
| `Bytes.UnsignedIntRoundTrip` | src/c/cinterface.c:99-101 | storing the returned `int` back into an `unsigned` gives the original value, and the other way round |
| `Bytes.ToUnsigned` | src/c/collisions.c:88-89 | the `int` result of `searchcollision` stored into `unsigned cnt` is its value modulo 2^32, unchanged when non-negative |
| `Bytes.Pred` | src/c/cinterface.c:114 | `currentTarget-1` on an unsigned is the predecessor modulo 2^32, so 0 wraps to 0xFFFFFFFF |
| `Bytes.CDiv` | src/c/collisions.c:57-59 | C's `int` division: the magnitude is rounded down and the sign follows the dividend |
| `Bytes.BigEndian` | src/c/collisions.c:38-41 | the four bytes `(char)(c >> 24)` … `(char)c` written over bytes 0..3 (also src/c/cinterface.c:119-122); `WordOfBigEndian` and `BigEndianOfWord` state that they are the base-256 digits of `c` |
| `Bytes.Word` | src/c/cinterface.c:69-72 | the shift-or word of four bytes; its meaning, that it inverts `BigEndian`, is stated by `BigEndianOfWord` and `WordOfBigEndian` |
| `Bytes.WordOfBigEndian` | src/c/collisions.c:38-41 | reassembling the four bytes written by the shifts `c >> 24 … c` gives back `c` |
| `Bytes.BigEndianOfWord` | src/c/cinterface.c:69-72 | the word built from four bytes by `<<` and `\|` splits back into the same four bytes |
| `Bytes.BigEndianInjective` | src/c/collisions.c:38-41 | two counters write the same four bytes exactly when they are equal |
| `Bytes.CString` | src/c/cinterface.c:58 | the characters copied by `strncpy` are a prefix of the source with no NUL, ended by a NUL or by the end of the source |
| `Bytes.Strncpy` | src/c/cinterface.c:58 | the `n` bytes `strncpy(dst, v, n)` leaves in `dst` (also src/c/collisions.c:36): exactly `n` of them, each given by `StrncpyAt` |
| `Bytes.StrncpyAt` | src/c/cinterface.c:58 | `strncpy(dst, v, n)` leaves exactly `n` bytes: the source's byte before its first NUL, NUL after it |
| `Bytes.StrncpyShort` | src/c/collisions.c:36 | a NUL-free string shorter than `n` is copied whole and zero-filled up to `n` |
| `Bytes.StrncpyTruncates` | src/c/collisions.c:36 | a string with no NUL in its first `n` bytes is cut to exactly `n` bytes, with no terminator |
| `Bytes.StrNCopy` | src/c/cinterface.c:57-58 | the in-place copy writes `strncpy`'s `n` bytes into the buffer and leaves the rest of it unchanged |
| `CInterface.PaddingLength` | src/c/cinterface.c:60-65 | the FIPS 180-4 padding of an `len`-byte message is a marker byte, `(55 - len) mod 64` zero bytes and an 8-byte length |
| `CInterface.PaddingCompletesBlock` | src/c/cinterface.c:60-65 | the padding brings every message to a whole number of 64-byte blocks, adding 9 to 72 bytes |
| `CInterface.BlockLayout` | src/c/cinterface.c:56-65 | the block is 64 bytes: the `strncpy` of the base string in bytes 0..47, 0x80 at 48, zeros in 49..61, 0x01 0x80 in 62..63 |
| `CInterface.BlockIsPaddedMessage` | src/c/cinterface.c:60-65 | the block is exactly the 48 message bytes followed by their FIPS 180-4 padding (bit length 384 = 0x180) |
| `CInterface.BlockTailIsFixed` | src/c/cinterface.c:60-65 | bytes 48..63 of the block do not depend on the base string |
| `CInterface.Block` | src/c/cinterface.c:54-65 | the 64-byte buffer of `setsearchstring`; its layout is stated by `BlockLayout` and `BlockIsPaddedMessage` |
| `CInterface.Pack` | src/c/cinterface.c:68-78 | a block of `8k` bytes becomes `k` word pairs |
| `CInterface.PackAt` | src/c/cinterface.c:68-72 | pair `k` holds the big-endian words of bytes `8k..8k+3` and `8k+4..8k+7` |
| `CInterface.PackStep` | src/c/cinterface.c:68-78 | the first `k+1` pairs are the first `k` followed by the pair of bytes `8k..8k+7`, in sending order |
| `CInterface.UnpackPack` | src/c/cinterface.c:68-78 | unpacking the sent pairs, word after word, gives back the block |
| `CInterface.PackUnpack` | src/c/cinterface.c:68-78 | packing the bytes of any sequence of pairs gives back those pairs, so packing loses nothing |
| `CInterface.BlockFromBuffer` | src/c/cinterface.c:57-65 | a zeroed 64-byte buffer with the `strncpy` result and the three padding writes is the block |
| `CInterface.BuildBlock` | src/c/cinterface.c:54-65 | the local buffer of `setsearchstring` ends up holding the block |
| `CInterface.SetSearchString` | src/c/cinterface.c:51-79 | exactly 8 pairs are sent; they are the packing of the block, and unpacking them reconstructs it |
| `CInterface.TargetFor` | src/c/cinterface.c:88-90 | the target is `n` when `n > 0` and 1 otherwise, so it is always at least 1 |
| `CInterface.TargetNonPositiveActsAsOne` | src/c/cinterface.c:88-90 | `settarget(0)` and every negative `n` behave like `settarget(1)` |
| `CInterface.TopMaskStep` | src/c/cinterface.c:33-34 | a byte's top `k` bits are clear exactly when its top `k-1` bits and bit `k-1` are clear |
| `CInterface.TopBitsClear` | src/c/cinterface.c:33-34 | on the bit-vector form of a byte: its top `k` bits are clear exactly when it masks with the top-`k`-bits mask to 0 |
| `CInterface.TopBitsOfByte` | src/c/cinterface.c:33-34 | the top `k` bits of a byte are all zero exactly when the byte masked with the top-`k` mask is 0 |
| `CInterface.ZeroByte` | src/c/cinterface.c:26 | masking with all eight bits gives 0 exactly for the zero byte |
| `CInterface.ZeroPrefixOfBytes` | src/c/cinterface.c:25-30 | `8 * idx` leading zero bits are exactly `idx` leading zero bytes |
| `CInterface.ZeroPrefixExtend` | src/c/cinterface.c:32-35 | after `idx` zero bytes, `8 * idx + b` leading zero bits means the next byte's top `b` bits are zero |
| `CInterface.ZeroPrefixExtendBits` | src/c/cinterface.c:32-35 | after `idx` zero bytes, `8 * idx + b` leading zero bits means exactly that the next byte's top `b` bits are clear, bit by bit |
| `CInterface.LowMask` | src/c/cinterface.c:33-34 | `(-256 >> b) & 0xff` is a byte value |
| `CInterface.LowMaskValue` | src/c/cinterface.c:33-34 | for `1 <= b <= 7`, `(-256 >> b) & 0xff` is the byte with its top `b` bits set |
| `CInterface.TopMaskRoundTrip` | src/c/cinterface.c:34 | the integer and bit-vector forms of each top-bits mask agree |
| `CInterface.MaskSelectsTopBits` | src/c/cinterface.c:33-34 | the mask of `testdigest`, as a byte, is the top-`b`-bits mask |
| `CInterface.NonZeroByteFails` | src/c/cinterface.c:25-29 | a non-zero byte met while at least 8 bits remain makes the target fail |
| `CInterface.PartialByteTest` | src/c/cinterface.c:33-35 | after `idx` zero bytes, `digest[idx] & mask & 0xff` with the shifted mask is 0 exactly when `8 * idx + b` leading bits are zero |
| `CInterface.TestDigest` | src/c/cinterface.c:20-38 | `testdigest` returns 0 or 1, and 1 exactly when the first `currentTarget` bits of the digest are zero |
| `CInterface.ZeroDigestPasses` | src/c/cinterface.c:25-35 | an all-zero digest meets every target up to 160 |
| `CInterface.TopBitSetFails` | src/c/cinterface.c:25-35 | a digest whose byte 0 has its top bit set meets no target of 1 or more |
| `CInterface.WithCounter` | src/c/cinterface.c:119-122 | the search string with the counter written big-endian over its bytes 0..3, the same length as the string (also src/c/collisions.c:38-41) |
| `CInterface.FirstMatch` | src/c/cinterface.c:118-130 | the first counter in a range whose message meets the target, or exhaustion; characterised by `FirstMatchFound` and `FirstMatchExhausted` |
| `CInterface.FirstMatchFound` | src/c/cinterface.c:118-130 | the search finds `c` exactly when `c` is in range, passes, and every smaller counter in range fails |
| `CInterface.FirstMatchExhausted` | src/c/cinterface.c:118-130 | the search is exhausted exactly when no counter in range passes |
| `CInterface.LastCounterSkipped` | src/c/cinterface.c:118 | for a hash where only counter 0xFFFFFFFF meets target 1, the loop as written reports exhaustion, while a search of every counter finds it |
| `CInterface.Driver.constructor` | src/c/cinterface.c:11-13 | the three globals start at 0 |
| `CInterface.Driver.SetTarget` | src/c/cinterface.c:88-90 | `settarget` stores the coerced target and changes nothing else |
| `CInterface.Driver.CollisionFound` | src/c/cinterface.c:92-94 | `collisionfound()` is `hascollision` read back as an `int` |
| `CInterface.Driver.ShaComputed` | src/c/cinterface.c:99-101 | `shacomputed()` is `currentcount` read back as an `int` |
| `CInterface.Driver.SearchCollision` | src/c/cinterface.c:109-114 | count and flag are reset, so `shacomputed()` and `collisionfound()` read 0 afterwards; the result is the coprocessor's answer for `currentTarget-1` |
| `CInterface.Driver.SoftwareSearch` | src/c/cinterface.c:116-130 | counters from 0 up, below 0xFFFFFFFF: the first passing one is returned and left in bytes 0..3, and the count equals that counter, the failed trials; otherwise 0 is returned with 0xFFFFFFFF failed trials and counter 0xFFFFFFFE left in bytes 0..3; the base bytes 4..47 are untouched |
| `CInterface.Driver.SearchAllCounters` | src/c/cinterface.c:116-130 | the same loop over every 32-bit counter, 0xFFFFFFFF included; on exhaustion counter 0xFFFFFFFF is left in bytes 0..3 |
| `CInterface.Trial` | src/c/cinterface.c:119-126 | one trial writes the counter big-endian into bytes 0..3 and hashes the resulting 48-byte message |
| `Collisions.SecretKernelMessage` | src/c/collisions.c:67 | the kernel of `main` is 29 bytes, starts with `XXXX`, and is copied whole with 19 NULs after it |
| `Collisions.HexDigit` | src/c/collisions.c:16 | each digit `%x` prints is `0`-`9` or `a`-`f` |
| `Collisions.HexValueOfDigit` | src/c/collisions.c:16 | reading a printed digit gives back its value |
| `Collisions.Hex2` | src/c/collisions.c:16 | `%02x` of a byte: always exactly two digits, high nibble first |
| `Collisions.HexPrefix` | src/c/collisions.c:15-18 | what the loop of `printdigest` has printed after `i` bytes; its shape is stated by `HexPrefixLength`, `HexPrefixDigit`, `HexPrefixSpace` and `HexPrefixChars` |
| `Collisions.DigestLine` | src/c/collisions.c:13-20 | the printed line is 46 characters |
| `Collisions.HexPrefixLength` | src/c/collisions.c:15-18 | after `i` bytes, `2i + i/4` characters have been printed |
| `Collisions.HexPrefixExtends` | src/c/collisions.c:15-18 | printing the next byte keeps every character printed before |
| `Collisions.HexPrefixLast` | src/c/collisions.c:15-18 | byte `i-1`'s two digits follow what was printed before, and a space follows them when `i` is a multiple of 4 |
| `Collisions.HexPrefixDigit` | src/c/collisions.c:15-18 | the two digits of byte `k`, high nibble first, stand at `2k + k/4` |
| `Collisions.HexPrefixSpace` | src/c/collisions.c:17 | a space follows the digits of every fourth byte |
| `Collisions.HexPrefixChars` | src/c/collisions.c:15-18 | the loop prints only lowercase hex digits and spaces |
| `Collisions.DigestLineShape` | src/c/collisions.c:13-20 | 46 characters: byte `k`'s two digits at `2k + k/4`, spaces after bytes 3, 7, 11, 15 and 19, and a final newline; nothing but lowercase hex digits, spaces and the newline |
| `Collisions.UnhexDigestLine` | src/c/collisions.c:13-20 | the printed digits decode back to the digest |
| `Collisions.PrintDigest` | src/c/collisions.c:13-20 | the loop prints exactly the digest line |
| `Collisions.ReportMessage` | src/c/collisions.c:30-41 | the rebuilt message is the `strncpy` of the kernel into 48 zeroed bytes, with the counter big-endian over bytes 0..3 |
| `Collisions.ReportLayout` | src/c/collisions.c:35-41 | the message is 48 bytes; decoding bytes 0..3 gives the counter back, and bytes 4..47 are the copied kernel |
| `Collisions.ReportDiffersOnlyInCounter` | src/c/collisions.c:35-41 | for one kernel, the messages of two counters agree after byte 3 and are equal only for equal counters |
| `Collisions.ReportMatchesBlock` | src/c/collisions.c:35-41 | the reported message is the first 48 bytes of the block loaded by `setsearchstring`, with the counter over the placeholder bytes |
| `Collisions.ReportedDigestPasses` | src/c/collisions.c:42-46 | when the counter is the one the search finds, the reported digest meets the target |
| `Collisions.ReportCollision` | src/c/collisions.c:22-47 | the display shows the counter; the digest is the hash of the rebuilt message; the printed line is its digest line |
| `Collisions.CallbackContext.constructor` | src/c/collisions.c:49-52 | a fresh context has both fields 0 |
| `Collisions.CallbackContext.UpdateCallback` | src/c/collisions.c:55-63 | the callback count rises by exactly one; it reports the current count and `(count - prevcount) / 10` with C division; `prevcount` becomes the count; it returns `10 * ticks` modulo 2^32 |
| `Collisions.Rate` | src/c/collisions.c:59 | `(shacomputed() - prevcount) / updateeach` with C division; its bounds are stated by `RateBounds` |
| `Collisions.RateBounds` | src/c/collisions.c:57-59 | a count that grew by `n` reports the number of whole tens in `n`; a count that fell reports a non-positive rate |
| `Collisions.RoundsFromBounds` | src/c/collisions.c:75-92 | from round `i` on, the loop stops at the first round with ten callbacks, or at round 32 |
| `Collisions.RoundsFrom` | src/c/collisions.c:92 | the `do … while` condition `callbackcount < 10 && iteration < 32`, evaluated from round `i` on; characterised by `RoundsFromBounds` |
| `Collisions.RoundCountCharacterised` | src/c/collisions.c:75-92 | the run lasts `r` rounds exactly when `1 <= r <= 32`, no earlier round had ten callbacks, and round `r` had ten or is round 32 |
| `Collisions.FireCallbacks` | src/c/collisions.c:84-86 | `n` alarm callbacks leave the callback count at `n`; the previous count stays 0, because the hardware build never writes the digest count |
| `Collisions.Round` | src/c/collisions.c:75-91 | one round: the target is the round number, the counters are reset, the callback count is the number fired and the previous count stays 0, and the reported counter is the coprocessor's answer for the loaded block and `target-1` |
| `Collisions.RunRounds` | src/c/collisions.c:73-92 | the loop runs the characterised number of rounds (1 to 32); round `k+1` uses target `k+1`, reports the coprocessor's answer for `k`, and the hash of that answer's message |

## Left out

- The FPGA custom instruction `ALT_CI_FIND_COLLISION_0` (src/c/cinterface.c:8-9) is opaque hardware:
  - `SEND_BASE_BYTES` is modelled as the sequence of pairs `SetSearchString` returns;
  - `GET_COLLISION` is a function parameter of the target it is given.
- SHA-1 (`sha1_starts`/`sha1_update`/`sha1_finish`) is a function parameter. `sha1.h` is not part of this model.
- Console and peripheral output is left out: every `printf` except the digest line, and the `IOWR_32DIRECT` write to the display (only the value written is returned).
- The alarm is not modelled. `alt_alarm_start`/`alt_alarm_stop` are left out. `alt_ticks_per_second()` is the parameter `ticks`. How many callbacks fire in each round is the parameter `fired`.
- The callback is asynchronous in the source. The model runs the callbacks one after another after the search has returned. This changes no value: in the hardware build nothing writes `currentcount` during the search, so every call reads 0.
- `Collisions.CallbackContext.UpdateCallback` requires that neither `callbackcount + 1` nor `count - prevcount` overflows an `int`. Signed overflow is undefined in C. `Collisions.RunRounds` requires fewer than 2^31 - 1 callbacks per round for the same reason.
- `Bytes.Word` builds the word arithmetically. The undefined signed overflow of `buffer[i] << 24` for bytes of 0x80 and above is not reproduced.
- `CInterface.TestDigest` requires `currentTarget <= 160`. A larger target reads past the 20-byte digest in C.
- `CInterface.Driver.SoftwareSearch` returns 0 after the loop, following the header (src/c/cinterface.h:32-34). The commented code falls off the end of the function without a return.
- `CInterface.Driver.SoftwareSearch` takes the search string as an array parameter. The global `currentsearchstring` is not declared in the code shown.
- `CInterface.Driver.SoftwareSearch` and the other search members require `currentTarget <= 160`, because each trial uses `testdigest`.
- `Collisions.RunRounds` leaves out `main`'s banner `printf`s and the final `return 0`.
- `char`'s signedness is not modelled. The source's `char` buffers are modelled as bytes; the `(char)` casts keep the low 8 bits, so the stored bytes are the same.

## Findings

| source | as written | input that shows it | evidently intended | confidence | as-written member | corrected member |
|---|---|---|---|---|---|---|
| src/c/cinterface.c:118 | the loop guard `currentcount < ((unsigned)-1)` stops before counter 0xFFFFFFFF is tried | a hash for which only the message with counter 0xFFFFFFFF has a leading zero bit, with target 1: the loop reports exhaustion | every 32-bit counter is tried, as the header promises (src/c/cinterface.h:32-34) | not executed | `CInterface.Driver.SoftwareSearch` (with `CInterface.LastCounterSkipped`) | `CInterface.Driver.SearchAllCounters` |
