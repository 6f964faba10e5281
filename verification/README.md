# SHA-256 streaming digester, modelled in Dafny

This project models `src/sha.rs`. That file implements SHA-256 (FIPS 180-4) as a
streaming digester, `Sha256Digestion`:

- bytes are fed one at a time with `add_byte`;
- each time 64 bytes have gathered in the reading block, `update_hash_state`
  compresses them into the eight-word hash state;
- `digest` pads the remaining bytes, compresses the last block or two, and returns
  the 32 big-endian bytes of the hash state.

The project is split into three modules:

- `ShaPrimitives` (`sha_primitives.dfy`):
  - words are `bv32` and bytes are `bv8`;
  - it holds the functions `rot_r`, `ch`, `maj`, `b_sigma_0/1` and `l_sigma_0/1`;
  - it holds the tables `INITIAL_HASH_STATE` and `K`, and `BLOCK_SIZE_BYTES`;
  - `Wrapping<u32>` addition is `bv32` addition, which wraps modulo 2^32.
- `ShaSpec` (`sha_spec.dfy`): the functional specification. It contains:
  - big-endian word/byte conversions;
  - the message schedule, the 64 rounds and the compression function;
  - the left fold of compression over whole blocks (`HashBlocks`);
  - two paddings: the one `digest` builds (`PaddingAsWritten`) and the one of
    section 5.1.1 of FIPS 180-4 (`Padding`);
  - the digests built from each padding: `Sha256AsWritten` and `Sha256`.
- `ShaEngine` (`sha_engine.dfy`): the digester as a class.
  - The hash state is a fixed `array<bv32>` that is updated in place.
  - The reading block is a `seq<bv8>` field.
  - The bit count is a `nat` kept below 2^64.
  - The ghost predicate `Valid` ties this state to every byte fed so far. The hash
    state is the fold of the compression function over the complete blocks. The
    reading block holds the rest. The bit count is eight times the number of bytes.
  - Every method is proved against the specification functions. `Digest` returns
    `Sha256AsWritten` of the bytes fed.

## Model

| member | source | states |
|---|---|---|
| ShaPrimitives.RotRIsRotation | src/sha.rs:3-6 | for every amount 1..31, the two shifts of `rot_r` are the circular right rotation ROTR of FIPS 180-4 section 3.2 |
| ShaPrimitives.ChChooses | src/sha.rs:8-10 | `ch` takes the bits of `y` where `x` has a 1 and the bits of `z` where `x` has a 0 |
| ShaPrimitives.MajVotes | src/sha.rs:12-14 | `maj` agrees with `x` and `y` where they agree, and follows `z` where they differ |
| ShaSpec.WordOfBytesInjective | src/sha.rs:94-103 | packing a 4-byte chunk into a word is lossless: the word's big-endian bytes are the chunk |
| ShaSpec.WordBytesDecode | src/sha.rs:162-168 | the four output bytes of a word (shift, truncate to `u8`) read back as the word |
| ShaSpec.WordsToBytesAt | src/sha.rs:162-168 | output bytes `4i..4i+3` are the big-endian bytes of hash word `i` |
| ShaSpec.WordsRoundTrip | src/sha.rs:162-168 | the output serialisation of the hash words is invertible |
| ShaSpec.ScheduleRecurrence | src/sha.rs:94-109 | schedule word `t` is the `t`-th big-endian word of the block for `t < 16`; after that it is the sigma recurrence mod 2^32 |
| ShaSpec.HashBlocksConcat | src/sha.rs:174-182 | hashing a block-aligned message in two pieces equals hashing it whole: where the stream is cut does not matter |
| ShaSpec.HashBlocksAppend | src/sha.rs:177-180 | one more full block costs exactly one more compression |
| ShaSpec.BigEndianRoundTrip | src/sha.rs:156-158 | the `k` big-endian bytes of a number below 256^k decode back to it |
| ShaSpec.BigEndianAt | src/sha.rs:156-158 | byte `i` of `k` big-endian bytes is the number shifted right by the `k-1-i` bytes after it, truncated to 8 bits |
| ShaSpec.LengthBytesAt | src/sha.rs:156-158 | length byte `i` is the bit count shifted right by `(7 - i) * 8` bits and truncated to `u8` |
| ShaSpec.LengthBytesDecode | src/sha.rs:156-158 | the 8-byte length field decodes back to the bit count |
| ShaSpec.ZeroPadAsWritten | src/sha.rs:138-153 | the zero count `digest` inserts after 0x80 makes the message plus length field a whole number of blocks |
| ShaSpec.ZeroPad | src/sha.rs:141 | corrected count: it aligns the message, and no smaller count does |
| ShaSpec.PaddingAsWritten | src/sha.rs:138-158 | the message plus the padding `digest` appends is a whole number of 64-byte blocks |
| ShaSpec.Padding | src/sha.rs:138-158 | the message plus the FIPS 180-4 padding is a whole number of 64-byte blocks |
| ShaSpec.ZeroPadDeviation | src/sha.rs:141 | the two zero counts agree if and only if the length is not 55 mod 64; at 55, `digest` inserts 64 zeros where 0 suffice |
| ShaSpec.PaddingDeviation | src/sha.rs:141-153 | `digest`'s padding equals the FIPS padding if and only if the length is not 55 mod 64 |
| ShaSpec.FinalBlocksAsWritten | src/sha.rs:141-160 | the tail plus the padding spans two blocks (two final compressions) exactly when 56 or more bytes are buffered after 0x80 |
| ShaSpec.PaddedMessagePieces | src/sha.rs:136-160 | the compressed bytes, the reading block and the padding regroup into the one or two blocks `digest` compresses |
| ShaSpec.PaddedMessagePiecesStandard | src/sha.rs:141-160 | the same regrouping for the FIPS padding |
| ShaSpec.PaddingAsWrittenAt55 | src/sha.rs:141 | a 55-byte message is padded to 128 bytes by `digest` and to 64 bytes by FIPS 180-4 |
| ShaSpec.AsWrittenIsSha256 | src/sha.rs:136-171 | `digest`'s result is SHA-256 for every message whose length is not 55 mod 64, and its padding differs exactly at 55 |
| ShaEngine.MessageSchedule | src/sha.rs:94-109 | the array the two loops fill is the message schedule W0..W63 of the block |
| ShaEngine.RunRounds | src/sha.rs:112-123 | the working variables after the loop are the 64 rounds applied to the hash state |
| ShaEngine.Sha256Digestion.constructor | src/sha.rs:70-81 | a new digester is valid, has been fed nothing, and its hash state is H(0) |
| ShaEngine.Sha256Digestion.ValidSplitsFed | src/sha.rs:59-67 | for a valid digester fed `n` bytes, the reading block holds the last `n % 64` bytes, and the hash state is the fold of the compression function over the first `n / 64` blocks |
| ShaEngine.Sha256Digestion.UpdateHashState | src/sha.rs:83-133 | the hash state becomes the compression of the old state with the reading block |
| ShaEngine.Sha256Digestion.CompressBlock | src/sha.rs:159-160 | compress then clear: the block moves to the compressed part, and the hash state stays the fold over the compressed bytes |
| ShaEngine.Sha256Digestion.AddByte | src/sha.rs:174-182 | validity is kept and the byte is appended to the bytes fed; the bit count grows by 8; a completed block is compressed and cleared, otherwise the hash state is unchanged |
| ShaEngine.Sha256Digestion.FillZeros | src/sha.rs:143-145 | the reading block gains exactly enough zero bytes to hold `limit` bytes; nothing else changes |
| ShaEngine.Sha256Digestion.PushLength | src/sha.rs:156-158 | the reading block gains the 8-byte big-endian length field of the bit count |
| ShaEngine.Sha256Digestion.Output | src/sha.rs:162-170 | the 32 output bytes are the big-endian serialisation of the hash state |
| ShaEngine.Sha256Digestion.Digest | src/sha.rs:136-171 | the output is the hash of the bytes fed under `digest`'s own padding |
| ShaEngine.Sha256Digestion.DigestStandard | src/sha.rs:136-171 | with the comparison at line 141 made strict, the output is the FIPS 180-4 SHA-256 of the bytes fed |

## Left out

- `src/main.rs` is not part of this model. It opens the file named on the command line, calls `sha::sha256sum_read` (which `src/sha.rs` does not define) and prints the bytes in hex. File I/O and printing are not modelled.
- The unit test `small_message` (src/sha.rs:194-209) is not evaluated. The model does not compute the hash of "abc" as a constant.
- `ch`, `maj`, `b_sigma_0/1` and `l_sigma_0/1` are transcribed without contracts of their own. Their link to FIPS 180-4 is `RotRIsRotation`, `ChChooses` and `MajVotes`, plus their uses in `ScheduleRecurrence` and `Round`. A lemma restating the four sigmas with `RotateRight` is not included.
- ShaPrimitives.RotR: requires an amount of 1..31. The source asserts only `rot < 32`. A zero amount would shift a `u32` by 32, which Rust rejects as an overflow. Every caller passes a constant between 2 and 25.
- ShaEngine.Sha256Digestion.AddByte: requires the bit count to stay below 2^64. The source's `bit_count += 8` would overflow a `u64` after 2^61 bytes, panicking in debug builds and wrapping in release builds. That case is not modelled.
- ShaEngine.Sha256Digestion.PushLength: computes byte `i` through `LengthBytes`, which divides and reduces modulo 256.
  - Its equality with `bit_count >> ((7 - i) * 8)` truncated to `u8` is stated by `LengthBytesAt`, with the shift written as `ShiftBytes`: repeated shifts by 8 bits.
  - That one shift by `8 s` bits equals `s` shifts by 8 bits is not proved.
- ShaEngine.Sha256Digestion.Output: the four explicit stores per word are modelled as an inner loop over the four bytes.
- `digest` takes `self` by value, so the digester cannot be used again. In the model, `Digest` does not ensure `Valid()`, and `AddByte`, `Digest` and `DigestStandard` all require it, so no call can follow a digest: the missing postcondition is what makes finalisation single-use.
- The `Vec` capacity set in `new` is not modelled. So is the `assert!(chunk.len() == 4)` at src/sha.rs:96, which always holds because the block has exactly 64 bytes.

## Findings

| source | as written | input that shows it | evidently intended | confidence | as-written member | corrected member |
|---|---|---|---|---|---|---|
| src/sha.rs:141 | after 0x80 is pushed, a second block is padded and compressed when the reading block holds 56 or more bytes (`>=`) | any message of length 55 mod 64, e.g. 55 bytes: 0x80 makes 56 bytes, which still leaves room for the 8-byte length, yet a whole block of zeros is inserted and the message is padded to 128 bytes instead of 64 | a second block only when more than 56 bytes are buffered (`>`), which gives the shortest padding of FIPS 180-4 section 5.1.1 | high (not executed) | ShaEngine.Sha256Digestion.Digest, ShaSpec.PaddingDeviation | ShaEngine.Sha256Digestion.DigestStandard |
