# cryptid: a verified model of the number codec

This project models the core of cryptid, a Rust library that turns 64-bit database keys into
opaque, prefixed, integrity-protected text tokens and back. Encoding does these steps:

1. It writes the number little-endian and drops high zero bytes, but keeps at least
   `zero_pad_length` bytes.
2. It encrypts those bytes with length-preserving FF1 and appends the first `hmac_length`
   bytes of an HMAC-SHA256 over the ciphertext.
3. It places this payload in a 16-byte little-endian buffer. When the payload is shorter than
   16 bytes, a sentinel byte `1` follows it.
4. It renders the buffer as base62 behind the prefix `"<name>_"`.

Decoding undoes the steps with ordered, short-circuiting checks: prefix, base62 parse,
sentinel, minimum length, MAC, then decryption.

Modules:

- `Bytes`: the `u8`/`u64`/`u128` ranges and the little-endian conversions `to_le_bytes` and
  `from_le_bytes`, with their inverse laws.
- `Primitives`: FF1, HMAC, HKDF expansion and base62 as function values. Ghost predicates
  state the laws the codec relies on:
  - FF1 preserves length, and decryption inverts encryption.
  - An HMAC tag is 32 bytes.
  - base62 output is alphanumeric and parses back; a string with a character outside the
    alphabet does not parse.
  Witnesses (`IdentitySuite`, `UnaryBase62`, and `RoundTripPreconditionsSatisfiable` in
  `CodecProofs`) show that the laws and the round trip's preconditions can all hold at once.
- `Configuration`: `Config` and its bounds-checked setters (src/config.rs).
- `Codec`: the codec operations of src/codec.rs. Four of them change state step by step in
  the source, so they are methods proved equal to a specification function that the rest of
  the model uses:
  - `last_nonzero` is a reverse scan.
  - `le_vec_to_num` copies into an 8-byte array.
  - `encode_u128` fills a 16-byte array and writes the sentinel.
  - `encrypt_number` copies the ciphertext and the MAC into one fresh buffer.
- `CodecProofs`: the round trip and the length condition it needs, the order of decode's
  checks, prefix isolation, and the two defects listed under Findings.

A decode call returns an `Outcome`: `Ok(n)`, `Err(e)`, or `Panic`. `Panic` is the slice
overrun in `le_vec_to_num`, so that failure is part of the model instead of being assumed
away. Every operation takes the library functions as parameters: a `Codec` holds its keyed
FF1 and HMAC states, and `Encode`/`Decode` take a `Base62` value.

Encoding requires `Encodable`. This means the library laws hold and both lengths are at most 8.
The source guarantees the length bounds by type: `Config`'s fields are crate-private (src/config.rs:9-11);
outside the crate only the checking setters can set them. `BuildValid` proves this bound for every configuration the
setters can reach.

Two behaviours of the source bear on what the model can promise:

- The MAC comparison at src/codec.rs:288 is a plain `!=` on byte slices.
- An FF1 encryption failure is an `expect` at src/codec.rs:262, not an error value, so
  `Error.EncryptionFailed` (src/codec.rs:20) exists but is never produced.

## Model

| member | source | states |
|---|---|---|
| `Configuration.New` | src/config.rs:30-36 | keeps the key, sets both lengths to 4, and the result is within the bounds |
| `Configuration.HmacLength` | src/config.rs:40-47 | fails with `InvalidMacLength` exactly when the value is above 8; otherwise only `hmac_length` changes, to the value |
| `Configuration.ZeroPadLength` | src/config.rs:51-58 | fails with `InvalidZeroPadLength` exactly when the value is above 8; otherwise only `zero_pad_length` changes, to the value |
| `Configuration.BuildValid` | src/config.rs:30-58 | every configuration reachable from `new` through any chain of setters has both lengths at most 8 and the original key |
| `Configuration.BuildFirstError` | src/config.rs:40-58 | a setter chain with `?` fails with the error of its first failing setter |
| `Codec.New` | src/codec.rs:103-118 | the prefix is `"<name>_"`, the lengths come from the configuration, and a valid configuration with lawful libraries gives a valid codec |
| `CodecProofs.LabelsDistinct` | src/codec.rs:107-110 | the FF1 and HMAC labels `"<name>/ff1"` and `"<name>/hmac"` never coincide, and each label determines its codec name |
| `Codec.TopNonzeroIndex` | src/codec.rs:233-235 | the index of the highest non-zero byte: every byte above it is zero, and the byte at it is zero only when all bytes are (then the index is 0) |
| `Codec.LastNonzero` | src/codec.rs:233-235 | the reverse scan returns exactly `TopNonzeroIndex` of its input |
| `Codec.NumToLeVec` | src/codec.rs:239-243 | length is `max(last_nonzero + 1, min_length)`, lies in `[max(1, min_length), 8]`, has no high zero byte beyond that minimum, and reads back as the number |
| `Codec.NumToLeVecFull` | src/codec.rs:239-243 | a number of 2^56 or more keeps all 8 bytes |
| `Codec.LeVecToNum` | src/codec.rs:245-249 | for at most 8 bytes, the copy into the zeroed array reads back as the little-endian value of the bytes |
| `Primitives.TruncatedMac` | src/codec.rs:268 | the first `length` bytes of the 32-byte HMAC tag, so the tag has exactly `length` bytes |
| `Codec.EncryptedPayload` | src/codec.rs:251-275 | the payload is the ciphertext (same length as the plaintext) followed by the truncated MAC of that ciphertext; its length is plaintext length + `hmac_length`, at most 8 + `hmac_length`, and exactly 8 + `hmac_length` when `zero_pad_length` is 8 |
| `Codec.Concat` | src/codec.rs:271-272 | the copy loops leave the first string in the front of the fresh buffer and the second right after it, with nothing else |
| `Codec.EncryptNumber` | src/codec.rs:251-275 | encrypting, truncating the MAC and copying both into the result buffer gives exactly `EncryptedPayload` |
| `Codec.PackedBuffer` | src/codec.rs:160-164 | 16 bytes; bytes `[0, L)` are the payload; if `L < 16` then byte `L` is the sentinel 1, every byte above it is 0, and `last_nonzero` of the buffer is `L` |
| `Codec.PackedValue` | src/codec.rs:165 | the u128 whose 16 little-endian bytes are the packed buffer |
| `Codec.EncodeU128` | src/codec.rs:152-166 | the array fill returns the packed value of the codec's payload; nothing else is written |
| `Codec.Encode` | src/codec.rs:145-148 | the token starts with the prefix, and the rest is alphanumeric and parses back to the packed value |
| `Codec.EncodeUuid` | src/codec.rs:169-174 | with 8 MAC bytes and 8 plaintext bytes, the 16 bytes of the value are exactly the payload, so no sentinel is needed |
| `Codec.RFind` | src/codec.rs:203 | the position found holds the character and no later position does; when there is no result, no position holds it |
| `Codec.ReceivedPrefix` | src/codec.rs:203-206 | the text up to and including the last `_`; it is empty exactly when there is no `_`, and no `_` follows it |
| `Codec.ReceivedPrefixOf` | src/codec.rs:203-206 | a prefix ending in `_` followed by text without `_` is received as exactly that prefix |
| `CodecProofs.ReceivedPrefixNone` | src/codec.rs:391-397 | a token without `_` has the empty received prefix |
| `CodecProofs.ReceivedPrefixBare` | src/codec.rs:399-405 | `_hHLBCl4rZ3u` has the received prefix `"_"` |
| `CodecProofs.ReceivedPrefixWrong` | src/codec.rs:407-413 | `wrong_hHLBCl4rZ3u` has the received prefix `"wrong_"` |
| `CodecProofs.ReceivedPrefixRight` | src/codec.rs:427-428 | `test_hHLBCl+rZ3u` has the received prefix `"test_"` |
| `CodecProofs.EncodeCarriesPrefix` | src/codec.rs:145-148 | the token's received prefix is the codec's own prefix |
| `Codec.DecryptNumber` | src/codec.rs:277-301 | `InvalidDataLength` exactly when the data is shorter than `hmac_length + zero_pad_length`; otherwise `IncorrectMAC` exactly when the last `hmac_length` bytes differ from the truncated MAC of the rest, before any decryption; after both checks, `DecryptionFailed` exactly when FF1 rejects the ciphertext, `Ok` with the little-endian value of the decrypted bytes exactly when there are at most 8 of them, and a panic exactly when there are more |
| `CodecProofs.DecryptNumberInverts` | src/codec.rs:251-301 | decrypting the payload `encrypt_number` made of a number gives the number |
| `Codec.Decode` | src/codec.rs:201-210 | fails with `InvalidPrefix { received, expected: prefix }` exactly when the received prefix is not the codec's prefix |
| `Codec.DecodeBuffer` | src/codec.rs:214-229 | once prefix and parse pass: when `hmac_length + zero_pad_length < 16`, `SentinelMismatch { top byte, 1 }` exactly when the highest non-zero byte is not 1, and otherwise `decrypt_number` of bytes `[0, top)`; else `decrypt_number` of all 16 bytes |
| `CodecProofs.DecodeReachesDecryptNumber` | src/codec.rs:212-229 | for every token with the right prefix: a failed base62 parse gives `DecodingFailed`; a parsed value whose buffer passes the sentinel check is handed to `decrypt_number` as bytes `[0, top)`, or as all 16 bytes when no sentinel is expected |
| `CodecProofs.PrefixTestVectors` | src/codec.rs:391-413 | a `"test_"` codec rejects `hHLBCl4rZ3u`, `_hHLBCl4rZ3u` and `wrong_hHLBCl4rZ3u` with received prefixes `""`, `"_"` and `"wrong_"` |
| `CodecProofs.DecodeRejectsNonAlphanumeric` | src/codec.rs:212-213 | after a correct prefix, digits outside the alphabet give `DecodingFailed` |
| `CodecProofs.InvalidCharacterTestVector` | src/codec.rs:427-428 | the test token `test_hHLBCl+rZ3u` gives `DecodingFailed` |
| `CodecProofs.DecodeSentinelCheck` | src/codec.rs:217-224 | when a sentinel is expected, decode fails with `SentinelMismatch { received: top byte, expected: 1 }` exactly when the highest non-zero byte is not 1 |
| `CodecProofs.DecodeZeroBuffer` | src/codec.rs:217-224 | an all-zero buffer gives `SentinelMismatch { received: 0, expected: 1 }` |
| `CodecProofs.RoundTrip` | src/codec.rs:145-301 | `decode(encode(n)) == Ok(n)` for every u64 under the library laws, when `hmac_length < 8` or `zero_pad_length == 8` |
| `CodecProofs.PackedBufferDecodes` | src/codec.rs:152-166 | after the base62 step, the buffer `encode_u128` packs passes the sentinel check and decrypts to the number, when `hmac_length < 8` or `zero_pad_length == 8` |
| `CodecProofs.ConfigRoundTrip` | src/codec.rs:440-446 | the round trip for every codec built by `Codec::new` from a valid configuration meeting that condition |
| `CodecProofs.TestedConfigurations` | src/codec.rs:309-381 | the tests' configurations (4/4 default, 0/3 and 8/8 through the setters) are reachable and meet the round-trip condition |
| `CodecProofs.PrefixIsolation` | src/codec.rs:201-210 | a token of codec `a` decoded by a same-keyed codec `b` (with `a` not `b`) fails with `InvalidPrefix { received: "a_", expected: "b_" }` |
| `CodecProofs.MissingSentinelBreaksRoundTrip` | src/codec.rs:160-164 | with `hmac_length` 8 and `zero_pad_length` below 8, a number of 2^56 or more fills all 16 bytes and never decodes back to itself |
| `CodecProofs.FullBufferMisdecodes` | src/codec.rs:217-224 | with `hmac_length` 8 and `zero_pad_length` below 8, a full 16-byte buffer read as if it ended in a sentinel can only yield a number below 2^56 |
| `CodecProofs.HmacEightAloneIsAmbiguous` | src/config.rs:40-47 | `Config::new(key).hmac_length(8)` reaches that configuration (zero pad stays 4) |
| `Codec.NewChecked` | src/codec.rs:103-118 | corrected constructor: succeeds exactly when `hmac_length < 8` or `zero_pad_length == 8`, and then equals `Codec::new` |
| `CodecProofs.NewCheckedRoundTrip` | src/codec.rs:145-301 | every codec the corrected constructor builds round-trips every number |
| `CodecProofs.OverlongPayloadPanics` | src/codec.rs:245-249 | with `hmac_length` 0, a token whose buffer holds a 12-byte ciphertext and the sentinel makes decode panic |
| `Codec.DecodeChecked` | src/codec.rs:293-299 | corrected decode: never panics, reports `InvalidDataLength` where decode would panic, and otherwise agrees with it |
| `CodecProofs.DecodeCheckedRoundTrip` | src/codec.rs:145-301 | the corrected decode keeps the round trip |
| `CodecProofs.EmptyCiphertextDecodes` | src/codec.rs:293-296 | in the model, with both lengths 0, the token of the u128 value 1 (only the sentinel) decodes to `Ok(0)`; FF1 rejects that empty ciphertext with `DecryptionFailed` (see Left out) |

## Left out

- HKDF-SHA256 expansion (RFC 5869, section 2.3), FF1 over AES-256 (NIST SP 800-38G) and HMAC-SHA256 (RFC 2104) are foreign crates. They are parameters, and only their laws are modelled, as preconditions.
- FF1's own limits on the numeral-string length are not modelled. Encryption is total, as the `expect` at src/codec.rs:262 assumes; a rejection there would be a panic.
- Decryption is total under the cipher laws as well: a length-preserving injection on the finitely many strings of each length is onto, so `decrypt` never returns `None`. `Error.DecryptionFailed` (src/codec.rs:293-296) is therefore never produced for a lawful cipher, although `DecryptNumber` states exactly when it would be. For example, with both lengths 0 the token `"<name>_"` + base62 of 1 has an empty ciphertext: FF1 rejects it with `DecryptionFailed`, but the model decodes it to `Ok(0)` (`EmptyCiphertextDecodes`).
- Whether the MAC comparison at src/codec.rs:288 takes constant time cannot be expressed.
- The base62 alphabet, its digit arithmetic and its overflow check are not modelled. Only the laws listed above are. `Uuid::from_u128_le` formatting is not modelled either, so `EncodeUuid` yields the packed u128.
- The literal tokens of the tests that come from encoding (for example `encode(0) == "test_g1HdsEGpXp5"` and the MAC failure of `test_hHMBCl4rZ3u`) depend on real FF1 and HMAC outputs. The test `decode("test_1helloall")` depends on them too.
- The test `decode("test_iHLBCl4rZ3u") == SentinelMismatch { received: 2 }` (src/codec.rs:415-421) depends only on base62 digit arithmetic: those digits are a buffer whose highest non-zero byte is 2. The base62 arithmetic is not modelled, but the rule behind the test is: `DecodeSentinelCheck` states the mismatch for any top byte other than 1.
- Tamper sensitivity and key isolation hold only with high probability over the MAC, so they are not provable. With an abstract MAC, a forgery is always possible in the model.
- The `Display` texts of `Error` and the `From<base62::DecodeError>` conversion are cosmetic. Every base62 failure is `DecodingFailed`.
- The global configuration (`Config::set_global`, `Config::global`) is a mutex-guarded global. The unused `ConfigError::InvalidVersion` is not modelled.
- src/field.rs, src/lib.rs and fuzz/fuzz_targets/decode.rs are not part of this model. They are framework glue, re-exports and a fuzz harness.

## Findings

| source | as written | input that shows it | evidently intended | confidence | as-written member | corrected member |
|---|---|---|---|---|---|---|
| src/codec.rs:162-164, 217-224 | a 16-byte payload gets no sentinel, but decode expects one whenever `hmac_length + zero_pad_length < 16`, which holds for MAC length 8 with zero pad below 8 | `Config::new(key).hmac_length(8)` (zero pad 4) and any number of at least 2^56, e.g. `u64::MAX` | every number round-trips, or the configuration is refused when the codec is built | not executed; proved for every lawful cipher, MAC and base62 | `CodecProofs.MissingSentinelBreaksRoundTrip` | `Codec.NewChecked` |
| src/codec.rs:245-249, 293-299 | decode only bounds the payload by the 16-byte buffer, so with a short MAC a ciphertext longer than 8 bytes passes the checks and `le_vec_to_num` slices its 8-byte array out of range | `hmac_length` 0 (as in the tests' 0/3 configuration) and the token `"<name>_"` + base62 of FF1-encrypt(12 zero bytes), then byte 1, then three zeros | an error (`InvalidDataLength`), never a panic | not executed; proved for every lawful cipher and base62 | `CodecProofs.OverlongPayloadPanics` | `Codec.DecodeChecked` |
