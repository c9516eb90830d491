# steam-totp in Dafny

A model of the `steam-totp` Rust crate. The crate generates the five-character
one-time codes of Steam's mobile authenticator. The steps are:

- take the Unix time in 30-second steps;
- write the step as an 8-byte big-endian HOTP counter (section 5.2 of RFC 4226, with the 30-second
  step of section 4 of RFC 6238);
- compute HMAC-SHA1 of the counter, keyed with the base64-decoded shared secret;
- cut the 20-byte digest down to a 31-bit number by dynamic truncation (section 5.3 of RFC 4226);
- write that number as five base-26 digits, least significant first. The digits come from the
  alphabet `23456789BCDFGHJKMNPQRTVWXY`.

Files:

- `steam_totp.dfy` holds module `SteamTotp`, the generator itself, which is all of `src/lib.rs`. It contains:
  - the alphabet `CHARS`;
  - the time step and the counter message;
  - `GetHmac`, the decode-and-key step, as a method that writes the counter through a cursor;
  - `DynamicTruncation`;
  - `EncodeCode`, the five-round encoder, as a method with a loop;
  - the entry points `GenerateAuthCodeForTime` and `GenerateAuthCode`;
  - `AuthCode`, the function that specifies them.
- `byte_order.dfy` holds module `ByteOrder`. It covers the byte and `u32` types, big-endian
  encoding and decoding, `read_u32::<BigEndian>`, and a `Cursor` class. The cursor writes 32-bit
  big-endian words into a zero-filled byte array.
- `arith.dfy` holds module `Arith`: powers, and lemmas on splitting a division or remainder by a
  product.
- `wrappers.dfy` holds module `Wrappers`: `Option` and `Result`.

HMAC-SHA1 and base64 decoding are library code. They enter the model as the two fields of a
`Primitives` value:

- a total function from key and message bytes to a 20-byte `Digest`;
- a partial decoder from text to bytes, which gives `None` on malformed input.

Every result holds for every choice of these two functions. The model is a set of functions of
(primitives, secret, time), so a code is determined by its inputs. The time is a parameter.

## Model

| member | source | states |
|---|---|---|
| SteamTotp.AlphabetDistinct | src/lib.rs:8-9 | the alphabet has 26 pairwise distinct symbols, so `n % 26` always indexes it and each symbol stands for one digit |
| SteamTotp.NoLookAlikes | src/lib.rs:8-9 | the look-alikes 0, 1, A, E, I, L, O, S, U, Z are not code symbols |
| SteamTotp.TimeStep | src/lib.rs:56 | the step is the floor of time / 30: `30·step <= time < 30·step + 30` |
| SteamTotp.CounterBytesLayout | src/lib.rs:53-58 | the counter message has bytes 0-3 zero and bytes 4-7 the big-endian time step; read as a 64-bit big-endian number it is `time / 30` |
| SteamTotp.CounterBytesSameStep | src/lib.rs:56 | two times give the same counter message if and only if they have the same `time / 30` |
| SteamTotp.StepBoundary | src/lib.rs:56 | times `30k - 1` and `30k` give different counter messages |
| SteamTotp.KnownVectorCounter | src/lib.rs:77 | at time 1634603498 the counter message is `00 00 00 00 03 3F 66 FF` (step 54486783) |
| SteamTotp.GetHmac | src/lib.rs:48-63 | a secret that does not decode gives InvalidSecret; otherwise the context is keyed with the decoded bytes and has been fed exactly the counter message; both `?` write paths are unreachable |
| ByteOrder.Cursor.constructor | src/lib.rs:53 | the cursor starts at position 0 over `len` zero bytes |
| ByteOrder.Cursor.WriteU32 | src/lib.rs:55-56 | a write stores the 4 big-endian bytes of the word at the position and advances it by 4, leaving other bytes alone; if the word does not fit it fails with WriteZero and changes nothing |
| ByteOrder.ReadU32 | src/lib.rs:25 | reading succeeds if and only if at least 4 bytes remain; the word read is the one whose big-endian encoding is those 4 bytes; otherwise UnexpectedEof |
| ByteOrder.FromToBigEndian | src/lib.rs:55-56 | decoding an n-byte big-endian encoding of v gives `v mod 256^n` |
| ByteOrder.ToFromBigEndian | src/lib.rs:25 | re-encoding the value of a byte string gives the byte string back |
| ByteOrder.ToBigEndianWiden | src/lib.rs:55-56 | a value below 256^n, encoded in m + n bytes, is m zero bytes followed by its n-byte encoding |
| ByteOrder.FromBigEndian4 | src/lib.rs:25 | four bytes denote `b0·2^24 + b1·2^16 + b2·2^8 + b3` |
| SteamTotp.LowNibble | src/lib.rs:22 | `b & 0x0F` is below 16 and equals `b mod 16` |
| SteamTotp.ClearTopBit | src/lib.rs:27 | `b & 0x7F` is below 128 and equals `b mod 128` |
| SteamTotp.Mask31 | src/lib.rs:27 | masking a word with `0x7FFFFFFF` gives a value below 2^31; its big-endian bytes are the word's bytes with the first byte's top bit cleared |
| SteamTotp.MaskedWord | src/lib.rs:25-27 | the masked word read from 4 bytes is `(b0 & 0x7F)·2^24 + b1·2^16 + b2·2^8 + b3` |
| SteamTotp.DynamicTruncation | src/lib.rs:21-27 | for every digest, the offset `d[19] & 0x0F` leaves the 4-byte window inside the digest; the u8 sum cannot overflow; the read cannot fail; the result is below 2^31 and equals `(d[o] & 0x7F)·2^24 + d[o+1]·2^16 + d[o+2]·2^8 + d[o+3]` |
| SteamTotp.EncodeBase26 | src/lib.rs:30-36 | an encoding in r rounds has exactly r symbols, all in the alphabet (stated for any 26-symbol alphabet; the crate uses `CHARS`) |
| SteamTotp.EncodeBase26At | src/lib.rs:30-36 | the k-th symbol (0-based) is `alphabet[(n / 26^k) % 26]` |
| SteamTotp.DecodeEncode | src/lib.rs:30-36 | for an alphabet of distinct symbols, reading the symbols back as base-26 digits, least significant first, gives `n mod 26^rounds` |
| SteamTotp.EncodeDecode | src/lib.rs:30-36 | every string over the alphabet is the encoding of its own base-26 value |
| SteamTotp.SameCode | src/lib.rs:30-36 | two numbers get the same 5-symbol code if and only if they agree modulo 26^5 |
| SteamTotp.EncodeCode | src/lib.rs:29-36 | the five-round loop emits exactly the base-26 encoding of the truncated value; it has 5 symbols, and symbol k is `CHARS[(n / 26^k) % 26]` |
| SteamTotp.AuthCode | src/lib.rs:18-39 | the result is an error if and only if the secret does not decode, and that error is InvalidSecret; otherwise it is a 5-symbol code over the alphabet |
| SteamTotp.GenerateAuthCodeForTime | src/lib.rs:18-39 | the method computes `AuthCode`: it fails exactly on an undecodable secret and otherwise returns a 5-symbol code over the alphabet; the `?` after the read is unreachable |
| SteamTotp.GenerateAuthCode | src/lib.rs:14-16 | the code at a caller-supplied current time is the code for that explicit time |
| SteamTotp.SameStepSameCode | src/lib.rs:56 | two times with the same `time / 30` give the same result for the same secret |
| SteamTotp.KnownCode | src/lib.rs:80 | 230750 is written `2C5H2` |
| SteamTotp.KnownVector | src/lib.rs:74-81 | for the test secret at time 1634603498, the code is `2C5H2` if and only if the truncated HMAC-SHA1 of counter `00 00 00 00 03 3F 66 FF` is 230750 modulo 26^5 |

## Left out

- `current_time` (src/lib.rs:41-46) reads the wall clock. It casts a `u64` of seconds to `u32`,
  which truncates, and it panics on a clock set before the epoch. The model has no clock:
  `GenerateAuthCode` takes the current time as a `u32` parameter.
- The internals of HMAC-SHA1 (`new_from_slice`, `update`, `finalize`) and of base64 decoding are
  foreign library code. They are the two fields of `Primitives`. Keying a context never fails,
  because HMAC accepts keys of any length, so there is no error path for key setup.
- An undecodable secret makes the source panic, through `expect`. The model returns
  `Err(InvalidSecret)` instead, and no code is produced on either side.
- The source buffer is a `Cursor` over a `Vec<u8>`. Such a cursor grows the vector when a write
  goes past its end. `ByteOrder.Cursor` instead holds a fixed array and reports `WriteZero`. The
  two writes always fit in the 8 bytes, so neither growth nor failure ever happens. A failed write
  in the model changes nothing. Partial writes are not modelled.
- `&` on integers is modelled by `Arith.BitAnd`, a bit-by-bit AND on natural numbers. The lemma
  `BitAndLowMask` connects a low mask to a remainder, so `LowNibble`, `ClearTopBit` and `Mask31`
  are stated both ways. Rust's fixed-width bit patterns are not used directly.
- KnownVector: the test vector `2C5H2` is stated only as an equivalence on the abstract HMAC's
  output, because SHA-1 is not modelled. The concrete digest is not computed.
- The `time_works` test depends on the real clock and is not modelled.
