# A verified model of the beevik/ntp client core

This project models, in Dafny, the three self-contained parts of the Go NTP
client `beevik/ntp`:

- **Symmetric-key authentication** (`auth.go`). This covers:
  - the algorithm table;
  - the decoding of the configured key (`decodeAuthKey`);
  - the MAC trailer that `appendMAC` writes and `verifyMAC` checks (the MAC field of section 7.3 of RFC 5905);
  - AES-CMAC (RFC 4493) as `calcCMAC_AES` computes it, with `double`, `xor` and `pad`.
- **The NTP header and time codec** (`ntp.go`). This covers:
  - the mode numbers;
  - the 32.32 fixed-point timestamp with its 1900 epoch (`toNtpTime`, `ntpTime.UTC`);
  - the 48-byte `msg` header and its big-endian serialisation;
  - the leap/version/mode setters;
  - the request that `getTime` builds;
  - the clock offset of section 5 of RFC 2030 (`offset`).
- **Kiss-o'-Death codes** (`kod.go`, section 7.4 of RFC 5905): `stringToUint32` and the fourteen-entry `kodErrorMap`.

The model is split into modules:

| file | module | models |
|---|---|---|
| `wrappers.dfy` | `Wrappers` | the `Option` and `Result` types |
| `wire.dfy` | `Wire` | bytes, `uint16`/`uint32`, and the big-endian codec of `encoding/binary` |
| `hex.dfy` | `Hex` | `hex.DecodeString`, plus an encoder it is proved to invert |
| `cmac.dfy` | `Cmac` | `xor`, `double`, `pad` and `calcCMAC_AES`, with RFC 4493 written out as a reference |
| `auth.dfy` | `Auth` | the algorithm table, `decodeAuthKey`, `appendMAC` and `verifyMAC` |
| `kod.dfy` | `Kod` | `stringToUint32` and `kodErrorMap` |
| `ntp.dfy` | `Ntp` | `mode`, `ntpTime`, `msg` and its setters, the request, and `offset` |

How Go code is rendered:

- Code that changes state in place is imperative Dafny:
  - `xor` and `double` write into `array<byte>`;
  - `calcCMAC_AES` keeps its `k1`, `k2` and `cmac` buffers as arrays and runs the source's loop;
  - `appendMAC` appends to a `Buffer` object;
  - the `msg` setters update the fields of a `Msg` object.
- Each of these methods is proved against a pure function, and the properties are proved about that function.
- The rest is pure functions and lemmas.

Other modelling choices:

- The hash functions and the AES block cipher are parameters. The only thing known about them is the length of what they return.
- An instant is an integer count of nanoseconds since the Unix epoch.
- The clock that gives "now" is a parameter.
- Go's fixed-width arithmetic is written out wherever it can matter, with Go's `int` taken as 64 bits wide:
  - the `uint32` conversion of the NTP seconds wraps modulo 2^32;
  - `offset` wraps its `int64` subtractions and divides with truncation toward zero;
  - the `uint64` and `time.Duration` steps of `UTC` are proved never to overflow.

Rounding, the request and versions:

- `toNtpTime` and `UTC` round down.
- The request carries leap indicator 0, and its transmit timestamp is the current time.
- A version outside 2..4 makes `getTime` panic, so it is a precondition here.

## Model

| member | source | states |
|---|---|---|
| `Wire.Uint32Bytes` | auth.go:182 | `PutUint32` writes four bytes whose big-endian value is the integer. |
| `Wire.Uint32Of` | auth.go:201 | The integer `Uint32` reads from four bytes is the one whose big-endian bytes they are. |
| `Wire.Uint32RoundTrip` | auth.go:118-121 | Reading back the big-endian bytes of a 32-bit integer gives the integer. |
| `Wire.Uint32BytesInjective` | auth.go:182 | Different 32-bit integers have different big-endian encodings. |
| `Hex.FromHexChar` | auth.go:159 | A byte has a digit value exactly when it is `0-9`, `a-f` or `A-F`. The value is below 16, and its lower-case hex digit is the byte in lower case, so `A-F` are worth 10-15 like `a-f`. |
| `Hex.FromHexCharLower` | auth.go:159 | A digit and its lower-case form have the same value. |
| `Hex.HexDecodeLower` | auth.go:159 | A key string and its lower-case form decode to the same bytes, or both fail. |
| `Hex.HexDecode` | auth.go:159 | A successful decoding has half as many bytes as the string has characters. |
| `Hex.HexDecodeSucceeds` | auth.go:157-162 | Decoding succeeds exactly on strings of even length made only of hex digits. |
| `Hex.HexDecodeBytes` | auth.go:159 | Byte `i` of a decoding is the high nibble from character `2i` joined with the low nibble from character `2i+1`. |
| `Hex.HexRoundTrip` | auth.go:159 | Decoding the lower-case hex spelling of any bytes gives those bytes back. |
| `Cmac.Pad` | auth.go:110-114 | A short block keeps its bytes, gets `0x80` after them, and zeros up to 16 bytes. |
| `Cmac.PadInjective` | auth.go:110-114 | Different short blocks pad to different blocks. |
| `Cmac.XorBlock` | auth.go:136-153 | Mixing the second block into the result a second time gives the first block back. |
| `Cmac.XorWords` | auth.go:136-153 | The four 32-bit words of `xor` (bytes read big-endian, combined with exclusive or) are, written back, the byte-wise exclusive or of the two blocks. |
| `Cmac.DoubleWords` | auth.go:116-134 | The four words of `double`, written back, are the RFC 4493 doubling of the block: every byte shifted left one bit, carrying in the top bit of the next byte, and `rb` xored into the last byte exactly when the top bit of the block was set. |
| `Cmac.ShiftedValue` | auth.go:118-126 | Shifting a big-endian byte string left by one bit, each byte taking the top bit of the next, doubles its value modulo its range. |
| `Cmac.TopBitOfBlock` | auth.go:123 | The top bit of a block is set exactly when its value as a 128-bit integer is at least 2^127. |
| `Cmac.DoubleIsShift` | auth.go:116-134 | Without `rb`, the doubled block's value is twice the block's value modulo 2^128. `rb` is xored into the last byte exactly when the value was at least 2^127. |
| `Cmac.WordCarry` | auth.go:123 | The carry `s0 >> 31` is the top bit of the block's first byte. |
| `Cmac.Xor` | auth.go:136-153 | `xor` replaces the first 16 bytes of `dst` by their exclusive or with those of `src` and changes nothing else. |
| `Cmac.Double` | auth.go:116-134 | `double` replaces the first 16 bytes of `dst` by the doubling of the old first 16 bytes of `src`, even when `dst` and `src` are the same array. |
| `Cmac.EncryptInPlace` | auth.go:105 | `c.Encrypt(cmac, cmac)` replaces the block by its encryption. |
| `Cmac.CalcCmacAes` | auth.go:74-108 | For keys of 16, 24 or 32 bytes, the loop over the payload returns the AES-CMAC of RFC 4493 under the given cipher. |
| `Cmac.BlockCount` | auth.go:92-104 | The number of blocks is at least one. A non-empty message fits in that many blocks but not in one fewer, and an empty message takes one block. |
| `Cmac.ChainIsRfc4493` | auth.go:90-107 | From any chaining value, the source's block loop equals the RFC 4493 CBC-MAC over the first n-1 blocks, followed by the last block. That last block is mixed with K1 when it is complete, and padded and mixed with K2 otherwise. |
| `Cmac.MacIsRfc4493` | auth.go:82-107 | With subkeys K1 = double(AES(0)) and K2 = double(K1), the source's tag is the RFC 4493 tag. |
| `Auth.AlgorithmOf` | auth.go:40-52 | In every row of `algorithms` the minimum key size is at most the maximum, which is at most 32; only `AuthNone` has a zero digest size; the others need keys of at least 4 bytes and give digests of exactly 16 or 20 bytes. |
| `Auth.KeyBytes` | auth.go:156-165 | A key of at most 20 characters is taken as it is; a longer one that decodes gives half as many bytes. |
| `Auth.DecodeAuthKey` | auth.go:155-176 | An accepted key lies between the algorithm's minimum and maximum sizes, and every failure is `ErrInvalidAuthKey`. |
| `Auth.CalcDigest` | auth.go:54-72 | The digest is 16 bytes for MD5 and CMAC, and 20 for SHA1 and for the cut SHA256 and SHA512. |
| `Auth.DecodeAuthKeyResult` | auth.go:155-176 | A key is accepted exactly when it decodes and has at least the minimum size, and the accepted key is the decoded key cut to the maximum. |
| `Auth.DecodeAuthKeyRejectsBadHex` | auth.go:157-162 | A key string longer than 20 characters that has odd length or a non-hex character is rejected. |
| `Auth.DecodeAuthKeyHex` | auth.go:157-159 | A longer key string of hex digits is decoded into half as many bytes. |
| `Auth.DecodeAuthKeyRejectsEmpty` | auth.go:167-170 | An empty key is rejected by every algorithm except `AuthNone`, whose minimum size of 0 lets it through. |
| `Auth.DecodeAuthKeyAesTruncates` | auth.go:171-175 | A 40-digit hex AES key is accepted as the first 16 of its 20 decoded bytes. |
| `Auth.DecodedKeyFits` | auth.go:46-51 | Every accepted AES key has a length the block cipher takes, so the digest never panics on it. |
| `Auth.MacTrailer` | auth.go:178-184 | The trailer is 4 + digest-size bytes long. |
| `Auth.KeyIdBytes` | auth.go:182 | The 16-bit key id, written as a `uint32`, has two zero leading bytes. |
| `Auth.Buffer.Write` | auth.go:182-183 | Writing to the buffer appends the data after the existing contents. |
| `Auth.AppendMAC` | auth.go:178-184 | The old contents are kept, followed by the big-endian key id and the digest of the old contents. |
| `Auth.MacLen` | auth.go:191 | The trailer holds at least the 4-byte key id. |
| `Auth.VerifyMAC` | auth.go:186-214 | Every failure is `ErrAuthFailed`, and a message passes only if it has room for a MAC and its trailer carries the expected key id. The digest function is needed only once both checks have passed. |
| `Auth.VerifyMACNeedsRoom` | auth.go:189-195 | If the bytes after the 48-byte header number fewer than 4 + digest-size, or are not a multiple of 4, the check fails, for every algorithm including `AuthNone`. |
| `Auth.VerifyMACPasses` | auth.go:186-214 | A message passes exactly when it has room for a MAC and ends with the trailer `appendMAC` writes for the bytes before it. |
| `Auth.AppendThenVerify` | auth.go:178-214 | A header followed by whole words, once `appendMAC` has added its trailer, passes `verifyMAC` with the same options, when the payload is read as bytes of its own. |
| `Auth.TrailerParts` | auth.go:199-201 | In a message `appendMAC` completed, the payload is the bytes before the trailer, the trailer is the key id and the digest, and the key id reads back. |
| `Auth.VerifyMACOtherKeyId` | auth.go:197-204 | The same trailer checked under a different key id fails. |
| `Auth.PadSpill` | auth.go:92-114 | `pad` writes past the payload exactly when the algorithm is AES128 and the last block is short (an empty payload counts as short). It writes 16 - (length mod 16) bytes: `0x80`, then zeros. |
| `Auth.VerifyMACInPlace` | auth.go:186-214 | As written, where `pad` has overwritten the start of the trailer before the compare: every failure is `ErrAuthFailed`, and a pass needs room for a MAC and the expected key id. |
| `Auth.SpillOverDigest` | auth.go:110-114 | A trailer whose first bytes are overwritten by `0x80` and zeros still shows the digest exactly when the digest starts with as many zeros as the overwrite reaches into it. |
| `Auth.InPlaceVerdict` | auth.go:207-209 | Past the length and key id checks, the verdict as written is the compare of the digest with the overwritten trailer. |
| `Auth.AppendThenVerifyInPlace` | auth.go:178-214 | As written, a request's own trailer passes exactly when its digest starts with as many zero bytes as `pad` overwrote past the key id: 8 for an AES128 payload of length 4 mod 16, 4 for 8 mod 16, none otherwise. |
| `Auth.AppendThenVerifyInPlacePasses` | auth.go:178-214 | As written, a request's own trailer passes for every algorithm but AES128, and for AES128 when the payload length is not 4 or 8 mod 16. |
| `Auth.InPlaceRejectsOwnTrailer` | auth.go:110-114 | A 52-byte AES128 request with its own trailer passes when the payload is read as its own bytes, but is rejected as written. |
| `Kod.StringToUint32` | kod.go:73-75 | The four base-256 digits of the packed value are the code's four characters, first one most significant. |
| `Kod.PackedBytes` | kod.go:73-75 | The packed value is the big-endian word of the code's four bytes, so the shifted bytes never overlap and `+` acts as bitwise or. |
| `Kod.StringToUint32Injective` | kod.go:73-75 | Two four-character codes pack to the same value only if they are equal. |
| `Kod.TableKeyValues` | kod_test.go:10-23 | The fourteen codes pack to the golden values of the test. |
| `Kod.TableLiteral` | kod.go:55-70 | The map sends each golden packed code to its own error. |
| `Kod.CodesCard` | kod_test.go:10-23 | The fourteen golden codes are all different. |
| `Kod.TableKeys` | kod.go:55-70 | The map has exactly the fourteen golden keys, so any other code has no entry. |
| `Kod.TableInverse` | kod_test.go:26-30 | Every error is found under its own code, and every entry leads back to its key. |
| `Kod.TableIsOneToOne` | kod.go:55-70 | Different codes map to different errors. |
| `Ntp.ModeByte` | ntp.go:19-30 | Every mode number fits in the three mode bits. |
| `Ntp.FirstByteFields` | ntp.go:52 | The leap, version and mode bits make up the first byte. |
| `Ntp.WithVersion` | ntp.go:66-68 | `SetVersion` always keeps the mode bits; a version below 8 lands in bits 3-5 and the leap bits are kept. |
| `Ntp.WithMode` | ntp.go:71-73 | `SetMode` puts the mode in bits 0-2, where it reads back as the same mode, and keeps the leap and version bits. |
| `Ntp.WideVersionReachesLeap` | ntp.go:66-68 | `SetVersion` does not mask its argument, so version 8 sets a leap bit. |
| `Ntp.Uint32Wrap` | ntp.go:43 | The `uint32` conversion keeps the value modulo 2^32. |
| `Ntp.NanosToFraction` | ntp.go:44-47 | The fraction is the largest 2^-32 s count not exceeding the nanoseconds, and it fits in 32 bits. |
| `Ntp.FractionToNanos` | ntp.go:38 | The nanoseconds of a fraction are the largest whole count not exceeding it, and less than a second. |
| `Ntp.NanosRoundTrip` | ntp.go:38-47 | Nanoseconds taken to a fraction and back are never more, and at most 1 ns less. |
| `Ntp.FractionRoundTrip` | ntp.go:38-47 | A fraction taken to nanoseconds and back is never more, and at most 5 units less. |
| `Ntp.ToNtpTime` | ntp.go:42-49 | The seconds are the whole Unix seconds plus 2208988800, modulo 2^32 (exactly so in the first era). The fraction is the largest count of 2^-32 s not exceeding the nanoseconds within the second. |
| `Ntp.ToNtpTimeEra` | ntp.go:42-49 | Instants 2^32 seconds apart give the same timestamp. |
| `Ntp.Utc` | ntp.go:37-40 | Every timestamp stands for an instant between 1900 and 2^32 seconds later. |
| `Ntp.UtcNoOverflow` | ntp.go:37-40 | The `uint64` products and sum, and the conversion to `time.Duration`, do not overflow. |
| `Ntp.UtcSplit` | ntp.go:37-40 | The instant's whole seconds are the NTP seconds less 2208988800, and the sub-second part is the fraction's nanoseconds, below 10^9. |
| `Ntp.NtpTimeRoundTrip` | ntp.go:37-49 | A timestamp taken to an instant and back keeps its seconds, and loses at most 5 fraction units. |
| `Ntp.InstantRoundTrip` | ntp.go:37-49 | An instant of the first era taken to a timestamp and back is at most 1 ns earlier. |
| `Ntp.Encode` | ntp.go:51-63 | The header is written as exactly 48 bytes. |
| `Ntp.WordsRoundTrip` | ntp.go:104 | Reading back a run of big-endian words gives the words. |
| `Ntp.BytesRoundTripWords` | ntp.go:109 | Writing the words read from bytes gives the bytes. |
| `Ntp.Decode` | ntp.go:104-109 | Reading fails exactly when fewer than 48 bytes arrive; a header read from at least 48 bytes, written again, gives the first 48 bytes. |
| `Ntp.DecodeEncode` | ntp.go:104-109 | Reading back a written header gives the header. |
| `Ntp.Msg.constructor` | ntp.go:99 | `new(msg)` is the all-zero header. |
| `Ntp.Msg.SetVersion` | ntp.go:66-68 | Only the first byte changes, by the version setter's mask and shift. |
| `Ntp.Msg.SetMode` | ntp.go:71-73 | Only the first byte changes, by the mode setter's mask and or. |
| `Ntp.Msg.SetTransmitTime` | ntp.go:76-78 | Only the transmit timestamp changes; it becomes the timestamp of the instant. |
| `Ntp.NewRequest` | ntp.go:83-102 | For versions 2 to 4, the steps of `getTime` build the request header. |
| `Ntp.Request` | ntp.go:99-102 | The request's first byte is `version << 3` or-ed with 3 and reads as client mode; for a version below 8 its leap bits are 0 and its version bits the version. The transmit timestamp is that of now, and every other field is zero. |
| `Ntp.RequestBytes` | ntp.go:99-104 | On the wire a request is its first byte, 39 zero bytes, then the transmit seconds and fraction. |
| `Ntp.Wrap64` | ntp.go:152 | An `int64` operation keeps its exact value modulo 2^64. |
| `Ntp.Half` | ntp.go:152 | Dividing by two rounds toward zero, for negative sums too. |
| `Ntp.HalfNegate` | ntp.go:152 | Halving a negated number gives the negated half. |
| `Ntp.Offset` | ntp.go:146-154 | When neither difference nor their sum overflows, the offset is ((t2-t1) + (t3-t4)) / 2, rounded toward zero. |
| `Ntp.OffsetNearEpoch` | ntp.go:146-154 | Instants within 2^61 ns of the Unix epoch never overflow the computation. |
| `Ntp.OffsetAntisymmetric` | ntp.go:146-154 | Swapping the client's and the server's timestamps negates the offset. |
| `Ntp.OffsetPositiveExample` | ntp_test.go:217-231 | T2 = T1+20s, T3 = T1+21s and T4 = T1+5s give an offset of 18 s. |
| `Ntp.OffsetNegativeExample` | ntp_test.go:233-246 | Instants 101 s, 102 s, 103 s and 105 s after a time give an offset of -0.5 s. |
| `Ntp.OffsetRoundsTowardZero` | ntp.go:152 | A sum of -1 ns gives an offset of 0. |
| `Ntp.UtcNearEpoch` | ntp.go:141 | The instants of timestamps are near the epoch, so offsets of decoded timestamps never overflow. |

## Left out

- Network I/O in `getTime` is not modelled. This covers address resolution, dialling, deadlines, the socket write and read, and the debug print. Only the request building and the byte layout it sends and reads are modelled.
- `TimeV`, `Time` and `Offset` are not modelled. They only call `getTime`, read the clock and convert to local time.
- The MD5, SHA1, SHA256 and SHA512 digests and the AES block cipher are parameters. Only their output lengths are known. As a result, the RFC 4493 and NIST test vectors cannot be checked.
- `calcCMAC_AES` panics when `aes.NewCipher` rejects a key that is not 16, 24 or 32 bytes long (auth.go:77-80). That panic is a precondition (`Auth.KeyFits`).
- The timing behaviour of `subtle.ConstantTimeCompare` and `subtle.ConstantTimeSelect` is not modelled. They are plain equality and selection here.
- `append` sharing spare capacity with its argument is modelled only where `pad` writes into the trailer during `verifyMAC` (see Findings). Everywhere else every byte slice is a fresh sequence.
- `Auth.VerifyMACInPlace` models the verdict of `verifyMAC` after `pad` has written into the received trailer, not the change to the caller's buffer that this write leaves behind. The rest of the model uses `Auth.VerifyMAC`, which reads the payload as bytes of its own.
- `Auth.AppendMAC` and `Auth.CalcDigest` require an algorithm other than `AuthNone`, because the source would call the table's nil digest function and panic. `Auth.VerifyMAC` requires it, and an AES key that fits, only when the length and key id checks pass and the digest is reached. Before that the source returns `ErrAuthFailed` (auth.go:193-204).
- `Ntp.Mode` and `Auth.AuthType` are closed datatypes. Go's `mode` is a byte, and `SetMode(mode(8))` would set a version bit (ntp.go:19, 72). Go's `AuthType` is an `int`, and a value outside 0..5 panics at `algorithms[opt.Type]` (auth.go:167, 179, 190).
- `Cmac.Double` takes its `rb` constant as a byte. The source takes an `int` and converts it to `uint32`, and its only caller passes 0x87, which fits.
- `Ntp.NewRequest` requires a version from 2 to 4, because `getTime` panics on any other version.
- `Ntp.NanosToFraction`, `Ntp.ToNtpTime` and `Ntp.Offset` take Go's `int` to be 64 bits wide. On a platform with a 32-bit `int`, `t.Nanosecond() << 32` (ntp.go:44) would be 0, so every fraction would be 0, and `int(offset)` (ntp.go:153) would truncate the 64-bit offset; neither is modelled.
- `Ntp.Offset` takes the four `UnixNano` values. `UnixNano` of a `time.Time` outside the years 1678-2262 is undefined in Go.
- `Kod.StringToUint32` takes a string whose first four characters are below 256. Go indexes the bytes of the UTF-8 encoding instead.
- The key of `AuthOptions` is the bytes of the Go string.
- The texts of the Kiss-o'-Death errors ("KOD ACST", ...) appear as the constructor names of `Kod.KodError`.
- `ErrInvalidAuthKey` and `ErrAuthFailed` are not defined in `auth.go`. They are the two constructors of `Auth.AuthError`.
- Only the offset examples of `ntp_test.go` are modelled. Its other tests exercise another revision of `ntp.go` (`parseTime`, `Validate`, short timestamps, a 64-bit `ntpTime`).

## Findings

| source | as written | input that shows it | evidently intended | confidence | as-written member | corrected member |
|---|---|---|---|---|---|---|
| auth.go:110-114, 207-209 | `verifyMAC` digests `buf[:payloadLen]`, whose spare capacity is the received trailer. `pad` extends a short last block with `append`, which writes `0x80` and zeros into that trailer before `mac[4:]` is compared. An AES128 payload of length 4 mod 16 loses 8 digest bytes this way, and one of 8 mod 16 loses 4. | a 52-byte AES128 request carrying the trailer `appendMAC` wrote for it, under a cipher whose CMAC has no leading zero bytes | a message carrying its own correct trailer passes | high; not executed | `Auth.InPlaceRejectsOwnTrailer` | `Auth.AppendThenVerify` |
