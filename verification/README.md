# jwks-keyfunc in Dafny

This project models the key-resolution path of `jwks-keyfunc`, a small Go package.
The package turns a JSON Web Key Set into RSA public keys and resolves the key that a
signed token's header names. The model has three layers, one module each:

- `Base64Url` (keyfunc.go) models `componentToBase64`. It trims trailing `=` from a key
  component, then decodes the rest with Go's non-strict unpadded base64url decoder.
  The decoder uses the alphabet of section 5 of RFC 4648. It skips `\r` and `\n`. It
  reports a `CorruptInputError` at the offending offset. It ignores the unused low bits
  of a final group. An unpadded encoder, `Encode`, serves as the reference the decoder
  is proved against.
- `BigEndian` and `Rsa` (rsa.go) model `JWK.RSA`. It checks that both components are
  present, decodes the exponent and then the modulus, and reads the bytes as big-endian
  unsigned integers. The exponent is then narrowed as `int(...Uint64())` does on a
  64-bit platform.
- `Jwks` (jwks.go) models the rest. The build loop dispatches on `kty`, fails on the
  first bad record, and stores entries by `kid`, so the last duplicate wins. `KeyFunc`
  validates `kid` and `alg` in a fixed order. `getPublicKey` looks the key up and
  applies the algorithm pin; an empty pin accepts any algorithm.

`Errors` mirrors the sentinel errors of erx.go as one datatype. `Scenarios` works through
concrete key sets.

Behaviours of the code worth knowing:
- The presence check looks at the component before padding is trimmed. A component
  spelled `=` is therefore "present" and converts to 0.
- The exported constructor returns no store on success (see Findings).
- A decoding failure is the decoder's `CorruptInputError`, which carries an offset.
- An exponent that does not fit a 64-bit `int` is wrapped silently.

## Model

| member | source | states |
|---|---|---|
| Base64Url.TrimPadding | keyfunc.go:9 | the result is the longest prefix not ending in `=`; every dropped character is `=` |
| Base64Url.FirstInvalid | keyfunc.go:11 | finds the first character the decoder rejects, with every earlier character accepted; none exists exactly when all characters are accepted |
| Base64Url.DataChars | keyfunc.go:11 | the characters the decoder reads; without line breaks this is the whole input, and they are all alphabet characters when nothing is rejected |
| Base64Url.DataCharsAppend | keyfunc.go:11 | the data characters of a concatenation are those of its parts, in order |
| Base64Url.DataCharsSkipsLineBreaks | keyfunc.go:11 | a `\r` or `\n` anywhere is dropped, and any other character is kept in its place |
| Base64Url.SextetOf | keyfunc.go:11 | the value of an alphabet character; `CharOf` and `CharOfSextetOf` make it a bijection onto 0..63 |
| Base64Url.CharOfSextetOf | keyfunc.go:11 | each alphabet character is the character of its own value, so no two characters share a value |
| Base64Url.DecodeData | keyfunc.go:11 | the decoder's group loop: the bytes hold all the characters' 6-bit values but for fewer than eight left-over bits; `DecodeDataSplit` and `DecodeDataEncode` give the contents |
| Base64Url.DecodeGroup | keyfunc.go:11 | a group of two, three or four data characters yields one byte fewer than it has characters |
| Base64Url.DecodeDataLength | keyfunc.go:11 | four data characters give three bytes, so n characters give (6 * n) / 8 bytes |
| Base64Url.CharOf | keyfunc.go:11 | the alphabet character of a value is an alphabet character whose value it is |
| Base64Url.Decode | keyfunc.go:11 | succeeds exactly when every character is accepted and the data-character count is not 1 mod 4; success has (6 * count) / 8 bytes; a failure is a CorruptInput at the first rejected character, or at the last offset when every character is accepted but one data character is left over |
| Base64Url.ComponentToBytes | keyfunc.go:8-12 | decoding after trimming: succeeds exactly when the trimmed component has only accepted characters and its data-character count is not 1 mod 4; its length follows the trimmed data characters; an error is at the trimmed component's first rejected character, or its last offset |
| Base64Url.EncodeGroup | keyfunc.go:11 | three bytes become four alphabet characters |
| Base64Url.Encode | keyfunc.go:11 | the reference unpadded encoding uses only alphabet characters and is never 1 mod 4 long, so the decoder accepts it |
| Base64Url.EncodeLength | keyfunc.go:11 | n bytes encode to ceil(8n / 6) characters |
| Base64Url.GroupArithmetic | keyfunc.go:11 | the four 6-bit fields cut from three bytes recombine into those bytes |
| Base64Url.GroupRoundTrip | keyfunc.go:11 | a group of one, two or three bytes decodes back from its two, three or four characters |
| Base64Url.DecodeDataSplit | keyfunc.go:11 | decoding splits at a four-character group boundary |
| Base64Url.DecodeDataEncode | keyfunc.go:11 | decoding the characters of an encoding returns the encoded bytes |
| Base64Url.DecodeDataEncodeStep | keyfunc.go:11 | a whole leading group of an encoding decodes to its three bytes ahead of the rest |
| Base64Url.EncodeThenDecode | keyfunc.go:8-12 | round trip: any byte sequence's unpadded base64url encoding decodes back to it |
| Base64Url.TrimPaddingAppended | keyfunc.go:9 | trimming ignores any number of appended `=` |
| Base64Url.PaddingTolerated | keyfunc.go:9-11 | appending `=` never changes the decode outcome, success or error |
| Base64Url.OnlyPaddingDecodesEmpty | keyfunc.go:9-11 | the empty string and any run of `=` decode to no bytes |
| Base64Url.InteriorPaddingRejected | keyfunc.go:9-11 | an `=` with a non-`=` character after it survives trimming, and decoding fails at or before it |
| Base64Url.ForeignCharRejected | keyfunc.go:11 | a character outside the alphabet, other than `=` and line breaks, makes decoding fail at or before it |
| Base64Url.StandardAlphabetRejected | keyfunc.go:11 | `+` and `/` from the standard alphabet make decoding fail |
| Base64Url.DecodeSkipsLineBreak | keyfunc.go:11 | inserting a line break into input that decodes leaves the result unchanged |
| Base64Url.TrimmedLengthDecides | keyfunc.go:9-11 | without line breaks, a trimmed length of 1 mod 4 fails, and success has (6 * trimmed length) / 8 bytes |
| BigEndian.FromBytes | rsa.go:31 | `big.Int.SetBytes`: the value read from k bytes is below 256^k; `LeadingZerosIgnored`, `FromToBytes` and `ToFromBytes` fix it as the big-endian reading |
| BigEndian.FromBytesBound | rsa.go:31 | a value read from k bytes is below 256^k |
| BigEndian.LeadingZerosIgnored | rsa.go:31 | leading zero bytes do not change the value read |
| BigEndian.FromToBytes | rsa.go:31 | writing n in enough bytes and reading it back gives n |
| BigEndian.ToFromBytes | rsa.go:31 | reading bytes and writing the value back in as many bytes gives the same bytes |
| Rsa.ExponentOf | rsa.go:32 | the exponent is the signed 64-bit value congruent to the big-endian value modulo 2^64 (`IsInt64Of`), which is unique |
| Rsa.RSA | rsa.go:15-35 | succeeds exactly when both components are non-empty and decode; N is the big-endian modulus, below 256^len; E is the signed 64-bit value congruent to the big-endian exponent modulo 2^64; every failure is ReqComponents or a decode error |
| Rsa.MissingComponentReported | rsa.go:16-18 | an empty exponent or modulus gives ReqComponents whatever the other fields hold |
| Rsa.ExponentErrorFirst | rsa.go:20-23 | an exponent that fails to decode gives its own error, whatever the modulus holds |
| Rsa.ModulusErrorSecond | rsa.go:24-27 | a modulus that fails to decode after a good exponent gives its own error |
| Rsa.ModulusIgnoresLeadingZeros | rsa.go:31 | leading zero bytes in the decoded modulus do not change N |
| Rsa.ShortExponentExact | rsa.go:32 | a decoded exponent shorter than 8 bytes is taken exactly as E |
| Rsa.Int64OfSmall | rsa.go:32 | a value below 2^63 converts to a 64-bit `int` unchanged |
| Rsa.PaddingOnlyComponentsAreZero | rsa.go:16-32 | components made only of `=` pass the presence check and give the key (0, 0) |
| Rsa.OnlyComponentsRead | rsa.go:15-35 | records agreeing on `exp` and `mod` convert alike, whatever `alg`, `kid`, `kty` and `use` hold |
| Rsa.PaddedSpellingSameKey | rsa.go:20-27 | padded and unpadded spellings of present components give the same result |
| Rsa.PaddingDefeatsPresenceCheck | rsa.go:16-22 | an empty exponent is refused, but the same record with exponent `=` converts, with E = 0 |
| Rsa.EncodedComponentsConvert | rsa.go:20-32 | the encodings of two non-empty byte strings convert to their big-endian values |
| Jwks.Convert | jwks.go:63-71 | a non-RSA key type fails with that type named; an RSA record is converted by `RSA` |
| Jwks.BuildFrom | jwks.go:60-79 | the loop: a successful build keeps every key it started from, and a failed build carries the error of one of the records; `BuildFromOutcome`, `BuildFromKeys` and `BuildFromEntries` state the rest |
| Jwks.BuildKeys | jwks.go:56-79 | the loop from an empty map: succeeds exactly when every record converts, then storing exactly the records' `kid`s, and otherwise fails with the first failing record's error |
| Jwks.BuildFromOutcome | jwks.go:60-71 | the build succeeds exactly when every record converts, and otherwise fails with the first failing record's error |
| Jwks.BuildFromKeys | jwks.go:60-79 | a successful build stores exactly the accumulator's keys and the records' `kid`s |
| Jwks.BuildFromEntries | jwks.go:73-77 | after a successful build, each `kid` holds the entry of the last record with that `kid`, and other entries are untouched |
| Jwks.BuildKeysContents | jwks.go:56-79 | from an empty map: every record was RSA and converted, the keys are the records' `kid`s, and each entry comes from the last record with its `kid` |
| Jwks.UnsupportedKeyTypeFailsBuild | jwks.go:69-70 | a non-RSA record after valid ones fails the whole build with its key type |
| Jwks.BadRsaRecordFailsBuild | jwks.go:64-68 | an RSA record that fails to convert after valid ones fails the whole build with its error |
| Jwks.LaterDuplicateWins | jwks.go:73-77 | with duplicate `kid`s, the entry is the later record's |
| Jwks.NewFromJSONString | jwks.go:56-81 | as written: never returns a store; returns no error exactly when every record converts, and otherwise the first failing record's error |
| Jwks.NewStore | jwks.go:56-81 | as intended: returns the store exactly when every record converts, keyed by the records' `kid`s, and otherwise fails with the first failing record's error |
| Jwks.GetPublicKey | jwks.go:108-124 | a missing `kid` gives PKNotFound; a non-empty pin other than `alg` gives AlgNotSupported; succeeds exactly when the `kid` is stored and its pin is empty or equal to `alg`, returning the stored key; fails only with PKNotFound or AlgNotSupported |
| Jwks.KeyFunc | jwks.go:84-106 | errors in the order ReqKid, KidConvert, ReqAlg, AlgConvert; succeeds exactly when both fields are strings, the `kid` is stored and the pin admits `alg`, returning the stored key; with both fields strings, the result is `GetPublicKey`'s |
| Jwks.EmptyPinAcceptsAnyAlg | jwks.go:119-123 | an empty pin returns the stored key for every declared algorithm |
| Jwks.PinnedAlgRefusesOthers | jwks.go:119-121 | a non-empty pin refuses every other declared algorithm with AlgNotSupported |
| Jwks.ResolveAfterBuild | jwks.go:73-123 | build then resolve with the last record's `kid` and its `alg` (any `alg` if unpinned) gives that record's own RSA key |
| Scenarios.AqabDecodes | rsa.go:20-32 | "AQAB" decodes to the bytes 1, 0, 1, worth 65537 |
| Scenarios.SingleKeyScenario | jwks.go:84-124 | one key "k1" pinned to RS256 resolves for RS256, is refused for RS512 and HS256, and "missing" is not found |
| Scenarios.EmptyHeaderMissesKid | jwks.go:85-88 | a header lacking `kid` is refused with ReqKid even when `alg` is also bad |
| Scenarios.BothComponentsMalformed | rsa.go:20-27 | with both components malformed, the exponent's error offset is returned |
| Scenarios.ConstructorDropsStore | jwks.go:81 | a record set that builds a store holding "k1" still gets neither store nor error from the constructor |

## Left out

- JSON deserialization into `BaseJWKS` (jwks.go:49-54) is a library call whose field-matching rules are not visible. The model takes the deserialized record sequence as its input, with an absent field as the empty string. The malformed-document error path is therefore not modelled.
- The `sync.RWMutex` around the map read (jwks.go:13, 109-113) guards one map read and has no logic of its own. The model's store is an immutable value, so a read cannot race a write.
- The `jwt.Token` type belongs to a foreign library. The header is a `map<string, HeaderValue>`, where `HeaderValue` is either a string or some other JSON value.
- `crypto/rsa` and `math/big` are replaced by `nat` for N and `int` for E.
- Rsa.ExponentOf: assumes a 64-bit `int`. For decoded exponents longer than 8 bytes it takes the low 64 bits. This is what `big.Int.Uint64` does in practice, although its documentation calls the result undefined.
- The `use` field is carried into the store but never checked, as in the source.
- Go error values are modelled by constructor only. Message text and the `%w: %q` formatting of the key-type error are not modelled; the offending key type is kept as a field.
- A `KeyFunc` call on the nil store that the constructor returns, with a header that holds a string `kid` and a string `alg`, panics in Go: `getPublicKey` takes the store's lock through the nil pointer. A header that fails one of the four checks first gets its error without touching the store. The model resolves against the corrected store instead.
- Build idempotence needs no lemma: every operation is a pure function, so equal records give equal stores.

## Findings

| source | as written | input that shows it | evidently intended | confidence | as-written member | corrected member |
|---|---|---|---|---|---|---|
| jwks.go:81 | on success, `NewFromJSONString` builds the store and then returns `nil, nil` | one RSA record with `kid` "k1" and `n` = `e` = "AQAB": the store holds "k1", yet the caller receives no store and no error, and a `KeyFunc` call whose header holds string `kid` and `alg` panics on the nil store | `return result, nil` | high; not executed | Jwks.NewFromJSONString, Scenarios.ConstructorDropsStore | Jwks.NewStore, with Jwks.ResolveAfterBuild proved of it |
