# uuid: a Dafny model

A model of the Go package `uuid` (file `uuid.go`), which provides a 16-byte
RFC 4122 identifier with three operations:

- `NewUUID` fills 16 bytes from a random source, then forces the version-4
  bits (byte 6 high nibble `0100`, section 4.1.3 of RFC 4122) and the variant
  bits (byte 8 top two bits `10`, section 4.1.1 of RFC 4122).
- `UUID.String` renders the bytes as lower-case hex in 8-4-4-4-12 groups
  joined by hyphens (section 3 of RFC 4122).
- `ParseUUID` removes every hyphen, requires exactly 32 remaining
  characters, requires each of them to be a hex digit in either case, and
  decodes the digit pairs into 16 bytes. Each failure is a two-level error:
  an outer "invalid format" or "failed to decode" wrapping an inner cause.

Files:

- `hex.dfy`, module `Hex`: the effect of `hex.EncodeToString` and
  `hex.DecodeString` as the package uses them, stated directly: digits and
  their values, case folding, encoding, and decoding with the library's
  error order (first invalid byte, else odd length).
- `uuid.dfy`, module `Uuid`: the identifier type, the error kinds, bit
  patching (`NewUUID`), formatting (`Format`, which is `UUID.String`),
  hyphen removal, the specification function `Parse` and the method
  `ParseUUID` proved equal to it, and the properties of all three.

Go strings are byte strings and `len` counts bytes, so text is modelled as
`seq<byte>` with `byte` the integers 0..255. `ParseUUID` ranges over runes,
but every byte of a non-ASCII rune is 0x80 or above and so not a hex digit.
Checking bytes therefore gives the same verdict as checking runes.

The version-4 test (`g[6] & 0xf0 == 0x40`, `g[8] & 0xc0 == 0x80`) is written
with the source's masks on `bv8`. The patches are written as arithmetic on
the byte: `(b & 0x0f) | 0x40` is `b % 16 + 0x40` and `(b & 0x3f) | 0x80` is
`b % 64 + 0x80`. The lemmas `HighBits` (for the test) and `PatchBits` (for
the patches) connect the two readings. Likewise the
nibbles `v >> 4` and `v & 0x0f` of `hex` are `v / 16` and `v % 16`.

A decode failure (uuid.go:75) is reported as outer `ErrFailedToDecodeUUID`
wrapping the `hex` package's own error (invalid byte or odd length), not a
package sentinel. The model keeps that cause (`Cause.HexCause`) and proves
the branch unreachable.

## Model

| member | source | states |
|---|---|---|
| Hex.Digit | uuid.go:46-50 | the digit written for a nibble is a lower-case hex digit whose value is that nibble |
| Hex.DigitValue | uuid.go:73 | a hex digit in either case has a value below 16 |
| Hex.ToLower | uuid.go:66-70 | case folding keeps hex digits hex digits and non-digits non-digits, and lower-case digits unchanged |
| Hex.DigitValueIgnoresCase | uuid.go:66-73 | a digit and its lower-case form have the same value; the digit for that value is the lower-case form |
| Hex.IsDigit | uuid.go:67 | the character test of the parse loop: 0-9, a-f or A-F |
| Hex.AllDigits | uuid.go:66-70 | every character of the hyphen-free text passes the test of the loop |
| Hex.Pair | uuid.go:73 | a decoded byte has the first digit's value as its high nibble and the second's as its low nibble |
| Hex.Encode | uuid.go:46-50 | two characters per byte, all of them lower-case hex digits |
| Hex.EncodeDigits | uuid.go:46-50 | character 2i is the digit of byte i's high nibble, character 2i+1 that of its low nibble |
| Hex.EncodeConcat | uuid.go:46-51 | encoding the byte groups one after another equals encoding all bytes at once |
| Hex.Decode | uuid.go:73 | hex.DecodeString: a success has half as many bytes as digits; an odd-length error only for odd input; a reported invalid byte occurs in the input and is not a hex digit |
| Hex.DecodeDigits | uuid.go:73 | an even number of hex digits always decodes, to half as many bytes, byte i from digits 2i and 2i+1 |
| Hex.DecodeFails | uuid.go:73-76 | an odd count or any non-digit makes decoding fail |
| Hex.DecodeEncode | uuid.go:46-50 | decoding an encoded byte string gives back the bytes |
| Uuid.Is | uuid_test.go:92 | errors.Is on a wrapped error: the kind is the outer error or the inner sentinel |
| Uuid.IsVersion4 | uuid_test.go:40-44 | the test's masks: g[6] & 0xf0 == 0x40 and g[8] & 0xc0 == 0x80 |
| Uuid.HighBits | uuid_test.go:40-44 | the mask tests of the source, g[6] & 0xf0 == 0x40 and g[8] & 0xc0 == 0x80, hold exactly when the high nibble is 4 and the top two bits are 10 |
| Uuid.WithVersion | uuid.go:39 | the patched byte 6 has high nibble 0100 and the original low nibble |
| Uuid.WithVariant | uuid.go:40 | the patched byte 8 has top bits 10 and the original low six bits |
| Uuid.PatchBits | uuid.go:39-40 | for every 8-bit value g, the bit patches of the source, g & 0x0f or-ed with 0x40 and g & 0x3f or-ed with 0x80, have the values of the arithmetic patches WithVersion and WithVariant |
| Uuid.PatchesKeepVersion4 | uuid.go:39-40 | patching bytes that already carry the version and variant bits changes nothing |
| Uuid.NewUUID | uuid.go:31-42 | the result has g[6] & 0xf0 == 0x40 and g[8] & 0xc0 == 0x80; the low bits of bytes 6 and 8 and all other 14 bytes are the random bytes; a random value that is already version 4 comes back unchanged |
| Uuid.Format | uuid.go:45-51 | 36 characters; hyphens exactly at offsets 8, 13, 18 and 23; lower-case hex digits everywhere else |
| Uuid.FormatLayout | uuid.go:45-51 | byte i appears in order, high nibble first, at offset 2i plus the number of hyphens before its group |
| Uuid.FormatDigits | uuid.go:45-51 | the text form with its hyphens removed is the hex encoding of all 16 bytes |
| Uuid.FormatVersion4 | uuid.go:39-51 | a version-4 UUID prints '4' at offset 14 and one of '8', '9', 'a', 'b' at offset 19 |
| Uuid.FormatNil | uuid_test.go:14-18 | the zero UUID prints as "00000000-0000-0000-0000-000000000000" |
| Uuid.RemoveHyphens | uuid.go:60 | the result contains no hyphen and is no longer than the input |
| Uuid.RemoveHyphensConcat | uuid.go:60 | removing hyphens from a concatenation removes them from each part |
| Uuid.RemoveHyphensKeeps | uuid.go:60 | text without hyphens is left as it is |
| Uuid.CopyInto | uuid.go:79 | copying into the zero UUID takes the first min(16, n) bytes and leaves the rest zero |
| Uuid.Parse | uuid.go:56-82 | what ParseUUID returns: a success only for 32 hex digits after removing hyphens; an invalid-format error always wraps a package sentinel |
| Uuid.ParseUUID | uuid.go:56-82 | the hyphen removal, length check, digit loop with early return, decode and copy compute exactly Parse(s) |
| Uuid.ParseRejectsLength | uuid.go:60-63 | a length other than 32 after removing hyphens gives invalid format + invalid length, even when non-digits are present |
| Uuid.ParseRejectsNonDigit | uuid.go:66-70 | 32 characters with a non-digit among them give invalid format + invalid hex character |
| Uuid.ParseDigits | uuid.go:72-81 | 32 digits parse; byte i is 16 * value(c[2i]) + value(c[2i+1]) of the hyphen-free text, with no bits forced |
| Uuid.ParseOutcome | uuid.go:60-81 | parsing succeeds exactly on 32 hex digits, and every failure has outer kind invalid format: the failed-to-decode branch is never taken |
| Uuid.ParseFormat | uuid.go:45-82 | parsing the text form of any UUID gives back that UUID |
| Uuid.ParseEncoded | uuid.go:56-82 | the 32-digit spelling without hyphens parses to the same UUID |
| Uuid.ParseWithHyphenInserted | uuid.go:60 | inserting a hyphen anywhere does not change the result of parsing |
| Uuid.RemoveHyphensIgnoresCase | uuid.go:60 | removing hyphens keeps two texts equal up to letter case |
| Uuid.ParseIgnoresCase | uuid.go:66-79 | two texts equal up to ASCII letter case parse to the same result |

## Left out

- The random source: `crypto/rand.Read` and the `ErrFailedToGenerateUUID` error it leads to (uuid.go:33-36) are not modelled. `NewUUID` takes the 16 random bytes as a parameter.
- The statistical uniqueness of generated values is a probabilistic claim and is not stated.
- Error texts: `Error.Error()` and the strings of the sentinels are not modelled. `fmt.Errorf` with `%w` is the datatype `Error`, built as `Wrapped(outer, inner)`, and `errors.Is` is the predicate `Is`.
- ParseUUID: on failure the Go function also returns the zero UUID beside the error. The model returns only the error (`Failure`).
- The library internals of `encoding/hex` and `strings.ReplaceAll` are replaced by direct definitions of their effect (`Hex.Encode`, `Hex.Decode`, `Uuid.RemoveHyphens`). Which invalid byte `hex.DecodeString` reports is modelled, though that branch is unreachable.
- The literal test strings of uuid_test.go for parsing are not evaluated one by one. Their cases are covered by general lemmas: upper case by ParseIgnoresCase, no hyphens by ParseEncoded, wrong length by ParseRejectsLength, and a non-hex character by ParseRejectsNonDigit. The non-zero formatting case is covered by FormatLayout.
