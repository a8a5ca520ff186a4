# Checksum-framed Base58 payment requests

A Dafny model of the envelope used by `generate-mc-payment-request` to turn a
MobileCoin `PrintableWrapper` into Base58 text and back:

- `getChecksum` computes the CRC-32 of a buffer, renders it with
  `toString(16)`, decodes that text with `Buffer.from(…, "hex")` and reverses
  the bytes (module `Checksum`, with the two string conversions in `Hex`);
- the end of `getPaymentRequest` frames a payload as `checksum ++ payload` and
  Base58-encodes it (`Envelope.Frame`, `Envelope.FrameB58`);
- `parseB58` Base58-decodes text, takes everything from byte 4 on as the
  payload and compares the `toString()` renderings of the first four bytes and
  of the recomputed checksum, throwing `Invalid checksum` on a mismatch
  (`Envelope.Unframe`, `Envelope.ParseB58`);
- `getPaymentRequest` decodes the recipient's wrapper and builds a new one
  whose only populated variant is `paymentRequest` (module `PaymentRequest`).

CRC-32 (`crc/crc32`), Base58 (`bs58`), protobufjs and
`Buffer.prototype.toString()` are not reimplemented. They are the fields of
the `Libraries.Foreign` record that every operation takes as a parameter.
The CRC's range is its type (`uint32`). The only property assumed of Base58 is
`Libraries.Base58RoundTrips` (decoding inverts encoding), which each lemma
that needs it takes as a `requires`. Where a library throws (`BS58.decode` on
a character outside the alphabet, `PrintableWrapper.decode` on malformed wire
data, `PrintableWrapper.encode` on a field value it cannot convert, such as an
empty amount string) its field returns `None` and the model returns the
matching `Error`. Which values fail to encode is up to protobufjs: many
non-numeral amount strings do not throw but are silently encoded as 0.

The central fact: `toString(16)` has no leading zeros and Node's hex decoder
drops an unpaired last digit, so the checksum is shorter than four bytes
whenever the CRC is below 0x10000000. `parseB58` still slices at exactly
four, so a framed payload comes back only when its CRC has eight hex digits
or the payload is empty (`Envelope.ParseB58RoundTrip`).

In four places the code is looser than a checksum-framed codec is usually
expected to be. The model follows the code in each:

- the hex rendering of the CRC is not zero-padded to eight digits;
- decoded text shorter than four bytes is not rejected: it gets an empty
  payload and is judged by the checksum comparison alone;
- checksums are compared through their `toString()` renderings, not byte
  for byte;
- a decoded input wrapper without the public-address variant is not
  rejected: `.publicAddress` is read unchecked (src/index.ts:28), and the new
  request is encoded with no address (`PaymentRequest.RequestWrapper` gives
  `publicAddress == None`).

The zero-padded checksum is modelled beside the as-written one (see
Findings). `getPaymentRequest` and the top-level flow use the checksum as
written, because they model what the code produces.

## Model

| member | source | states |
|---|---|---|
| Bytes.Reverse | src/index.ts:8 | `reverse()` keeps the length and puts byte `i` at position `len-1-i` |
| Bytes.SliceFrom | src/index.ts:14 | `slice(4)` is the suffix from index 4, or empty when the buffer is shorter; its length and contents follow |
| Bytes.SliceTo | src/index.ts:16 | `slice(0, 4)` is the first `min(4, len)` bytes of the buffer, unchanged |
| Hex.ToHex | src/index.ts:7 | `toString(16)` writes `NumDigits(n)` lowercase hex digits |
| Hex.ToHexIsShortestRendering | src/index.ts:7 | the rendering has exactly the value `n`, starts with '0' only for zero, and is "0" for zero |
| Hex.HexDecode | src/index.ts:8 | `Buffer.from(s, "hex")` yields at most half as many bytes as there are characters |
| Hex.HexDecodeEven | src/index.ts:8 | decoding `2k` digits of `n` gives the `k` big-endian bytes of `n` |
| Hex.HexDecodeOddLength | src/index.ts:8 | decoding `2k+1` digits drops the last digit: the `k` big-endian bytes of `n / 16` |
| Checksum.ChecksumOfCrc | src/index.ts:5-9 | the checksum is the little-endian encoding of the CRC (lowest nibble dropped when the digit count is odd) in `floor(digits/2)` bytes; never over 4 bytes, and exactly 4 only when crc >= 0x10000000 |
| Checksum.GetChecksum | src/index.ts:5-9 | `getChecksum(buffer)` is at most 4 bytes, and 4 exactly when the buffer's CRC-32 is at least 0x10000000 |
| Checksum.FullChecksumIsLittleEndianCrc | src/index.ts:7-8 | a 4-byte checksum has byte `i` equal to `(crc >> 8*i) & 0xff` and reads back to the CRC |
| Checksum.SevenDigitCrcLosesNibble | src/index.ts:7-8 | CRC 0x06b9df6f gives the 3-byte checksum f6 9d 6b: one byte short, and the nibble f is lost |
| Checksum.PaddedChecksumOfCrc | src/index.ts:7-8 | with the rendering padded to 8 digits, the checksum is always the 4-byte little-endian CRC |
| Checksum.GetPaddedChecksum | src/index.ts:5-9 | the padded checksum of a buffer is 4 bytes that read back to its CRC-32 |
| Printable.PublicAddressField | src/index.ts:28 | `.publicAddress` of a decoded wrapper is present exactly when that variant is populated, and is its address |
| Envelope.Frame | src/index.ts:33-34 | the framed text Base58-decodes to the checksum followed by the payload, unchanged |
| Envelope.Unframe | src/index.ts:11-21 | malformed Base58 is the only decoder error; otherwise the result is the bytes from index 4 on or `InvalidChecksum`; accepted exactly when the renderings agree, always when the bytes agree; under 4 decoded bytes give an empty payload |
| Envelope.FullChecksumRoundTrip | src/index.ts:11-20 | with a 4-byte checksum, unframing a framed payload returns it |
| Envelope.ShortChecksumLosesPayload | src/index.ts:14 | with a shorter checksum, a non-empty payload comes back as an error or strictly shorter |
| Envelope.RoundTripExactly | src/index.ts:11-20 | the round trip holds if and only if the checksum has 4 bytes, or the payload is empty and its checksum shorter |
| Envelope.GetChecksumFn | src/index.ts:5-9 | the checksum `getChecksum` computes, at most 4 bytes for every buffer |
| Envelope.PaddedChecksumFn | src/index.ts:5-9 | the zero-padded checksum, exactly 4 bytes for every buffer |
| Envelope.ParseB58 | src/index.ts:11-21 | `parseB58` fails on malformed Base58, and otherwise throws `Invalid checksum` or returns exactly the decoded bytes from index 4 on |
| Envelope.FrameB58 | src/index.ts:33-34 | the produced token Base58-decodes to `getChecksum(proto) ++ proto` |
| Envelope.ParseB58RoundTrip | src/index.ts:11-20 | `parseB58` of a framed payload returns it if and only if its CRC-32 is at least 0x10000000 or it is empty |
| Envelope.ParseB58LosesShortCrcPayload | src/index.ts:14 | a non-empty payload with CRC-32 below 0x10000000 comes back as an error or strictly shorter |
| Envelope.OneByteCounterexample | src/index.ts:7-8 | the payload 0x63 (CRC-32 0x06b9df6f) is framed as f6 9d 6b 63 and does not come back |
| Envelope.ParseB58Padded | src/index.ts:11-21 | parsing with the padded checksum fails on malformed Base58, otherwise throws `InvalidChecksum` or returns the decoded bytes from index 4 on, like `parseB58` |
| Envelope.FrameB58Padded | src/index.ts:33-34 | framing with the padded checksum Base58-decodes to the 4-byte checksum followed by the payload |
| Envelope.PaddedRoundTrip | src/index.ts:11-20 | with the padded checksum every payload, empty or not, survives the round trip |
| Envelope.InjectiveRenderAcceptsExactlyMatching | src/index.ts:16 | if renderings told bytes apart, acceptance would be exactly byte equality of stored and recomputed checksum |
| PaymentRequest.RequestWrapper | src/index.ts:27-32 | the encoded wrapper populates only `paymentRequest`; `value` and `memo` are the arguments; `publicAddress` is copied from the decoded input, absent when it has none |
| PaymentRequest.GetPaymentRequest | src/index.ts:24-35 | fails with `MalformedWrapper` exactly where `PrintableWrapper.decode` throws, with `UnencodableRequest` exactly where `PrintableWrapper.encode` throws on the new request (`RequestProto`), and nowhere else; otherwise the token Base58-decodes to the checksum followed by the serialized request |
| PaymentRequest.PaymentRequestParsesBack | src/index.ts:32-34 | a produced token parses back to the serialized request if and only if its CRC-32 is at least 0x10000000 (or it is empty), and otherwise to an error or a shorter buffer |
| PaymentRequest.RequestFromAddressToken | src/index.ts:39 | a failure of `parseB58` is the result; then `MalformedWrapper` exactly when the payload does not decode and `UnencodableRequest` exactly when the request does not encode; it succeeds if and only if all three steps do, and the new token frames the request built from the decoded wrapper |

## Left out

- CRC-32, Base58 and protobufjs internals: foreign libraries whose code is not part of this model; they are parameters, and only Base58's round trip is assumed; Envelope.OneByteCounterexample also takes the CRC-32 of the byte 0x63 as a hypothesis.
- `Buffer.prototype.toString()`: lossy UTF-8 decoding, kept abstract. The model relies only on equal bytes rendering equally; it does not claim that every byte mismatch is rejected.
- Envelope.InjectiveRenderAcceptsExactlyMatching: holds only under the hypothesis that renderings are injective, which real UTF-8 decoding does not meet.
- `ProtoBuff.load('../proto/printable.proto')`, `lookupType` and the top-level `await`: file I/O and async plumbing (src/index.ts:24-26 and src/index.ts:39).
- The hard-coded check against `expectedResult` (src/index.ts:37-40): it depends on the real CRC, Base58 and protobuf bytes.
- dist/index.js: the compiled copy of src/index.ts with the same logic.
- Amounts passed as a non-integral JavaScript number: `Printable.Amount` holds an integer or a string; floating point is not modelled.
- How protobufjs converts `value` into its wire type: part of the library; the model only records whether `PrintableWrapper.encode` throws.
- Checksum sensitivity to every input byte: a property of CRC-32 itself, which is abstract here.
- Idempotence of parsing: every operation is a pure function, so two calls on the same input agree by construction.

## Findings

| source | as written | input that shows it | evidently intended | confidence | as-written member | corrected member |
|---|---|---|---|---|---|---|
| src/index.ts:7-8 | `crc32(b).toString(16)` is hex-decoded without zero padding, so the checksum has fewer than 4 bytes when the CRC is below 0x10000000 | the one-byte payload 0x63 (CRC-32 0x06b9df6f) is framed as f6 9d 6b 63; `parseB58` returns at best an empty buffer instead of 0x63 | pad the rendering to 8 digits (`padStart(8, "0")`) so the checksum is always the 4-byte little-endian CRC | high; not executed | Envelope.OneByteCounterexample | Envelope.PaddedRoundTrip |
