# Engine.IO packet codec in Dafny

This project models the Engine.IO packet codec of `src/eio` and proves its
properties. The codec translates between a `Packet` and its wire form, a
`PacketData`, in both directions:

- A `Packet` is a packet type (Open, Close, Ping, Pong, Message, Upgrade,
  Noop) plus an optional payload.
- A `PacketData` is a UTF-8 text frame or a raw byte frame. Payloads have
  the same two shapes.

Encoding writes the type's wire id (0..6) as one decimal digit, followed by
the text payload. Bytes go out in one of two ways:

- On a binary-capable channel, after one raw id byte.
- Otherwise as `"b"`, the digit, then standard padded base64 of the bytes.

Decoding inverts this. It rejects:

- empty text;
- a missing type digit after `"b"`;
- a type marker outside 0..6;
- malformed base64;
- an empty binary frame.

The codec is pure and keeps no state.

Files:

- `common.dfy`: `Byte`, `Option`, `Result`.
- `eio.dfy`: module `Eio`, the data model of `src/eio/mod.rs`. It holds the
  `From` conversions, `Id`, `FromRaw` and `FromAscii`, and the derived order
  of packet types.
- `base64.dfy`: module `Base64`, an encoder and a strict decoder for
  section 4 of RFC 4648. The external `base64` crate is not part of this
  model, so these stand in for it. They are proved to be mutual inverses.
- `parser.dfy`: module `Parser`, holding `src/eio/parser.rs`:
  - `Encode`, the encoding as a function;
  - `EncodePacket`, the method that builds the binary frame step by step;
  - `DecodePacket`;
  - the round-trip and error-case lemmas.
- `parser_vectors.dfy`: module `ParserVectors`, the worked examples of
  `src/eio/parser.rs`, each proved.

Two behaviours of `decode_packet` are easy to miss:

- Empty text fails with `PacketEmpty`. The text fails through `get(0)`; the
  `anyhow!("Parser Error")` value before it is discarded.
- The round trip does not hold for every packet. An empty text payload
  comes back as no payload (`Parser.Collapsed`, `Parser.RoundTrip`).

## Model

| member | source | states |
|---|---|---|
| `Eio.FromStr` | src/eio/mod.rs:11-15 | a string converts to a text payload holding that string unchanged |
| `Eio.FromBytes` | src/eio/mod.rs:17-27 | a byte array or slice converts to a binary payload holding the same bytes |
| `Eio.Id` | src/eio/mod.rs:41-52 | every packet type's wire id lies in 0..6 |
| `Eio.IdInjective` | src/eio/mod.rs:41-52 | distinct packet types have distinct ids |
| `Eio.FromRaw` | src/eio/mod.rs:54-66 | a type is found exactly for ids 0..6 (None for every larger byte), and the type found has that id |
| `Eio.FromRawId` | src/eio/mod.rs:41-66 | `FromRaw` inverts `Id`, for every type |
| `Eio.FromAscii` | src/eio/mod.rs:68-73 | a type is found exactly for bytes 48..54; there it is `FromRaw(c - 48)` and its id is `c - 48`; every other byte gives None |
| `Eio.FromAsciiDigit` | src/eio/mod.rs:68-73 | `FromAscii(48 + Id(t)) == Some(t)` for every type, the inverse used by the text encoding |
| `Eio.OrderFollowsId` | src/eio/mod.rs:29-52 | one type precedes another in declaration order (the derived `Ord`) exactly when its id is smaller |
| `Base64.Encode` | src/eio/parser.rs:17 | the padded encoding of n bytes has 4 * ceil(n / 3) characters |
| `Base64.Decode` | src/eio/parser.rs:47 | only text whose length is a multiple of four decodes |
| `Base64.RoundTrip` | src/eio/parser.rs:17 | decoding the base64 of any byte string gives back exactly those bytes |
| `Base64.Canonical` | src/eio/parser.rs:47 | any text the strict decoder accepts is exactly the encoding of what it decodes to |
| `Parser.DecimalString` | src/eio/parser.rs:20 | `to_string` of an integer is a non-empty string of decimal digits, one digit exactly for numbers below 10 and otherwise without a leading zero; with `DecimalRoundTrip` this fixes the string |
| `Parser.DecimalRoundTrip` | src/eio/parser.rs:20 | reading the decimal string of n back as digits gives n |
| `Parser.Digit` | src/eio/parser.rs:9 | a type id is written as exactly one character in '0'..'6' |
| `Parser.MarkerType` | src/eio/parser.rs:33-52 | a leading character names a type exactly when it is '0'..'6', and that type's id is written as that character |
| `Parser.MarkerTypeOfDigit` | src/eio/parser.rs:51-52 | reading a type's digit back gives that type |
| `Parser.Encode` | src/eio/parser.rs:4-22 | the wire form of a packet is a byte frame exactly for a bytes payload on a binary channel, and a text frame is never empty; its other properties are the `Encode*` lemmas and `RoundTrip` |
| `Parser.EncodePacket` | src/eio/parser.rs:4-22 | the result is `Encode`; the output is binary exactly for a bytes payload on a binary channel, and then it is the raw id byte followed by the payload, one byte longer |
| `Parser.EncodeNone` | src/eio/parser.rs:20 | a packet without payload encodes as the text of its one type digit |
| `Parser.EncodeText` | src/eio/parser.rs:9 | a text payload encodes as its type digit followed by the text, unchanged, on either channel |
| `Parser.EncodeBinary` | src/eio/parser.rs:11-15 | on a binary channel a bytes payload encodes as `|b| + 1` bytes: the raw id (not its digit), then `b` |
| `Parser.EncodeBase64Fallback` | src/eio/parser.rs:17 | on a text-only channel a bytes payload encodes as `"b"`, the type digit, then the base64 of the bytes, and the part after the first two characters decodes back to the bytes |
| `Parser.Collapsed` | src/eio/parser.rs:57-61 | the packet decoding gives back keeps the type, has no payload where the packet had an empty text, and is the packet itself otherwise |
| `Parser.RoundTrip` | src/eio/parser.rs:4-78 | decoding the encoding of any packet on either channel gives back the packet, except that an empty text payload becomes none |
| `Parser.DecodeThenEncode` | src/eio/parser.rs:24-78 | every frame that decodes is the encoding of its result: a binary frame on a binary channel, a `"b"` frame on a text-only one, any other text frame on both |
| `Parser.EncodeInjective` | src/eio/parser.rs:4-22 | two packets have the same wire form on a channel exactly when they decode to the same packet |
| `Parser.DecodePacket` | src/eio/parser.rs:24-78 | a text frame fails exactly when it is empty, or it is led by `b` and then has no second character, a second character outside '0'..'6' or invalid base64 after it, or it is led by a character that is neither `b` nor '0'..'6'. An empty binary frame fails with `PacketTooShort`, and a first byte above 6 fails with `InvalidPacketType`. Otherwise a binary frame decodes to `FromRaw` of the first byte with the remaining bytes, even when there are none |
| `Parser.DecodeTextErrors` | src/eio/parser.rs:28-52 | the error of each failing text frame: empty gives `PacketEmpty`; `b` alone gives `PacketTooShort`; `b` and a second character outside '0'..'6' gives `InvalidPacketType`; invalid base64 after `b` and a digit gives `InvalidBase64`; a first character neither `b` nor '0'..'6' gives `InvalidPacketType` |
| `Parser.DecodeTextSuccess` | src/eio/parser.rs:51-62 | a text frame led by a type digit decodes to `FromAscii` of that digit, with the rest of the text unchanged as payload, or no payload when nothing follows |
| `Parser.DecodeBase64Success` | src/eio/parser.rs:36-48 | a `"b"` frame with a valid digit and valid base64 decodes to that type with the decoded bytes |
| `ParserVectors.AllowsNoData` | src/eio/parser.rs:120-127 | Message with no payload round-trips as `"4"` |
| `ParserVectors.OpenPacket` | src/eio/parser.rs:129-136 | Open with a JSON text round-trips as `"0"` followed by that text |
| `ParserVectors.ClosePacket` | src/eio/parser.rs:138-145 | Close with no payload round-trips as `"1"` |
| `ParserVectors.PingPacket` | src/eio/parser.rs:147-154 | Ping with text `"1"` round-trips as `"21"` |
| `ParserVectors.MessagePacket` | src/eio/parser.rs:156-163 | Message with text `"aaa"` round-trips as `"4aaa"` |
| `ParserVectors.Utf8MessagePackets` | src/eio/parser.rs:165-177 | Message texts with multi-byte characters round-trip after the digit `4` unchanged |
| `ParserVectors.UpgradePacket` | src/eio/parser.rs:179-186 | Upgrade with no payload round-trips as `"5"` |
| `ParserVectors.BytesToBytes` | src/eio/parser.rs:188-195 | Message bytes `[0,1,1,2,3,5,8]` round-trip on a binary channel as `[4,0,1,1,2,3,5,8]` |
| `ParserVectors.Base64Vector` | src/eio/parser.rs:202 | the base64 of `[0,1,1,2,3,5,8]` is `"AAEBAgMFCA=="` |
| `ParserVectors.BytesToBase64WhenBinaryNotAllowed` | src/eio/parser.rs:197-205 | the same bytes round-trip on a text-only channel as `"b4AAEBAgMFCA=="` |
| `ParserVectors.DecodeDisallowsBadFormat` | src/eio/parser.rs:207-210 | decoding `":::"` fails |
| `ParserVectors.DecodeDisallowsNonexistentTypes` | src/eio/parser.rs:212-215 | decoding `"94103"` fails |

## Left out

- The `base64` crate (src/eio/parser.rs:17, 47) is not part of this model.
  `Base64` is a strict RFC 4648 section 4 codec in its place. It pads on
  output. On input it requires padding, rejects trailing bits that are not
  zero, and allows no whitespace. Any leniency of the crate beyond this is
  not modelled. `Base64.Canonical`, and the `"b"` clause of
  `Parser.DecodeThenEncode` that rests on it, hold for this strict decoder
  only. A decoder that accepts unpadded input would take frames such as
  `"b4AA"`, which the model rejects with `InvalidBase64`. Those frames would
  not re-encode to themselves.
- Error values carry no message text. `InvalidPacketType` does not carry
  the offending byte that `anyhow!("Invalid packet type: {}", t)` formats.
  The base64 crate's own error detail becomes `InvalidBase64`.
- The discarded `anyhow!("Parser Error")` value (src/eio/parser.rs:29-31)
  has no effect and is not modelled. Its observable outcome, that empty
  text fails, comes from `get(0)` and is modelled as `PacketEmpty`.
- UTF-8 byte-level slicing is not modelled: text is a sequence of Unicode
  scalar values. The decoder tests the first one or two characters instead
  of the first one or two bytes. The outcomes agree, because every accepted
  marker is ASCII and the lead byte of a non-ASCII character is never one.
- `From<[u8; N]>` and `From<&[u8]>` are both `Eio.FromBytes`: an array and
  a slice are the same `seq<Byte>` here.
- `PROTOCOL` (src/eio/mod.rs:3) is a constant with no logic.
- `Vec::with_capacity` (src/eio/parser.rs:12) only sizes an allocation. The
  buffer of `Parser.EncodePacket` is a `seq` that grows by concatenation.
- The derived `Debug` impls are not modelled. The derived `PartialEq` and
  `Eq` impls are Dafny's built-in datatype equality.
