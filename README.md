# MQTT protocol-name field codec

A Dafny model of the Protocol Name field of the MQTT CONNECT variable header
(section 3.1.2.1 of MQTT Version 3.1.1) as `src/control/variable_header/protocol_name.rs`
implements it: `ProtocolName` is a newtype over a string, and its `encode`,
`encoded_length` and `decode_with` forward to the crate's length-prefixed UTF-8
string codec (the "UTF-8 encoded string" of section 1.5.3 of MQTT 3.1.1).

That string codec lives in a file that is not part of this model; module `Wire`
models it at the level of the layout the field's doc comment draws: a two-byte
big-endian length (MSB, then LSB) followed by exactly that many UTF-8 bytes, so
"MQTT" is `00 04 4D 51 54 54`.

Files:

- `wrappers.dfy` — `Option`, `Result` and `Outcome` (Rust's `Result<(), E>`).
- `io.dfy` — `uint8` and `Sink`, the writer encoders write to. A sink accepts
  `room` more bytes; `WriteAll` writes the prefix that fits and fails if not all
  fit, the behaviour of std's `write_all` on a bounded writer. This is how the
  model lets a write fail.
- `wire.dfy` — the string codec: `LengthPrefix`, `EncodeStr`, `EncodedStrLength`,
  `DecodeStr` (returns the string and the unread rest, or `Truncated` /
  `InvalidUtf8`), `EncodeStrTo` (the writing encoder), and the round-trip and
  prefix-freedom lemmas.
- `protocol_name.dfy` — `ProtocolName`, its `Encode`, `EncodedLength`, `Decode`
  and the lemmas about them.

Text is represented by its UTF-8 bytes. Whether a byte sequence is well-formed
UTF-8 is decided by a `validUtf8` function passed to the decoders; it stands for
the standard library's check, which is not modelled. The input of a decoder is a
byte sequence and the decoder returns the decoded value together with the bytes
it did not consume.

## Model

| member | source | states |
|---|---|---|
| `Io.Sink.WriteAll` | src/control/variable_header/protocol_name.rs:28-29 | the writer appends the longest prefix of the bytes that fits and succeeds exactly when all of them fit; nothing else of the sink changes |
| `Wire.ReadU16` | src/control/variable_header/protocol_name.rs:14-15 | the value of the two-byte length field, MSB then LSB, is at most 65535 |
| `Wire.LengthPrefix` | src/control/variable_header/protocol_name.rs:12-15 | the length field is two bytes whose big-endian value (MSB first) is the length |
| `Wire.EncodeStr` | src/control/variable_header/protocol_name.rs:12-21 | the wire form of a string is 2 + its byte length long, starts with its length in big-endian and continues with exactly its bytes |
| `Wire.EncodedStrLength` | src/control/variable_header/protocol_name.rs:32-34 | the string codec's encoded length equals the number of bytes of its encoding |
| `Wire.DecodeStr` | src/control/variable_header/protocol_name.rs:42 | a decoded string is valid UTF-8 and the input is exactly its encoding followed by the returned rest; an input shorter than the length field or than the declared length fails with Truncated; declared bytes that are not UTF-8 fail with InvalidUtf8 |
| `Wire.StrRoundTrip` | src/control/variable_header/protocol_name.rs:12-21 | decoding the encoding of a valid string followed by any bytes returns the string and exactly those bytes |
| `Wire.EncodeStrPrefixFree` | src/control/variable_header/protocol_name.rs:12-21 | two encodings followed by trailing bytes are equal only if the strings and the trailing bytes are equal |
| `Wire.EncodeStrTo` | src/control/variable_header/protocol_name.rs:29 | the string encoder writes the length field and then the bytes; the sink receives the prefix of the encoding that fits; it fails with IoError exactly when the encoding does not fit |
| `ProtocolNameCodec.FromStringError` | src/control/variable_header/protocol_name.rs:29 | the conversion of a string-codec error into a variable-header error, applied when encoding and when decoding (line 42), keeps it as the cause |
| `ProtocolNameCodec.Encode` | src/control/variable_header/protocol_name.rs:25-30 | encoding a name writes to the sink exactly what the string encoder writes for the inner string; on success the number of bytes written equals `EncodedLength`; a string-encoder error is returned converted into a variable-header error, never dropped |
| `ProtocolNameCodec.EncodedLength` | src/control/variable_header/protocol_name.rs:32-34 | the name's encoded length is 2 + the byte length of the inner string, which is the length of its encoding |
| `ProtocolNameCodec.Decode` | src/control/variable_header/protocol_name.rs:37-43 | a decoded name is valid UTF-8 and the input is exactly its encoding followed by the returned rest |
| `ProtocolNameCodec.DecodeDelegates` | src/control/variable_header/protocol_name.rs:42 | decoding yields a name exactly when the string decoder yields a string, wrapping that string and its rest; a string-decoder error comes back converted, never as a name |
| `ProtocolNameCodec.RoundTrip` | src/control/variable_header/protocol_name.rs:28-43 | decoding the encoding of a name followed by any bytes gives the same name and leaves exactly those bytes unread |
| `ProtocolNameCodec.ConditionIgnored` | src/control/variable_header/protocol_name.rs:39-43 | decoding with no condition and with `Some(())` gives the same result |
| `ProtocolNameCodec.TruncatedInputFails` | src/control/variable_header/protocol_name.rs:42 | an input shorter than two bytes, or than two plus its declared length, fails with Truncated and is never decoded to a name |
| `ProtocolNameCodec.InvalidUtf8Fails` | src/control/variable_header/protocol_name.rs:42 | a complete field whose declared bytes are not UTF-8 fails with InvalidUtf8 |
| `ProtocolNameCodec.MqttIsAscii` | src/control/variable_header/protocol_name.rs:16-19 | the name bytes used for the example are the ASCII codes of M, Q, T, T |
| `ProtocolNameCodec.MqttVector` | src/control/variable_header/protocol_name.rs:12-21 | "MQTT" encodes to `00 04 4D 51 54 54`, its encoded length is 6, and those six bytes decode to "MQTT" with nothing left over |
| `ProtocolNameCodec.EncodeMqtt` | src/control/variable_header/protocol_name.rs:12-30 | encoding "MQTT" into a sink with room for six bytes succeeds and writes exactly `00 04 4D 51 54 54` |

## Left out

- The `Read` and `Write` traits and their I/O errors on the read side: the decoder reads from a byte sequence that cannot fail, so all decode errors are Truncated or InvalidUtf8.
- What a reader has consumed after a failed decode: the model returns only the error.
- UTF-8 well-formedness: a parameter of the decoders, not a definition of the model.
- The crate's string codec is not part of this model; `Wire` follows the layout of the field's doc comment and section 1.5.3 of MQTT 3.1.1, not that code's text.
- Strings longer than 65535 bytes: `Encode` and `EncodeStrTo` require at most 65535 bytes, the most a two-byte length field can state (section 1.5.3 of MQTT 3.1.1); the field's code defines no error for longer strings, and the model does not invent one.
- ProtocolNameCodec.EncodedLength: returns the exact count as an unbounded number; the source's `u32` result width is not modelled (it only matters for strings of 2^32 - 2 bytes or more).
- The concrete shape of `VariableHeaderError` and its `From` conversion, defined in files that are not part of this model: the model wraps the string-codec error and keeps it as the cause.
- The `Encodable`/`Decodable` trait machinery, lifetimes, and the assembly of the CONNECT packet around this field.
