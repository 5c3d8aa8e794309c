/**
 * The Protocol Name field of the CONNECT variable header (section 3.1.2.1 of
 * MQTT Version 3.1.1). `ProtocolName` is a distinct type over a string whose
 * wire form is exactly that of the string codec in module Wire: encoding,
 * `encoded_length` and decoding all forward to it.
 */
module ProtocolNameCodec {
  import opened Wrappers
  import opened Io
  import opened Wire

  /** A protocol name; the text is held as its UTF-8 bytes. */
  datatype ProtocolName = ProtocolName(name: seq<uint8>)

  /** The variable-header error a string-codec error is converted into; it keeps the cause. */
  datatype VariableHeaderError = StringEncodeError(cause: StringCodecError)

  /** The `From` conversion applied by `map_err(From::from)` and `try!`. */
  function FromStringError(cause: StringCodecError): (e: VariableHeaderError)
    ensures e.cause == cause
  {
    StringEncodeError(cause)
  }

  /** The UTF-8 bytes of the protocol name "MQTT". */
  const Mqtt: seq<uint8> := [0x4D, 0x51, 0x54, 0x54]

  /**
   * `encode`: writes the inner string with the string codec and converts its error.
   * The sink receives exactly what the string codec writes for the name; the
   * call fails exactly when the string codec's writes fail.
   */
  method Encode(p: ProtocolName, writer: Sink) returns (r: Outcome<VariableHeaderError>)
    requires |p.name| <= MaxStringLength
    modifies writer
    ensures var k := Min(EncodedLength(p), old(writer.room));
            && writer.written == old(writer.written) + EncodeStr(p.name)[..k]
            && writer.room == old(writer.room) - k
    ensures r.Pass? <==> EncodedLength(p) <= old(writer.room)
    ensures r.Pass? ==> |writer.written| - |old(writer.written)| == EncodedLength(p)
    ensures r.Fail? ==> r.error == StringEncodeError(IoError)
  {
    var inner := EncodeStrTo(p.name, writer);
    match inner
    case Pass => r := Pass;
    case Fail(e) => r := Fail(FromStringError(e));
  }

  /** `encoded_length`: the string codec's length of the name, two bytes more than the name. */
  function EncodedLength(p: ProtocolName): (n: nat)
    ensures n == 2 + |p.name|
    ensures |p.name| <= MaxStringLength ==> n == |EncodeStr(p.name)|
  {
    EncodedStrLength(p.name)
  }

  /**
   * `decode_with`: decodes one string and wraps it; the condition is not consulted.
   * A decoded name is valid UTF-8 and the consumed bytes are exactly its encoding.
   */
  function Decode(input: seq<uint8>, cond: Option<()>, validUtf8: seq<uint8> -> bool)
    : (r: Result<Decoded<ProtocolName>, VariableHeaderError>)
    ensures r.Success? ==>
              && validUtf8(r.value.item.name)
              && |r.value.item.name| <= MaxStringLength
              && input == EncodeStr(r.value.item.name) + r.value.rest
  {
    match DecodeStr(input, validUtf8)
    case Success(d) => Success(Decoded(ProtocolName(d.item), d.rest))
    case Failure(e) => Failure(FromStringError(e))
  }

  /** Decoding yields a name exactly when the string codec yields a string, and their errors agree. */
  lemma DecodeDelegates(input: seq<uint8>, cond: Option<()>, validUtf8: seq<uint8> -> bool)
    ensures var inner := DecodeStr(input, validUtf8);
            var outer := Decode(input, cond, validUtf8);
            && (outer.Success? <==> inner.Success?)
            && (inner.Success? ==> outer.value == Decoded(ProtocolName(inner.value.item), inner.value.rest))
            && (inner.Failure? ==> outer.error == StringEncodeError(inner.error))
  {
  }

  /** Decoding an encoded name followed by anything gives the name back and leaves exactly the trailing bytes. */
  lemma RoundTrip(p: ProtocolName, rest: seq<uint8>, cond: Option<()>, validUtf8: seq<uint8> -> bool)
    requires |p.name| <= MaxStringLength && validUtf8(p.name)
    ensures Decode(EncodeStr(p.name) + rest, cond, validUtf8) == Success(Decoded(p, rest))
  {
    StrRoundTrip(p.name, rest, validUtf8);
  }

  /** The decode condition is ignored. */
  lemma ConditionIgnored(input: seq<uint8>, validUtf8: seq<uint8> -> bool)
    ensures Decode(input, None, validUtf8) == Decode(input, Some(()), validUtf8)
  {
  }

  /** An input too short for its length field or for the bytes it declares never decodes to a name. */
  lemma TruncatedInputFails(input: seq<uint8>, cond: Option<()>, validUtf8: seq<uint8> -> bool)
    requires |input| < 2 || |input| - 2 < DeclaredLength(input)
    ensures Decode(input, cond, validUtf8) == Failure(StringEncodeError(Truncated))
  {
  }

  /** Declared bytes that are not UTF-8 are rejected. */
  lemma InvalidUtf8Fails(input: seq<uint8>, cond: Option<()>, validUtf8: seq<uint8> -> bool)
    requires |input| >= 2 && |input| - 2 >= DeclaredLength(input)
    requires !validUtf8(input[2..2 + DeclaredLength(input)])
    ensures Decode(input, cond, validUtf8) == Failure(StringEncodeError(InvalidUtf8))
  {
  }

  /** The bytes of Mqtt are the ASCII codes of the letters M, Q, T, T. */
  lemma MqttIsAscii()
    ensures |Mqtt| == |"MQTT"|
    ensures forall i :: 0 <= i < |Mqtt| ==> Mqtt[i] as int == "MQTT"[i] as int
  {
  }

  /** The example of the field's layout: "MQTT" is `00 04 4D 51 54 54`, six bytes, and decodes back. */
  lemma MqttVector(validUtf8: seq<uint8> -> bool)
    requires validUtf8(Mqtt)
    ensures EncodeStr(ProtocolName(Mqtt).name) == [0x00, 0x04, 0x4D, 0x51, 0x54, 0x54]
    ensures EncodedLength(ProtocolName(Mqtt)) == 6
    ensures Decode([0x00, 0x04, 0x4D, 0x51, 0x54, 0x54], None, validUtf8)
            == Success(Decoded(ProtocolName(Mqtt), []))
  {
    RoundTrip(ProtocolName(Mqtt), [], None, validUtf8);
    assert EncodeStr(Mqtt) + [] == [0x00, 0x04, 0x4D, 0x51, 0x54, 0x54];
  }

  /** Encoding "MQTT" into a sink with room for it writes the six bytes of the example and succeeds. */
  method EncodeMqtt() returns (bytes: seq<uint8>, r: Outcome<VariableHeaderError>)
    ensures bytes == [0x00, 0x04, 0x4D, 0x51, 0x54, 0x54] && r == Pass
  {
    var sink := new Sink(6);
    r := Encode(ProtocolName(Mqtt), sink);
    bytes := sink.written;
  }
}
