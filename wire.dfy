/**
 * The length-prefixed UTF-8 string codec that the protocol-name field delegates to
 * (the "UTF-8 encoded string" of section 1.5.3 of MQTT Version 3.1.1): a two-byte
 * big-endian length N, most significant byte first, followed by exactly N bytes
 * of UTF-8 text. Text is represented by its UTF-8 bytes; whether a byte
 * sequence is well-formed UTF-8 is decided by the `validUtf8` parameter, which
 * stands for the standard library's check.
 */
module Wire {
  import opened Wrappers
  import opened Io

  /** The largest byte length a two-byte length field can state. */
  const MaxStringLength: nat := 0xFFFF

  /** Errors of the string codec. */
  datatype StringCodecError =
    | IoError      // the sink refused a write
    | Truncated    // the input ended before the length field or the declared bytes
    | InvalidUtf8  // the declared bytes are not well-formed UTF-8

  /** A decoded value and the input that follows it, still unread. */
  datatype Decoded<+T> = Decoded(item: T, rest: seq<uint8>)

  /** The value of a big-endian 16-bit field whose bytes are `hi`, `lo`. */
  function ReadU16(hi: uint8, lo: uint8): (n: nat)
    ensures n <= MaxStringLength
  {
    hi as nat * 0x100 + lo as nat
  }

  /** The two-byte big-endian length field for `n`. */
  function LengthPrefix(n: nat): (r: seq<uint8>)
    requires n <= MaxStringLength
    ensures |r| == 2 && ReadU16(r[0], r[1]) == n
  {
    [(n / 0x100) as uint8, (n % 0x100) as uint8]
  }

  /** The wire form of the text whose UTF-8 bytes are `s`. */
  function EncodeStr(s: seq<uint8>): (r: seq<uint8>)
    requires |s| <= MaxStringLength
    ensures |r| == 2 + |s|
    ensures ReadU16(r[0], r[1]) == |s| && r[2..] == s
  {
    LengthPrefix(|s|) + s
  }

  /** `encoded_length` of a string: the number of bytes `EncodeStr` produces. */
  function EncodedStrLength(s: seq<uint8>): (n: nat)
    ensures |s| <= MaxStringLength ==> n == |EncodeStr(s)|
  {
    2 + |s|
  }

  /** The length an input's first two bytes declare. */
  function DeclaredLength(input: seq<uint8>): (n: nat)
    requires |input| >= 2
  {
    ReadU16(input[0], input[1])
  }

  /** The input holds a whole length field and all the bytes it declares. */
  predicate Framed(input: seq<uint8>)
  {
    |input| >= 2 && |input| - 2 >= DeclaredLength(input)
  }

  /**
   * Decodes one string from the front of `input`: reads the length field, then
   * exactly that many bytes, then checks them for UTF-8.
   */
  function DecodeStr(input: seq<uint8>, validUtf8: seq<uint8> -> bool)
    : (r: Result<Decoded<seq<uint8>>, StringCodecError>)
    ensures r.Success? ==>
              && validUtf8(r.value.item)
              && |r.value.item| <= MaxStringLength
              && input == EncodeStr(r.value.item) + r.value.rest
    ensures !Framed(input) ==> r == Failure(Truncated)
    ensures Framed(input) && !validUtf8(input[2..2 + DeclaredLength(input)]) ==> r == Failure(InvalidUtf8)
  {
    if |input| < 2 then Failure(Truncated)
    else
      var n := DeclaredLength(input);
      if |input| - 2 < n then Failure(Truncated)
      else
        var body := input[2..2 + n];
        if validUtf8(body) then
          assert LengthPrefix(n) == input[..2];
          assert input == input[..2] + body + input[2 + n..];
          Success(Decoded(body, input[2 + n..]))
        else Failure(InvalidUtf8)
  }

  /** Decoding an encoded string, whatever follows it, gives back the string and exactly what follows. */
  lemma StrRoundTrip(s: seq<uint8>, rest: seq<uint8>, validUtf8: seq<uint8> -> bool)
    requires |s| <= MaxStringLength && validUtf8(s)
    ensures DecodeStr(EncodeStr(s) + rest, validUtf8) == Success(Decoded(s, rest))
  {
  }

  /** A string's encoding is never a prefix of another's: two encodings followed by anything are equal only if both parts are. */
  lemma EncodeStrPrefixFree(a: seq<uint8>, ra: seq<uint8>, b: seq<uint8>, rb: seq<uint8>)
    requires |a| <= MaxStringLength && |b| <= MaxStringLength
    requires EncodeStr(a) + ra == EncodeStr(b) + rb
    ensures a == b && ra == rb
  {
    var any := (t: seq<uint8>) => true;
    StrRoundTrip(a, ra, any);
    StrRoundTrip(b, rb, any);
  }

  /**
   * The writing string encoder, modelled as a write of the length field followed
   * by a write of the bytes, the second attempted only if the first succeeded;
   * either failure is reported as IoError.
   */
  method EncodeStrTo(s: seq<uint8>, sink: Sink) returns (r: Outcome<StringCodecError>)
    requires |s| <= MaxStringLength
    modifies sink
    ensures var k := Min(EncodedStrLength(s), old(sink.room));
            && sink.written == old(sink.written) + EncodeStr(s)[..k]
            && sink.room == old(sink.room) - k
    ensures r.Pass? <==> EncodedStrLength(s) <= old(sink.room)
    ensures r.Fail? ==> r.error == IoError
  {
    var prefix := LengthPrefix(|s|);
    assert EncodeStr(s) == prefix + s;
    var ok := sink.WriteAll(prefix);
    if !ok {
      assert EncodeStr(s)[..old(sink.room)] == prefix[..old(sink.room)];
      return Fail(IoError);
    }
    ok := sink.WriteAll(s);
    ghost var k := Min(|s|, old(sink.room) - 2);
    assert EncodeStr(s)[..2 + k] == prefix + s[..k];
    if !ok {
      return Fail(IoError);
    }
    return Pass;
  }
}
