/**
 * The byte sink that encoders write to, standing for a `std::io::Write` implementor.
 * A sink accepts `room` more bytes and fails every write beyond that, which is how
 * an I/O failure (a full buffer, a reset connection) shows itself to the codec.
 */
module Io {

  /** One octet on the wire. */
  newtype uint8 = x: int | 0 <= x < 0x100

  function Min(a: nat, b: nat): (m: nat)
    ensures m <= a && m <= b && (m == a || m == b)
  {
    if a <= b then a else b
  }

  class Sink {
    /** Everything written to the sink so far, in order. */
    var written: seq<uint8>
    /** How many more bytes the sink accepts before a write fails. */
    var room: nat

    constructor (room: nat)
      ensures written == [] && this.room == room
    {
      written := [];
      this.room := room;
    }

    /**
     * `write_all`: writes the longest prefix of `bytes` that fits and reports
     * success exactly when all of `bytes` fit.
     */
    method WriteAll(bytes: seq<uint8>) returns (ok: bool)
      modifies this
      ensures ok <==> |bytes| <= old(room)
      ensures written == old(written) + bytes[..Min(|bytes|, old(room))]
      ensures room == old(room) - Min(|bytes|, old(room))
    {
      var k := Min(|bytes|, room);
      written := written + bytes[..k];
      room := room - k;
      ok := k == |bytes|;
    }
  }
}
