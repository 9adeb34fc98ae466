/**
 * Java's signed byte, and the fixed byte values of the parity data link
 * layer's wire format: the three tags and the three frame kinds.
 */
module Bytes {

  /** A Java `byte`: a signed 8-bit two's-complement value. */
  type Byte = b: int | -128 <= b < 128

  const StartTag: Byte := 123   // '{'
  const StopTag: Byte := 125    // '}'
  const EscapeTag: Byte := 92   // '\'

  const DataKind: Byte := 0
  const AckKind: Byte := 1
  const NackKind: Byte := 2

  /** The value latestAckReceived and latestNackReceived hold when they record nothing. */
  const NoFrameNumber: Byte := -1

  /** The bytes that addData escapes. */
  predicate IsTag(b: Byte) {
    b == StartTag || b == StopTag || b == EscapeTag
  }

  /** Java's narrowing cast `(byte) x`: keeps the low 8 bits, read as two's complement. */
  function ToByte(x: int): (b: Byte)
    ensures (b - x) % 256 == 0
    ensures -128 <= x < 128 ==> b == x
  {
    var m := x % 256;
    if m < 128 then m else m - 256
  }

  /** The unsigned value of a byte, as `b & 0xff` gives it in Java. */
  function Unsigned(b: Byte): (u: nat)
    ensures u < 256
    ensures (u - b) % 256 == 0
    ensures 0 <= b ==> u == b
  {
    b % 256
  }
}
