/** Octets, 16-bit words, and their two byte orders. */
module Bytes {

  type byte = x: int | 0 <= x < 0x100
  type word = x: int | 0 <= x < 0x1_0000

  const TWO32 := 0x1_0000_0000

  /** The value a Java `byte` has when it takes part in arithmetic. */
  function Signed(b: byte): int {
    if b < 0x80 then b else b - 0x100
  }

  function Word(high: byte, low: byte): word {
    (high as int) * 0x100 + low
  }

  /** A word as the two octets that travel on the wire, most significant first. */
  function BigEndian(w: word): (octets: seq<byte>)
    ensures |octets| == 2
  {
    [w / 0x100, w % 0x100]
  }

  /** A word as a little-endian host keeps it in memory. */
  function LittleEndian(w: word): seq<byte> {
    [w % 0x100, w / 0x100]
  }

  function BigEndian32(n: nat): (octets: seq<byte>)
    requires n < TWO32
    ensures |octets| == 4
  {
    BigEndian(n / 0x1_0000) + BigEndian(n % 0x1_0000)
  }
}
