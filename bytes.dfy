/** Octets as they travel on the wire, and the two ways Java's stream classes
    look at them: `DataInput.readByte` yields a signed two's-complement value,
    `DataOutput.write(int)` keeps the low eight bits of its argument. */
module Bytes {

  /** An unsigned octet, as stored in a byte buffer. */
  newtype byte = x: int | 0 <= x < 256

  /** A Java `byte`: a signed two's-complement octet. */
  newtype int8 = x: int | -128 <= x < 128

  /** The octet read as a Java `byte` (what `readByte` returns). */
  function ToSigned(b: byte): (s: int8)
    ensures s as int % 256 == b as int
    ensures b < 128 <==> 0 <= s
  {
    if b < 128 then b as int as int8 else (b as int - 256) as int8
  }

  /** The octet a Java `byte` is written as (what `write(int)` emits). */
  function ToOctet(s: int8): (b: byte)
    ensures 0 <= s ==> b as int == s as int
    ensures s < 0 ==> b as int == s as int + 256
  {
    (s as int % 256) as byte
  }

  /** Writing back what was read gives the same octet. */
  lemma OctetRoundTrip(b: byte)
    ensures ToOctet(ToSigned(b)) == b
  {
  }

  /** Reading back what was written gives the same signed value. */
  lemma SignedRoundTrip(s: int8)
    ensures ToSigned(ToOctet(s)) == s
  {
  }

  /** Two octets are equal exactly when they read as the same Java `byte`,
      so comparing signed values is comparing octets. */
  lemma ToSignedInjective(a: byte, b: byte)
    ensures ToSigned(a) == ToSigned(b) <==> a == b
  {
  }
}
