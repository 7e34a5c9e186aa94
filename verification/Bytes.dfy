/** Fixed-width integers and byte strings, as the C++ code uses them. */
module Bytes {
  type byte = x: int | 0 <= x < 0x100
  type uint8 = byte
  type uint16 = x: int | 0 <= x < 0x1_0000
  type uint32 = x: int | 0 <= x < 0x1_0000_0000

  /** A read-only `span<const std::byte>` (or `string_view`): only its contents matter. */
  type Span = seq<byte>

  datatype Option<+T> = None | Some(value: T)

  /** The conversion `static_cast<uint16_t>`. */
  function ToU16(x: int): uint16 {
    x % 0x1_0000
  }

  /** The conversion `static_cast<uint32_t>`. */
  function ToU32(x: int): uint32 {
    x % 0x1_0000_0000
  }

  lemma SmallStays(x: nat)
    ensures x < 0x1_0000 ==> ToU16(x) == x
    ensures x < 0x1_0000_0000 ==> ToU32(x) == x
  {
  }

  /** Multiples of 2^32 are cut off. */
  lemma WordRest(q: nat, r: nat)
    ensures ToU32(0x1_0000_0000 * q + r) == ToU32(r)
  {
  }

  /** Quotient and rest of a number put together from a byte and what is above it. */
  lemma TakeByteOff(high: nat, low: byte)
    ensures (high * 0x100 + low) / 0x100 == high && (high * 0x100 + low) % 0x100 == low
  {
  }

  /** Two bytes, most significant first. */
  function BigEndian16(x: uint16): Span {
    [x / 0x100, x % 0x100]
  }

  function FromBigEndian16(hi: byte, lo: byte): uint16 {
    hi * 0x100 + lo
  }

  lemma BigEndianRoundTrip(hi: byte, lo: byte)
    ensures BigEndian16(FromBigEndian16(hi, lo)) == [hi, lo]
  {
    TakeByteOff(hi, lo);
  }
}
