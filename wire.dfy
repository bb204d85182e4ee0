/**
 * Octets, fixed-width unsigned integers and the big-endian fields of the
 * DNS wire format (RFC 1035, section 2.3.2: network byte order).
 *
 * A Java `byte` read as `b & 0xFF` is an octet 0..255; that is the only way
 * the client ever reads a byte, so octets are modelled as bounded integers.
 */
module Wire {

  type byte = x: int | 0 <= x < 0x100
  type u16 = x: int | 0 <= x < 0x1_0000
  type u32 = x: int | 0 <= x < 0x1_0000_0000

  datatype Option<+T> = None | Some(value: T)

  datatype Result<+T, +E> = Ok(value: T) | Err(error: E)

  /** `((hi & 0xFF) << 8) | (lo & 0xFF)`: a big-endian 16-bit field. */
  function U16(hi: byte, lo: byte): u16
  {
    hi * 0x100 + lo
  }

  /** A big-endian 32-bit field read into a Java `long`, so never negative. */
  function U32(b0: byte, b1: byte, b2: byte, b3: byte): u32
  {
    ((b0 * 0x100 + b1) * 0x100 + b2) * 0x100 + b3
  }

  /** `DataOutputStream.writeShort` / `struct.pack("!H")`: two octets, high first. */
  function Be16(x: u16): (s: seq<byte>)
    ensures |s| == 2 && U16(s[0], s[1]) == x
  {
    [x / 0x100, x % 0x100]
  }

  /** Four octets, high first. */
  function Be32(x: u32): (s: seq<byte>)
    ensures |s| == 4 && U32(s[0], s[1], s[2], s[3]) == x
  {
    Be16(x / 0x1_0000) + Be16(x % 0x1_0000)
  }

  /** Reading a 16-bit field back gives the octets it was read from. */
  lemma Be16OfU16(hi: byte, lo: byte)
    ensures Be16(U16(hi, lo)) == [hi, lo]
  {
    var x := U16(hi, lo);
    assert x / 0x100 == hi;
    assert x % 0x100 == lo;
  }

  /** Reading a 32-bit field back gives the octets it was read from. */
  lemma Be32OfU32(b0: byte, b1: byte, b2: byte, b3: byte)
    ensures Be32(U32(b0, b1, b2, b3)) == [b0, b1, b2, b3]
  {
    var x := U32(b0, b1, b2, b3);
    assert x == U16(b0, b1) * 0x1_0000 + U16(b2, b3);
    assert x / 0x1_0000 == U16(b0, b1);
    assert x % 0x1_0000 == U16(b2, b3);
    Be16OfU16(b0, b1);
    Be16OfU16(b2, b3);
  }

  /** Regrouping a concatenation. */
  lemma AppendAssoc<T>(a: seq<T>, b: seq<T>, c: seq<T>)
    ensures (a + b) + c == a + (b + c)
  {
  }

  lemma AppendEmpty<T>(a: seq<T>)
    ensures a + [] == a && [] + a == a
  {
  }
}
