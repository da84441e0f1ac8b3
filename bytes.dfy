// Fixed-width integers and explicit little-endian field extraction.
//
// The decoder overlays packed C structs on the file bytes, which on an x86
// host means every multi-byte field is little-endian. Here each field is
// extracted (and, for the round-trip lemmas, re-encoded) explicitly.
module Bytes {

  type uint8 = x: int | 0 <= x < 0x100
  type uint16 = x: int | 0 <= x < 0x1_0000
  type uint32 = x: int | 0 <= x < 0x1_0000_0000
  type int32 = x: int | -0x8000_0000 <= x < 0x8000_0000

  datatype Option<+T> = None | Some(value: T)

  /** The unsigned 16-bit value stored little-endian at p[o..o+2]. */
  function U16(p: seq<uint8>, o: nat): (r: uint16)
    requires o + 2 <= |p|
    ensures r % 0x100 == p[o] && r / 0x100 == p[o + 1]
  {
    p[o] as int + 0x100 * (p[o + 1] as int)
  }

  /** The unsigned 32-bit value stored little-endian at p[o..o+4]. */
  function U32(p: seq<uint8>, o: nat): (r: uint32)
    requires o + 4 <= |p|
    ensures r % 0x1_0000 == U16(p, o) && r / 0x1_0000 == U16(p, o + 2)
  {
    U16(p, o) as int + 0x1_0000 * (U16(p, o + 2) as int)
  }

  /** Two's-complement reading of a 32-bit pattern, as an int32_t field is read. */
  function ToSigned32(x: uint32): (r: int32)
    ensures (r < 0) == (x >= 0x8000_0000)
    ensures r % 0x1_0000_0000 == x
  {
    if x < 0x8000_0000 then x else x - 0x1_0000_0000
  }

  /** The two's-complement bit pattern of a 32-bit signed value. */
  function FromSigned32(x: int32): (r: uint32)
    ensures r == x % 0x1_0000_0000
  {
    if x >= 0 then x else x + 0x1_0000_0000
  }

  /** The signed 32-bit value stored little-endian at p[o..o+4]. */
  function I32(p: seq<uint8>, o: nat): (r: int32)
    requires o + 4 <= |p|
    ensures FromSigned32(r) == U32(p, o)
  {
    ToSigned32(U32(p, o))
  }

  function Le16(x: uint16): (r: seq<uint8>)
    ensures |r| == 2 && U16(r, 0) == x
  {
    [x % 0x100, x / 0x100]
  }

  function Le32(x: uint32): (r: seq<uint8>)
    ensures |r| == 4 && U32(r, 0) == x
  {
    Le16(x % 0x1_0000) + Le16(x / 0x1_0000)
  }

  function LeI32(x: int32): (r: seq<uint8>)
    ensures |r| == 4 && I32(r, 0) == x
  {
    Le32(FromSigned32(x))
  }

  /** Re-encoding a 16-bit field gives back the bytes it was read from. */
  lemma {:induction false} Le16OfU16(p: seq<uint8>, o: nat)
    requires o + 2 <= |p|
    ensures Le16(U16(p, o)) == p[o..o + 2]
  {
  }

  /** Re-encoding a 32-bit field gives back the bytes it was read from. */
  lemma {:induction false} Le32OfU32(p: seq<uint8>, o: nat)
    requires o + 4 <= |p|
    ensures Le32(U32(p, o)) == p[o..o + 4]
  {
    Le16OfU16(p, o);
    Le16OfU16(p, o + 2);
    assert p[o..o + 4] == p[o..o + 2] + p[o + 2..o + 4];
  }

  /** Re-encoding a signed 32-bit field gives back the bytes it was read from. */
  lemma {:induction false} LeI32OfI32(p: seq<uint8>, o: nat)
    requires o + 4 <= |p|
    ensures LeI32(I32(p, o)) == p[o..o + 4]
  {
    Le32OfU32(p, o);
  }

  /** A 16-bit field depends only on the two bytes it occupies. */
  lemma {:induction false} U16At(p: seq<uint8>, o: nat, q: seq<uint8>)
    requires o + 2 <= |p| && p[o..o + 2] == q
    ensures U16(p, o) == U16(q, 0)
  {
    assert p[o] == q[0] && p[o + 1] == q[1];
  }

  /** A 32-bit field depends only on the four bytes it occupies. */
  lemma {:induction false} U32At(p: seq<uint8>, o: nat, q: seq<uint8>)
    requires o + 4 <= |p| && p[o..o + 4] == q
    ensures U32(p, o) == U32(q, 0)
  {
    assert p[o] == q[0] && p[o + 1] == q[1] && p[o + 2] == q[2] && p[o + 3] == q[3];
  }
}
