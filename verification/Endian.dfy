/**
 Little-endian access to a byte buffer (include/ethercat/endian.h). Bytes are bv8, 16-bit fields are
 bounded integers because they take part in offset arithmetic, 32-bit fields of a frame are bv32.
 */
module Endian {

  type byte = bv8
  type u16 = x: int | 0 <= x < 0x1_0000

  /** The number of uint32_t values. */
  const WORD := 0x1_0000_0000

  /** The number of uint64_t values. */
  const DOUBLE_WORD := 0x1_0000_0000_0000_0000

  /** A uint32_t used as a count or an offset. */
  type u32 = x: int | 0 <= x < WORD

  /** A value below 2^64 survives uint64_t arithmetic. */
  lemma Fits(v: nat)
    requires v < 0x1_0000_0000_0000_0000
    ensures v % DOUBLE_WORD == v
  {
  }

  /** The uint8_t conversion of a value below 256. */
  function ToByte(value: nat): (b: byte)
    requires value < 0x100
    ensures b as int == value
  {
    if value == 0 then 0 else ToByte(value - 1) + 1
  }

  function ReadU16(buffer: seq<byte>, at: nat): u16
    requires at + 2 <= |buffer|
  {
    buffer[at] as int + 0x100 * (buffer[at + 1] as int)
  }

  function ReadU32(buffer: seq<byte>, at: nat): bv32
    requires at + 4 <= |buffer|
  {
    (buffer[at] as bv32) | ((buffer[at + 1] as bv32) << 8)
    | ((buffer[at + 2] as bv32) << 16) | ((buffer[at + 3] as bv32) << 24)
  }

  function BytesOfU16(value: u16): (bytes: seq<byte>)
    ensures |bytes| == 2 && ReadU16(bytes, 0) == value
  {
    [ToByte(value % 0x100), ToByte(value / 0x100)]
  }

  function BytesOfU32(value: bv32): (bytes: seq<byte>)
    ensures |bytes| == 4 && ReadU32(bytes, 0) == value
  {
    [(value & 0xFF) as byte, ((value >> 8) & 0xFF) as byte,
     ((value >> 16) & 0xFF) as byte, ((value >> 24) & 0xFF) as byte]
  }

  /** s with the bytes of part written at offset at. */
  function Splice(s: seq<byte>, at: nat, part: seq<byte>): (t: seq<byte>)
    requires at + |part| <= |s|
    ensures |t| == |s|
  {
    s[..at] + part + s[at + |part|..]
  }

  /** Two adjacent splices are one. */
  lemma SpliceAppend(s: seq<byte>, at: nat, first: seq<byte>, second: seq<byte>)
    requires at + |first| + |second| <= |s|
    ensures Splice(Splice(s, at, first), at + |first|, second) == Splice(s, at, first + second)
  {
  }

  lemma SpliceEnds(s: seq<byte>, at: nat, part: seq<byte>)
    requires at + |part| <= |s|
    ensures Splice(s, at, part)[..at + |part|] == s[..at] + part
    ensures Splice(s, at, part)[at + |part|..] == s[at + |part|..]
  {
  }

  method WriteU16(buffer: array<byte>, at: nat, value: u16)
    requires at + 2 <= buffer.Length
    modifies buffer
    ensures buffer[..] == Splice(old(buffer[..]), at, BytesOfU16(value))
  {
    buffer[at] := ToByte(value % 0x100);
    buffer[at + 1] := ToByte(value / 0x100);
  }

  method WriteU32(buffer: array<byte>, at: nat, value: bv32)
    requires at + 4 <= buffer.Length
    modifies buffer
    ensures buffer[..] == Splice(old(buffer[..]), at, BytesOfU32(value))
  {
    buffer[at] := (value & 0xFF) as byte;
    buffer[at + 1] := ((value >> 8) & 0xFF) as byte;
    buffer[at + 2] := ((value >> 16) & 0xFF) as byte;
    buffer[at + 3] := ((value >> 24) & 0xFF) as byte;
  }

  method CopyInto(buffer: array<byte>, at: nat, part: seq<byte>)
    requires at + |part| <= buffer.Length
    modifies buffer
    ensures buffer[..] == Splice(old(buffer[..]), at, part)
  {
    forall i | 0 <= i < |part| {
      buffer[at + i] := part[i];
    }
  }

  lemma WordInjective(a0: byte, a1: byte, a2: byte, a3: byte, b0: byte, b1: byte, b2: byte, b3: byte)
    requires (a0 as bv32) | ((a1 as bv32) << 8) | ((a2 as bv32) << 16) | ((a3 as bv32) << 24)
          == (b0 as bv32) | ((b1 as bv32) << 8) | ((b2 as bv32) << 16) | ((b3 as bv32) << 24)
    ensures a0 == b0 && a1 == b1 && a2 == b2 && a3 == b3
  {
  }

  /** Four bytes are determined by the 32-bit value they spell. */
  lemma ReadU32Injective(a: seq<byte>, b: seq<byte>)
    requires |a| == |b| == 4 && ReadU32(a, 0) == ReadU32(b, 0)
    ensures a == b
  {
    WordInjective(a[0], a[1], a[2], a[3], b[0], b[1], b[2], b[3]);
  }

  /** The least significant byte comes first. */
  lemma LeastSignificantFirst(value: u16)
    ensures var bytes := BytesOfU16(value); bytes[0] as int == value % 256 && bytes[1] as int == value / 256
    ensures BytesOfU32(0x0403_0201) == [1, 2, 3, 4]
  {
  }
}
