/**
 * The .NET integer types and the BitConverter conversions the reader relies on.
 * BitConverter interprets an array's bytes in the HOST's byte order
 * (BitConverter.IsLittleEndian tells which), so the host order is a parameter
 * here. Signed conversions reinterpret the same bits in two's complement.
 */
module BitConverter {
  import opened ByteOrder

  type sbyte = x: int | -0x80 <= x < 0x80
  type int16 = x: int | -0x8000 <= x < 0x8000
  type uint16 = x: int | 0 <= x < 0x1_0000
  type int32 = x: int | -0x8000_0000 <= x < 0x8000_0000
  type uint32 = x: int | 0 <= x < 0x1_0000_0000
  type int64 = x: int | -0x8000_0000_0000_0000 <= x < 0x8000_0000_0000_0000
  type uint64 = x: int | 0 <= x < 0x1_0000_0000_0000_0000

  /** The order in which a host keeps the bytes of the network-order string s. */
  function HostOrder(s: seq<byte>, isLittleEndian: bool): (r: seq<byte>)
    ensures |r| == |s|
  {
    if isLittleEndian then Reversed(s) else s
  }

  /** BitConverter.ToUInt16/ToUInt32/ToUInt64: the unsigned value of the bytes taken in host order. */
  function ToUnsigned(bytes: seq<byte>, isLittleEndian: bool): (r: nat)
    ensures r < Pow256(|bytes|)
  {
    if isLittleEndian then LittleEndianValue(bytes) else BigEndianValue(bytes)
  }

  /** The weight of the sign bit of a width-byte two's-complement number, 2^(8 * width - 1). */
  function SignBit(width: nat): (b: int)
    requires width > 0
    ensures b > 0 && Pow256(width) == 2 * b
  {
    128 * Pow256(width - 1)
  }

  /**
   * The two's-complement reading of the width-byte unsigned value u: the one
   * value in the signed range of that width that has the same bits as u.
   */
  function TwosComplement(u: int, width: nat): (r: int)
    requires 0 < width && 0 <= u < Pow256(width)
    ensures -SignBit(width) <= r < SignBit(width)
    ensures r == u || r == u - Pow256(width)
  {
    if u < SignBit(width) then u else u - Pow256(width)
  }

  /** BitConverter.ToInt16/ToInt32/ToInt64: the signed value of the bytes taken in host order. */
  function ToSigned(bytes: seq<byte>, isLittleEndian: bool): (r: int)
    requires |bytes| > 0
    ensures -SignBit(|bytes|) <= r < SignBit(|bytes|)
    ensures ToUnsigned(bytes, isLittleEndian) - r in {0, Pow256(|bytes|)}
  {
    TwosComplement(ToUnsigned(bytes, isLittleEndian), |bytes|)
  }

  /** The unsigned value with the same width-byte bits as the signed value x: what a writer puts on the wire for x. */
  function UnsignedBits(x: int, width: nat): (u: nat)
    requires 0 < width && -SignBit(width) <= x < SignBit(width)
    ensures u < Pow256(width)
    ensures u == x || u == x + Pow256(width)
  {
    if x < 0 then x + Pow256(width) else x
  }

  /** Two's complement is the inverse of taking a signed value's bits: a signed value survives the round trip. */
  lemma SignedRoundTrip(x: int, width: nat)
    requires 0 < width && -SignBit(width) <= x < SignBit(width)
    ensures TwosComplement(UnsignedBits(x, width), width) == x
  {
  }

  /** Two's complement reads distinct bit patterns as distinct values. */
  lemma TwosComplementInjective(u: int, w: int, width: nat)
    requires 0 < width && 0 <= u < Pow256(width) && 0 <= w < Pow256(width)
    requires TwosComplement(u, width) == TwosComplement(w, width)
    ensures u == w
  {
  }

  /**
   * On either kind of host, handing BitConverter the network-order bytes in host
   * order yields their big-endian value.
   */
  lemma HostOrderIsBigEndian(s: seq<byte>, isLittleEndian: bool)
    ensures ToUnsigned(HostOrder(s, isLittleEndian), isLittleEndian) == BigEndianValue(s)
  {
    if isLittleEndian {
      LittleEndianOfReversed(s);
    }
  }

  /** The sizes of the .NET integer types, in bytes. */
  lemma TypeWidths()
    ensures Pow256(1) == 0x100 && Pow256(2) == 0x1_0000 && Pow256(4) == 0x1_0000_0000
    ensures Pow256(8) == 0x1_0000_0000_0000_0000
  {
  }
}
