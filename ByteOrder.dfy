/**
 * Byte order. A byte string can be read as a number in two ways: little-endian
 * (least significant byte first, the order of an x86 host and of BitConverter on
 * such a host) and big-endian (most significant byte first, the network byte
 * order AMQP 0-9-1 uses for its integer fields). This module defines both
 * readings, the reversal that turns one into the other, and the big-endian
 * encoding of a number, which is what a peer puts on the wire.
 */
module ByteOrder {

  type byte = b: int | 0 <= b < 256

  /** 256 to the power n: the number of distinct values n bytes can hold. */
  function Pow256(n: nat): (r: nat)
    ensures r >= 1
  {
    if n == 0 then 1 else 256 * Pow256(n - 1)
  }

  /** The bytes of s, last one first. */
  function Reversed(s: seq<byte>): (r: seq<byte>)
    ensures |r| == |s|
  {
    if |s| == 0 then [] else [s[|s| - 1]] + Reversed(s[..|s| - 1])
  }

  /** The value of s read least significant byte first. */
  function LittleEndianValue(s: seq<byte>): (r: nat)
    ensures r < Pow256(|s|)
  {
    if |s| == 0 then 0
    else
      var high := LittleEndianValue(s[1..]);
      assert 256 * (high + 1) <= 256 * Pow256(|s| - 1);
      s[0] + 256 * high
  }

  /** The value of s read most significant byte first (network byte order). */
  function BigEndianValue(s: seq<byte>): (r: nat)
    ensures r < Pow256(|s|)
  {
    if |s| == 0 then 0
    else
      var high := BigEndianValue(s[..|s| - 1]);
      assert 256 * (high + 1) <= 256 * Pow256(|s| - 1);
      256 * high + s[|s| - 1]
  }

  /** The width bytes that carry v in network byte order. */
  function BigEndianBytes(v: nat, width: nat): (r: seq<byte>)
    requires v < Pow256(width)
    ensures |r| == width
  {
    if width == 0 then []
    else
      DivBound(v, Pow256(width - 1));
      BigEndianBytes(v / 256, width - 1) + [v % 256]
  }

  /** If v fits in n + 1 bytes, v / 256 fits in n bytes. */
  lemma DivBound(v: nat, p: nat)
    requires v < 256 * p
    ensures v / 256 < p
  {
  }

  /** Element k of the reversal is element |s| - 1 - k of the original. */
  lemma {:induction false} ReversedAt(s: seq<byte>, k: int)
    requires 0 <= k < |s|
    ensures |Reversed(s)| == |s| && Reversed(s)[k] == s[|s| - 1 - k]
  {
    if k > 0 {
      ReversedAt(s[..|s| - 1], k - 1);
    }
  }

  /** A sequence that agrees element by element with the reversal of s is that reversal. */
  lemma ReversedByElements(s: seq<byte>, t: seq<byte>)
    requires |t| == |s|
    requires forall k :: 0 <= k < |s| ==> t[k] == s[|s| - 1 - k]
    ensures t == Reversed(s)
  {
    forall k | 0 <= k < |s| ensures t[k] == Reversed(s)[k] {
      ReversedAt(s, k);
    }
  }

  /** A string of at most one byte is its own reversal. */
  lemma ReversedShort(s: seq<byte>)
    requires |s| <= 1
    ensures Reversed(s) == s
  {
    if |s| == 1 {
      assert s[..0] == [];
    }
  }

  /** Reversing twice gives the bytes back. */
  lemma ReversedReversed(s: seq<byte>)
    ensures Reversed(Reversed(s)) == s
  {
    var r := Reversed(s);
    forall k | 0 <= k < |s| ensures s[k] == r[|r| - 1 - k] {
      ReversedAt(s, |s| - 1 - k);
    }
    ReversedByElements(r, s);
  }

  /**
   * Reading the reversed bytes little-endian gives the big-endian value of the
   * original bytes: this is why a little-endian host reverses what it read off
   * the wire before it interprets it.
   */
  lemma {:induction false} LittleEndianOfReversed(s: seq<byte>)
    ensures LittleEndianValue(Reversed(s)) == BigEndianValue(s)
  {
    if |s| > 0 {
      var r := Reversed(s);
      assert r[0] == s[|s| - 1];
      assert r[1..] == Reversed(s[..|s| - 1]);
      LittleEndianOfReversed(s[..|s| - 1]);
    }
  }

  /** Decoding the network-order encoding of v gives v back. */
  lemma {:induction false} BigEndianRoundTrip(v: nat, width: nat)
    requires v < Pow256(width)
    ensures BigEndianValue(BigEndianBytes(v, width)) == v
  {
    if width > 0 {
      DivBound(v, Pow256(width - 1));
      var s := BigEndianBytes(v, width);
      assert s[..width - 1] == BigEndianBytes(v / 256, width - 1);
      BigEndianRoundTrip(v / 256, width - 1);
    }
  }

  /** Encoding the big-endian value of s in |s| bytes gives s back: no two byte strings of one width share a value. */
  lemma {:induction false} BigEndianBytesOfValue(s: seq<byte>)
    ensures BigEndianBytes(BigEndianValue(s), |s|) == s
  {
    if |s| > 0 {
      var prefix := s[..|s| - 1];
      var v := BigEndianValue(s);
      assert v / 256 == BigEndianValue(prefix) && v % 256 == s[|s| - 1];
      BigEndianBytesOfValue(prefix);
    }
  }
}
