/**
 * The big-endian primitive reader. It pulls a fixed number of bytes off the
 * inbound stream into a scratch array that it owns, reverses the array in place
 * on a little-endian host, and lets BitConverter interpret the array in host
 * order, so that every integer is read in network byte order.
 */
module Internals {
  import opened ByteOrder
  import opened BitConverter
  import opened RingBuffer

  /**
   * The buffer after a fill, as the fill is written: the incoming bytes overwrite
   * the front of the buffer, and when it reverses, it reverses the WHOLE buffer,
   * not just the incoming bytes.
   */
  function Filled(before: seq<byte>, incoming: seq<byte>, reverse: bool, isLittleEndian: bool): (r: seq<byte>)
    requires |incoming| <= |before|
    ensures |r| == |before|
  {
    var received := incoming + before[|incoming|..];
    if reverse && isLittleEndian && |incoming| > 1 then Reversed(received) else received
  }

  /** Without reversal the buffer starts with the incoming bytes in stream order and keeps the rest. */
  lemma FillKeepsStreamOrder(before: seq<byte>, incoming: seq<byte>, reverse: bool, isLittleEndian: bool)
    requires |incoming| <= |before|
    requires !reverse || !isLittleEndian || |incoming| <= 1
    ensures Filled(before, incoming, reverse, isLittleEndian)[..|incoming|] == incoming
    ensures Filled(before, incoming, reverse, isLittleEndian)[|incoming|..] == before[|incoming|..]
  {
  }

  /** When the buffer is exactly as long as the fill, it ends up holding the incoming bytes in host order. */
  lemma FillOfExactWidth(before: seq<byte>, incoming: seq<byte>, isLittleEndian: bool)
    requires |incoming| == |before|
    ensures Filled(before, incoming, true, isLittleEndian) == HostOrder(incoming, isLittleEndian)
  {
    assert incoming + before[|incoming|..] == incoming;
    if |incoming| <= 1 {
      ReversedShort(incoming);
    }
  }

  /**
   * A reversing fill of a scratch array exactly as wide as the value, read back
   * by BitConverter in host order, yields the big-endian value of the incoming
   * bytes, on either kind of host.
   */
  lemma ReadsNetworkOrder(before: seq<byte>, incoming: seq<byte>, isLittleEndian: bool)
    requires |incoming| == |before|
    ensures ToUnsigned(Filled(before, incoming, true, isLittleEndian), isLittleEndian) == BigEndianValue(incoming)
  {
    FillOfExactWidth(before, incoming, isLittleEndian);
    HostOrderIsBigEndian(incoming, isLittleEndian);
  }

  /**
   * A reversing fill into a buffer longer than the fill moves the incoming bytes to
   * the BACK of the buffer, reversed, and brings stale bytes to the front.
   */
  lemma FillOfWiderBuffer(before: seq<byte>, incoming: seq<byte>)
    requires 1 < |incoming| < |before|
    ensures Filled(before, incoming, true, true)[|before| - |incoming|..] == Reversed(incoming)
    ensures Filled(before, incoming, true, true)[..|before| - |incoming|] == Reversed(before[|incoming|..])
  {
    var n, m := |before|, |incoming|;
    var received := incoming + before[m..];
    var r := Reversed(received);
    var back, front, stale := r[n - m..], r[..n - m], before[m..];
    forall k | 0 <= k < m ensures back[k] == incoming[m - 1 - k] {
      ReversedAt(received, n - m + k);
    }
    ReversedByElements(incoming, back);
    forall k | 0 <= k < n - m ensures front[k] == stale[n - m - 1 - k] {
      ReversedAt(received, k);
    }
    ReversedByElements(stale, front);
  }

  /**
   * The in-place swap loop of FillBufferWithLock: exchanges buffer[i] with
   * buffer[len - 1 - i] for i < len / 2, leaving an odd length's middle byte in
   * place. The early exit when the two positions meet is never taken.
   */
  method ReverseInPlace(buffer: array<byte>)
    modifies buffer
    ensures buffer[..] == Reversed(old(buffer[..]))
  {
    var len := buffer.Length;
    for i := 0 to len / 2
      invariant forall k :: 0 <= k < i ==> buffer[k] == old(buffer[len - 1 - k]) && buffer[len - 1 - k] == old(buffer[k])
      invariant forall k :: i <= k < len - i ==> buffer[k] == old(buffer[k])
    {
      var other := len - 1 - i;
      assert other > i;
      if other == i {
        break;
      }
      var left := buffer[i];
      var right := buffer[len - 1 - i];
      buffer[other] := left;
      buffer[i] := right;
    }
    ReversedByElements(old(buffer[..]), buffer[..]);
  }

  class InternalBigEndianReader {
    const ringBufferStream: RingBufferStreamAdapter
    /** BitConverter.IsLittleEndian: the byte order of the host. */
    const isLittleEndian: bool
    /** Scratch arrays, one per width, overwritten by every read of that width. */
    const oneByteArray: array<byte>
    const twoByteArray: array<byte>
    const fourByteArray: array<byte>
    const eightByteArray: array<byte>

    /** Each scratch array is exactly as long as the reads that use it. */
    ghost predicate Valid()
    {
      oneByteArray.Length == 1 && twoByteArray.Length == 2 &&
      fourByteArray.Length == 4 && eightByteArray.Length == 8
    }

    constructor(ringBufferStream: RingBufferStreamAdapter, isLittleEndian: bool)
      ensures Valid()
      ensures this.ringBufferStream == ringBufferStream && this.isLittleEndian == isLittleEndian
      ensures fresh(oneByteArray) && fresh(twoByteArray) && fresh(fourByteArray) && fresh(eightByteArray)
    {
      this.ringBufferStream := ringBufferStream;
      this.isLittleEndian := isLittleEndian;
      oneByteArray := new byte[1];
      twoByteArray := new byte[2];
      fourByteArray := new byte[4];
      eightByteArray := new byte[8];
    }

    /**
     * Reads exactly count bytes into buffer[0..count), looping over partial
     * reads, then, if asked to and the host is little-endian and count > 1,
     * reverses the whole buffer. A count of zero or less reads nothing. The
     * wait for bytes to arrive is replaced by the requirement that count bytes
     * are pending.
     */
    method FillBufferWithLock(buffer: array<byte>, count: int, reverse: bool)
      requires count <= buffer.Length
      requires count <= |ringBufferStream.pending|
      modifies ringBufferStream, buffer
      ensures var n := if count < 0 then 0 else count;
        && ringBufferStream.pending == old(ringBufferStream.pending)[n..]
        && ringBufferStream.position == old(ringBufferStream.position) + n
        && buffer[..] == Filled(old(buffer[..]), old(ringBufferStream.pending)[..n], reverse, isLittleEndian)
    {
      ghost var stream, original := ringBufferStream.pending, buffer[..];
      var totalRead := 0;
      while totalRead < count
        invariant 0 <= totalRead && (totalRead == 0 || totalRead <= count)
        invariant ringBufferStream.pending == stream[totalRead..]
        invariant ringBufferStream.position == old(ringBufferStream.position) + totalRead
        invariant buffer[..] == stream[..totalRead] + original[totalRead..]
      {
        ghost var current := buffer[..];
        var read := ringBufferStream.Read(buffer, totalRead, count - totalRead);
        assert stream[totalRead..][..read] == stream[totalRead..totalRead + read];
        assert current[..totalRead] == stream[..totalRead];
        assert current[totalRead + read..] == original[totalRead + read..];
        assert stream[..totalRead] + stream[totalRead..totalRead + read] == stream[..totalRead + read];
        totalRead := totalRead + read;
      }
      assert totalRead == if count < 0 then 0 else count;
      ghost var received := stream[..totalRead] + original[totalRead..];
      assert buffer[..] == received;
      if reverse && isLittleEndian && count > 1 {
        ReverseInPlace(buffer);
      }
      assert buffer[..] == Filled(original, stream[..totalRead], reverse, isLittleEndian);
    }

    method ReadByte() returns (b: byte)
      requires Valid() && |ringBufferStream.pending| >= 1
      modifies ringBufferStream, oneByteArray
      ensures b == old(ringBufferStream.pending)[0]
      ensures oneByteArray[..] == [b]
      ensures ringBufferStream.pending == old(ringBufferStream.pending)[1..]
      ensures ringBufferStream.position == old(ringBufferStream.position) + 1
    {
      FillBufferWithLock(oneByteArray, 1, false);
      b := oneByteArray[0];
    }

    method ReadSByte() returns (v: sbyte)
      requires Valid() && |ringBufferStream.pending| >= 1
      modifies ringBufferStream, oneByteArray
      ensures v == TwosComplement(old(ringBufferStream.pending)[0], 1)
      ensures oneByteArray[..] == [old(ringBufferStream.pending)[0]]
      ensures ringBufferStream.pending == old(ringBufferStream.pending)[1..]
      ensures ringBufferStream.position == old(ringBufferStream.position) + 1
    {
      var b := ReadByte();
      TypeWidths();
      v := TwosComplement(b, 1);
    }


    method ReadInt16() returns (v: int16)
      requires Valid() && |ringBufferStream.pending| >= 2
      modifies ringBufferStream, twoByteArray
      ensures v == TwosComplement(BigEndianValue(old(ringBufferStream.pending)[..2]), 2)
      ensures twoByteArray[..] == HostOrder(old(ringBufferStream.pending)[..2], isLittleEndian)
      ensures ringBufferStream.pending == old(ringBufferStream.pending)[2..]
      ensures ringBufferStream.position == old(ringBufferStream.position) + 2
    {
      FillBufferWithLock(twoByteArray, 2, true);
      FillOfExactWidth(old(twoByteArray[..]), old(ringBufferStream.pending)[..2], isLittleEndian);
      ReadsNetworkOrder(old(twoByteArray[..]), old(ringBufferStream.pending)[..2], isLittleEndian);
      TypeWidths();
      assert twoByteArray[0..2] == twoByteArray[..];
      v := ToSigned(twoByteArray[0..2], isLittleEndian);
    }

    method ReadInt32() returns (v: int32)
      requires Valid() && |ringBufferStream.pending| >= 4
      modifies ringBufferStream, fourByteArray
      ensures v == TwosComplement(BigEndianValue(old(ringBufferStream.pending)[..4]), 4)
      ensures fourByteArray[..] == HostOrder(old(ringBufferStream.pending)[..4], isLittleEndian)
      ensures ringBufferStream.pending == old(ringBufferStream.pending)[4..]
      ensures ringBufferStream.position == old(ringBufferStream.position) + 4
    {
      FillBufferWithLock(fourByteArray, 4, true);
      FillOfExactWidth(old(fourByteArray[..]), old(ringBufferStream.pending)[..4], isLittleEndian);
      ReadsNetworkOrder(old(fourByteArray[..]), old(ringBufferStream.pending)[..4], isLittleEndian);
      TypeWidths();
      assert fourByteArray[0..4] == fourByteArray[..];
      v := ToSigned(fourByteArray[0..4], isLittleEndian);
    }

    method ReadInt64() returns (v: int64)
      requires Valid() && |ringBufferStream.pending| >= 8
      modifies ringBufferStream, eightByteArray
      ensures v == TwosComplement(BigEndianValue(old(ringBufferStream.pending)[..8]), 8)
      ensures eightByteArray[..] == HostOrder(old(ringBufferStream.pending)[..8], isLittleEndian)
      ensures ringBufferStream.pending == old(ringBufferStream.pending)[8..]
      ensures ringBufferStream.position == old(ringBufferStream.position) + 8
    {
      FillBufferWithLock(eightByteArray, 8, true);
      FillOfExactWidth(old(eightByteArray[..]), old(ringBufferStream.pending)[..8], isLittleEndian);
      ReadsNetworkOrder(old(eightByteArray[..]), old(ringBufferStream.pending)[..8], isLittleEndian);
      TypeWidths();
      assert eightByteArray[0..8] == eightByteArray[..];
      v := ToSigned(eightByteArray[0..8], isLittleEndian);
    }

    method ReadUInt16() returns (v: uint16)
      requires Valid() && |ringBufferStream.pending| >= 2
      modifies ringBufferStream, twoByteArray
      ensures v == BigEndianValue(old(ringBufferStream.pending)[..2])
      ensures twoByteArray[..] == HostOrder(old(ringBufferStream.pending)[..2], isLittleEndian)
      ensures ringBufferStream.pending == old(ringBufferStream.pending)[2..]
      ensures ringBufferStream.position == old(ringBufferStream.position) + 2
    {
      FillBufferWithLock(twoByteArray, 2, true);
      FillOfExactWidth(old(twoByteArray[..]), old(ringBufferStream.pending)[..2], isLittleEndian);
      ReadsNetworkOrder(old(twoByteArray[..]), old(ringBufferStream.pending)[..2], isLittleEndian);
      TypeWidths();
      assert twoByteArray[0..2] == twoByteArray[..];
      v := ToUnsigned(twoByteArray[0..2], isLittleEndian);
    }

    method ReadUInt32() returns (v: uint32)
      requires Valid() && |ringBufferStream.pending| >= 4
      modifies ringBufferStream, fourByteArray
      ensures v == BigEndianValue(old(ringBufferStream.pending)[..4])
      ensures fourByteArray[..] == HostOrder(old(ringBufferStream.pending)[..4], isLittleEndian)
      ensures ringBufferStream.pending == old(ringBufferStream.pending)[4..]
      ensures ringBufferStream.position == old(ringBufferStream.position) + 4
    {
      FillBufferWithLock(fourByteArray, 4, true);
      FillOfExactWidth(old(fourByteArray[..]), old(ringBufferStream.pending)[..4], isLittleEndian);
      ReadsNetworkOrder(old(fourByteArray[..]), old(ringBufferStream.pending)[..4], isLittleEndian);
      TypeWidths();
      assert fourByteArray[0..4] == fourByteArray[..];
      v := ToUnsigned(fourByteArray[0..4], isLittleEndian);
    }

    method ReadUInt64() returns (v: uint64)
      requires Valid() && |ringBufferStream.pending| >= 8
      modifies ringBufferStream, eightByteArray
      ensures v == BigEndianValue(old(ringBufferStream.pending)[..8])
      ensures eightByteArray[..] == HostOrder(old(ringBufferStream.pending)[..8], isLittleEndian)
      ensures ringBufferStream.pending == old(ringBufferStream.pending)[8..]
      ensures ringBufferStream.position == old(ringBufferStream.position) + 8
    {
      FillBufferWithLock(eightByteArray, 8, true);
      FillOfExactWidth(old(eightByteArray[..]), old(ringBufferStream.pending)[..8], isLittleEndian);
      ReadsNetworkOrder(old(eightByteArray[..]), old(ringBufferStream.pending)[..8], isLittleEndian);
      TypeWidths();
      assert eightByteArray[0..8] == eightByteArray[..];
      v := ToUnsigned(eightByteArray[0..8], isLittleEndian);
    }
  }
}
