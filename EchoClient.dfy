/**
 * What the echo client's reader thread checks: a writer sends a run of values,
 * each in network byte order, and a reader consuming the same widths in the
 * same order gets every value back. Here the stream is built directly from the
 * bytes the writer would send; the socket, the threads and the writer's own
 * code are not part of this model.
 */
module EchoClient {
  import opened ByteOrder
  import opened BitConverter
  import opened RingBuffer
  import opened Internals

  /** The bytes a writer sends for values, each as width big-endian bytes, in order. */
  function Wire(values: seq<nat>, width: nat): (r: seq<byte>)
    requires forall i :: 0 <= i < |values| ==> values[i] < Pow256(width)
    ensures |r| == width * |values|
  {
    if values == [] then []
    else
      var rest := Wire(values[1..], width);
      assert width * |values| == width + width * |values[1..]|;
      BigEndianBytes(values[0], width) + rest
  }

  /** The front of the wire for values is the encoding of values[0]. */
  lemma WireFront(values: seq<nat>, width: nat)
    requires values != []
    requires forall i :: 0 <= i < |values| ==> values[i] < Pow256(width)
    ensures Wire(values, width)[..width] == BigEndianBytes(values[0], width)
    ensures Wire(values, width)[width..] == Wire(values[1..], width)
  {
  }

  /** The echo client's byte loop: reads back, with ReadByte, bytes a writer sent, leaving what follows them. */
  method ReadBackBytes(reader: InternalBigEndianReader, values: seq<byte>, ghost following: seq<byte>)
    returns (received: seq<byte>)
    requires reader.Valid() && reader.ringBufferStream.pending == Wire(values, 1) + following
    modifies reader.ringBufferStream, reader.oneByteArray
    ensures received == values && reader.ringBufferStream.pending == following
  {
    received := [];
    for i := 0 to |values|
      invariant received == values[..i]
      invariant reader.ringBufferStream.pending == Wire(values[i..], 1) + following
    {
      var rest := values[i..];
      WireFront(rest, 1);
      assert (Wire(rest, 1) + following)[1..] == Wire(rest[1..], 1) + following;
      var b := reader.ReadByte();
      received := received + [b];
    }
    assert values[..|values|] == values;
  }

  /** The echo client's 16-bit loop: reads back, with ReadUInt16, values a writer sent in network byte order. */
  method ReadBackUInt16s(reader: InternalBigEndianReader, values: seq<uint16>, ghost following: seq<byte>)
    returns (received: seq<uint16>)
    requires reader.Valid() && reader.ringBufferStream.pending == Wire(values, 2) + following
    modifies reader.ringBufferStream, reader.twoByteArray
    ensures received == values && reader.ringBufferStream.pending == following
  {
    TypeWidths();
    received := [];
    for i := 0 to |values|
      invariant received == values[..i]
      invariant reader.ringBufferStream.pending == Wire(values[i..], 2) + following
    {
      var rest := values[i..];
      WireFront(rest, 2);
      BigEndianRoundTrip(rest[0], 2);
      assert (Wire(rest, 2) + following)[..2] == Wire(rest, 2)[..2];
      assert (Wire(rest, 2) + following)[2..] == Wire(rest[1..], 2) + following;
      var v := reader.ReadUInt16();
      received := received + [v];
    }
    assert values[..|values|] == values;
  }

  /** The echo client's 32-bit loop: reads back, with ReadUInt32, values a writer sent in network byte order. */
  method ReadBackUInt32s(reader: InternalBigEndianReader, values: seq<uint32>, ghost following: seq<byte>)
    returns (received: seq<uint32>)
    requires reader.Valid() && reader.ringBufferStream.pending == Wire(values, 4) + following
    modifies reader.ringBufferStream, reader.fourByteArray
    ensures received == values && reader.ringBufferStream.pending == following
  {
    TypeWidths();
    received := [];
    for i := 0 to |values|
      invariant received == values[..i]
      invariant reader.ringBufferStream.pending == Wire(values[i..], 4) + following
    {
      var rest := values[i..];
      WireFront(rest, 4);
      BigEndianRoundTrip(rest[0], 4);
      assert (Wire(rest, 4) + following)[..4] == Wire(rest, 4)[..4];
      assert (Wire(rest, 4) + following)[4..] == Wire(rest[1..], 4) + following;
      var v := reader.ReadUInt32();
      received := received + [v];
    }
    assert values[..|values|] == values;
  }

  /**
   * One iteration of the echo client's reader: through one reader over one
   * stream it reads, in order, the bytes, the 16-bit values and the 32-bit
   * values a writer sent, and gets every one of them back.
   */
  method ReadFrames(bytes: seq<byte>, shorts: seq<uint16>, ints: seq<uint32>, isLittleEndian: bool)
    returns (receivedBytes: seq<byte>, receivedShorts: seq<uint16>, receivedInts: seq<uint32>)
    ensures receivedBytes == bytes && receivedShorts == shorts && receivedInts == ints
  {
    TypeWidths();
    var stream := new RingBufferStreamAdapter(Wire(bytes, 1) + Wire(shorts, 2) + Wire(ints, 4));
    var reader := new InternalBigEndianReader(stream, isLittleEndian);
    receivedBytes := ReadBackBytes(reader, bytes, Wire(shorts, 2) + Wire(ints, 4));
    receivedShorts := ReadBackUInt16s(reader, shorts, Wire(ints, 4));
    receivedInts := ReadBackUInt32s(reader, ints, []);
  }

  /** Reads back, with ReadInt64, signed 64-bit values that a writer sent as their two's-complement bits. */
  method ReadBackInt64s(values: seq<int64>, isLittleEndian: bool) returns (received: seq<int64>)
    ensures received == values
  {
    TypeWidths();
    var bits := seq(|values|, i requires 0 <= i < |values| => UnsignedBits(values[i], 8));
    var stream := new RingBufferStreamAdapter(Wire(bits, 8));
    var reader := new InternalBigEndianReader(stream, isLittleEndian);
    received := [];
    for i := 0 to |values|
      invariant received == values[..i]
      invariant reader.Valid() && reader.ringBufferStream == stream
      invariant stream.pending == Wire(bits[i..], 8)
    {
      var rest := bits[i..];
      WireFront(rest, 8);
      BigEndianRoundTrip(rest[0], 8);
      SignedRoundTrip(values[i], 8);
      var v := reader.ReadInt64();
      received := received + [v];
    }
    assert values[..|values|] == values;
  }
}
