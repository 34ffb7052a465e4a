# Big-endian primitive reader of RabbitMqNext

This project models the reader that decodes fixed-width integers off a
connection's inbound byte stream in network byte order (big-endian), as
AMQP 0-9-1 requires for its integer fields (section 4.2.5 of the AMQP 0-9-1
specification). The reader is `InternalBigEndianReader`. It owns one scratch
array per width (1, 2, 4 and 8 bytes). Every read does two steps:

- **Fill.** `FillBufferWithLock` loops over partial reads of the stream adapter
  until exactly `count` bytes are in the array.
- **Reverse.** On a little-endian host it reverses the array in place.
  `BitConverter` then interprets the array in host order.

The model is imperative where the source is. `InternalBigEndianReader` is a
class with the four scratch arrays as `array<byte>` fields. `FillBufferWithLock`
keeps its `while` loop over partial reads. The swap loop is the method
`ReverseInPlace`, which keeps the source's index arithmetic and its early exit.
Every method is proved against specification functions:

- `Filled` is the buffer after a fill.
- `Reversed` is the reversal of a byte string.
- `LittleEndianValue` and `BigEndianValue` are the two readings of a byte string.
- `BitConverter.ToUnsigned` and `ToSigned` are BitConverter's host-order
  conversions. `TwosComplement` is the signed reinterpretation.

Lemmas prove what these functions mean:

- Reversing and then reading little-endian gives the big-endian value.
- Big-endian encoding and decoding are inverse.
- Two's complement is the inverse of taking a signed value's bits.
- A fill leaves the fresh bytes in stream order or in host order, according to
  the case.

Modules:

- `ByteOrder`: bytes, reversal, little- and big-endian values, and the
  big-endian encoding a peer sends.
- `BitConverter`: the .NET integer types, BitConverter in host order, and two's
  complement.
- `RingBuffer`: the stream adapter `RingBufferStreamAdapter`, reduced to the
  bytes delivered and not yet read, plus the running `position`.
- `Internals`: the reader class, the swap loop, and the fill specification.
- `EchoClient`: the echo client's check that values written in network byte
  order read back unchanged. One reader over one stream reads bytes, then
  16-bit values, then 32-bit unsigned values. The same check is added for
  64-bit signed values.

Host byte order (`BitConverter.IsLittleEndian`) is a constructor parameter of
the reader (`isLittleEndian`). All results are proved for both host kinds.

Two details of the code that the model pins down:

- The reversal covers `buffer.Length`, not `count`
  (InternalBigEndianReader.cs:36). `Filled` models this as written.
  `FillOfExactWidth` shows that every reversing `Read*` method (`ReadInt16`
  to `ReadUInt64`), whose scratch array is exactly as long as its count, gets
  the fresh bytes in host order. `ReadByte` and `ReadSByte` fill without
  reversing, and `FillKeepsStreamOrder` shows they get the byte in stream order.
  `FillOfWiderBuffer` shows what a longer buffer would get: the fresh bytes
  reversed at the back and stale bytes at the front. No caller in the source
  passes a longer buffer.
- The echo client computes its 16-bit values as `i % ushort.MaxValue`, which is
  `i mod 65535` (Program.cs:100, 147). For the 10,000 values it sends this
  equals `i`. The read-back methods are proved for every sequence of values.

## Model

| member | source | states |
|---|---|---|
| `ByteOrder.BigEndianValue` | src/RabbitMqNext/Internals/InternalBigEndianReader.cs:93-109 | the network-order value of n bytes is below 256^n, so it fits the n-byte unsigned type the reader returns |
| `ByteOrder.LittleEndianValue` | src/RabbitMqNext/Internals/InternalBigEndianReader.cs:93-109 | the value BitConverter computes on a little-endian host is below 256^n |
| `ByteOrder.BigEndianBytes` | src/EchoClient/Program.cs:98-106 | the network-order encoding of a value that fits in `width` bytes is exactly `width` bytes long |
| `ByteOrder.Reversed` | src/RabbitMqNext/Internals/InternalBigEndianReader.cs:36-46 | the reversal of a byte string has the same length |
| `ByteOrder.ReversedAt` | src/RabbitMqNext/Internals/InternalBigEndianReader.cs:38-46 | the reversal keeps the length, and its byte k is the original byte len - 1 - k |
| `ByteOrder.ReversedReversed` | src/RabbitMqNext/Internals/InternalBigEndianReader.cs:36-46 | reversing twice gives the original bytes back |
| `ByteOrder.LittleEndianOfReversed` | src/RabbitMqNext/Internals/InternalBigEndianReader.cs:34-46 | reading the reversed bytes little-endian gives the big-endian value of the original bytes, which is why a little-endian host reverses |
| `ByteOrder.BigEndianRoundTrip` | src/EchoClient/Program.cs:98-106 | decoding the network-order encoding of v gives v |
| `ByteOrder.BigEndianBytesOfValue` | src/RabbitMqNext/Internals/InternalBigEndianReader.cs:93-109 | encoding the big-endian value of s in as many bytes as s has gives s back, so no two byte strings of one width decode to the same value |
| `BitConverter.ToUnsigned` | src/RabbitMqNext/Internals/InternalBigEndianReader.cs:93-109 | BitConverter's unsigned conversion of n bytes in host order is below 256^n |
| `BitConverter.TwosComplement` | src/RabbitMqNext/Internals/InternalBigEndianReader.cs:57-61 | the signed reinterpretation lies in the signed range of the width and differs from the unsigned value by 0 or 256^width |
| `BitConverter.ToSigned` | src/RabbitMqNext/Internals/InternalBigEndianReader.cs:75-91 | BitConverter's signed conversion lies in the signed range and has the same bits as the unsigned conversion of the same bytes |
| `BitConverter.SignedRoundTrip` | src/RabbitMqNext/Internals/InternalBigEndianReader.cs:75-91 | reinterpreting the bits of a signed value as signed gives the value back |
| `BitConverter.TwosComplementInjective` | src/RabbitMqNext/Internals/InternalBigEndianReader.cs:75-91 | distinct bit patterns of one width read as distinct signed values |
| `BitConverter.HostOrderIsBigEndian` | src/RabbitMqNext/Internals/InternalBigEndianReader.cs:34 | on either host kind, the network bytes placed in host order and converted by BitConverter give their big-endian value |
| `Internals.Filled` | src/RabbitMqNext/Internals/InternalBigEndianReader.cs:27-49 | a fill keeps the buffer's length |
| `Internals.FillKeepsStreamOrder` | src/RabbitMqNext/Internals/InternalBigEndianReader.cs:34 | when reverse is false, the host is big-endian or count is at most 1, the buffer starts with the fresh bytes in stream order and keeps the rest |
| `Internals.FillOfExactWidth` | src/RabbitMqNext/Internals/InternalBigEndianReader.cs:36 | a reversing fill of a buffer exactly count bytes long leaves the fresh bytes in host order |
| `Internals.ReadsNetworkOrder` | src/RabbitMqNext/Internals/InternalBigEndianReader.cs:93-109 | a reversing fill of an exact-width scratch array, converted by BitConverter, gives the big-endian value of the fresh bytes |
| `Internals.FillOfWiderBuffer` | src/RabbitMqNext/Internals/InternalBigEndianReader.cs:36-46 | a reversing fill of a buffer longer than count puts the fresh bytes, reversed, at the back and reversed stale bytes at the front |
| `Internals.ReverseInPlace` | src/RabbitMqNext/Internals/InternalBigEndianReader.cs:36-46 | the swap loop over i < len / 2 leaves the array as the reversal of its prior contents; the early exit when the two indices meet is never taken |
| `Internals.InternalBigEndianReader.constructor` | src/RabbitMqNext/Internals/InternalBigEndianReader.cs:14-23 | the reader keeps its stream and gets four new scratch arrays of 1, 2, 4 and 8 bytes |
| `Internals.InternalBigEndianReader.FillBufferWithLock` | src/RabbitMqNext/Internals/InternalBigEndianReader.cs:27-49 | exactly count bytes leave the stream and nothing else; the position advances by count; the buffer becomes those bytes followed by its old tail, reversed as a whole when reversing |
| `Internals.InternalBigEndianReader.ReadByte` | src/RabbitMqNext/Internals/InternalBigEndianReader.cs:51-55 | returns the next stream byte, consumes exactly it, and leaves it unreordered in the one-byte array |
| `Internals.InternalBigEndianReader.ReadSByte` | src/RabbitMqNext/Internals/InternalBigEndianReader.cs:57-61 | returns the two's-complement reinterpretation of the byte ReadByte returns, consumes exactly that byte, and leaves it unreordered in the one-byte array |
| `Internals.InternalBigEndianReader.ReadInt16` | src/RabbitMqNext/Internals/InternalBigEndianReader.cs:75-79 | returns the two's-complement reading of the big-endian value of the next 2 bytes and consumes them |
| `Internals.InternalBigEndianReader.ReadInt32` | src/RabbitMqNext/Internals/InternalBigEndianReader.cs:81-85 | returns the two's-complement reading of the big-endian value of the next 4 bytes and consumes them |
| `Internals.InternalBigEndianReader.ReadInt64` | src/RabbitMqNext/Internals/InternalBigEndianReader.cs:87-91 | returns the two's-complement reading of the big-endian value of the next 8 bytes and consumes them |
| `Internals.InternalBigEndianReader.ReadUInt16` | src/RabbitMqNext/Internals/InternalBigEndianReader.cs:93-97 | returns the big-endian value of the next 2 bytes, consumes them, and leaves them in host order in the scratch array |
| `Internals.InternalBigEndianReader.ReadUInt32` | src/RabbitMqNext/Internals/InternalBigEndianReader.cs:99-103 | returns the big-endian value of the next 4 bytes, consumes them, and leaves them in host order in the scratch array |
| `Internals.InternalBigEndianReader.ReadUInt64` | src/RabbitMqNext/Internals/InternalBigEndianReader.cs:105-109 | returns the big-endian value of the next 8 bytes, consumes them, and leaves them in host order in the scratch array |
| `RingBuffer.RingBufferStreamAdapter.Read` | src/RabbitMqNext/Internals/InternalBigEndianReader.cs:32 | a partial read copies between 1 and count of the next pending bytes to buffer[offset..], consumes them, and changes nothing else |
| `EchoClient.Wire` | src/EchoClient/Program.cs:93-106 | the bytes a writer sends for n values of one width are width * n bytes long |
| `EchoClient.ReadBackBytes` | src/EchoClient/Program.cs:133-143 | reading back with ReadByte the bytes a writer sent gives exactly those bytes and leaves the stream at what follows them |
| `EchoClient.ReadBackUInt16s` | src/EchoClient/Program.cs:144-154 | reading back with ReadUInt16 the network-order encodings of 16-bit values gives exactly those values and leaves the stream at what follows them, on either host kind |
| `EchoClient.ReadBackUInt32s` | src/EchoClient/Program.cs:156-167 | reading back with ReadUInt32 the network-order encodings of 32-bit values gives exactly those values and leaves the stream at what follows them, on either host kind |
| `EchoClient.ReadFrames` | src/EchoClient/Program.cs:133-167 | through one reader over one stream, reading bytes, then 16-bit values, then 32-bit values gives back every value the writer sent, on either host kind |
| `EchoClient.ReadBackInt64s` | src/RabbitMqNext/Internals/InternalBigEndianReader.cs:87-91 | reading back with ReadInt64 the two's-complement bits of 64-bit values gives exactly those values, on either host kind |

## Left out

- `ReadSingle` and `ReadDouble` (InternalBigEndianReader.cs:63-73) are left out. They reinterpret bytes as IEEE-754 floating point, which this model does not cover. Their fill step is the same `FillBufferWithLock` call the integer readers make.
- `SkipBy` (InternalBigEndianReader.cs:111-114) is left out. It only delegates to the ring buffer's `Skip`, which returns a `Task`, and the ring buffer is not part of this model.
- The blocking and locking inside the stream adapter's `Read` are left out. A read that would wait for data is replaced by the requirement that enough bytes are pending: one for `Read`, `count` for `FillBufferWithLock`.
- RingBuffer.RingBufferStreamAdapter.Read: does not say how many bytes one partial read returns, only that it returns between 1 and the number requested. In the source this depends on the ring buffer's cursors, which are not part of this model.
- The writer side is left out: the primitive writer and the echo client's writer thread. Only the wire encoding a writer produces is modelled, by `BigEndianBytes` and `Wire`.
- Long strings (`ReadLongstr`, echo client lines 169-179) are left out. The AMQP primitive reader is not part of this model.
- The echo client's socket, DNS lookup, threads, console and Ctrl-C handling, and static state are left out. Only its value-checking loops are modelled.
- Internals.InternalBigEndianReader.FillBufferWithLock: requires `count <= buffer.Length`. A larger count makes the stream adapter write past the buffer, and the adapter's bounds check is not part of this model.
- Integer overflow of `totalRead` is not modelled. It cannot happen, because `totalRead` never exceeds `count`.
