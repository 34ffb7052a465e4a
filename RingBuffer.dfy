/**
 * The inbound stream the reader consumes: the stream adapter over the socket's
 * receive ring buffer. Only what the reader observes is kept: the bytes written
 * into the ring buffer and not yet read, oldest first, and the running count of
 * bytes read. A read hands over between one byte and the number requested;
 * how many depends on the ring buffer's layout and on what the receive pump has
 * delivered so far, so the model leaves the number open.
 */
module RingBuffer {
  import opened ByteOrder

  class RingBufferStreamAdapter {
    /** Bytes delivered into the ring buffer and not yet read, in arrival order. */
    var pending: seq<byte>
    /** Total number of bytes read through this adapter. */
    var position: nat

    constructor(delivered: seq<byte>)
      ensures pending == delivered && position == 0
    {
      pending := delivered;
      position := 0;
    }

    /**
     * Copies the next `read` pending bytes, 1 <= read <= count, into
     * buffer[offset..offset + read) and consumes them. The blocking wait for
     * a first byte is replaced by the requirement that one is pending.
     */
    method Read(buffer: array<byte>, offset: int, count: int) returns (read: int)
      requires 0 <= offset && 0 < count && offset + count <= buffer.Length
      requires pending != []
      modifies this, buffer
      ensures 0 < read <= count && read <= |old(pending)|
      ensures buffer[..] == old(buffer[..offset]) + old(pending[..read]) + old(buffer[offset + read..])
      ensures pending == old(pending[read..])
      ensures position == old(position) + read
    {
      read :| 0 < read <= count && read <= |pending|;
      forall i | 0 <= i < read {
        buffer[offset + i] := pending[i];
      }
      assert buffer[..] == old(buffer[..offset]) + pending[..read] + old(buffer[offset + read..]);
      pending := pending[read..];
      position := position + read;
    }
  }
}
