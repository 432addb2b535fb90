/** `FifoBuffer<BUF_SIZE>`: a fixed array whose first `used` bytes are the
    queued data; appends go at the end, pops shift the rest down. */
module Fifo {
  import opened Types

  class FifoBuffer {
    const bufSize: nat
    const buffer: array<u8>
    var used: nat

    ghost predicate Valid()
      reads this
    {
      buffer.Length == bufSize && used <= bufSize
    }

    /** `data()`: the filled part of the buffer. */
    function Data(): (r: seq<u8>)
      reads this, buffer
      requires Valid()
      ensures |r| == used
    {
      buffer[0..used]
    }

    /** `new()`: nothing queued. */
    constructor (size: nat)
      ensures Valid() && bufSize == size && fresh(buffer)
      ensures Data() == []
    {
      bufSize := size;
      buffer := new u8[size](_ => 0);
      used := 0;
    }

    /** `is_empty()`. */
    function IsEmpty(): (b: bool)
      reads this, buffer
      requires Valid()
      ensures b <==> Data() == []
    {
      used == 0
    }

    /** `len()`. */
    function Len(): (n: nat)
      reads this, buffer
      requires Valid()
      ensures n == |Data()| && n <= bufSize
    {
      used
    }

    /** `receive_buffer()`: the unfilled tail of the array. The caller writes into
        `buffer[used..]` and then reports the count with `Advance`. */
    function ReceiveBuffer(): (r: seq<u8>)
      reads this, buffer
      requires Valid()
      ensures |r| == bufSize - |Data()|
      ensures buffer[..] == Data() + r
    {
      buffer[used..]
    }

    /** `extend(buf)`: all or nothing; a `buf` larger than the free space is dropped whole. */
    method Extend(buf: seq<u8>)
      requires Valid()
      modifies this`used, buffer
      ensures Valid()
      ensures |buf| > old(bufSize - used) ==> Data() == old(Data()) && used == old(used)
      ensures |buf| <= old(bufSize - used) ==> Data() == old(Data()) + buf
    {
      if bufSize - used < |buf| {
        return;
      }
      var i := 0;
      while i < |buf|
        invariant 0 <= i <= |buf| && used == old(used) && Valid()
        invariant buffer[..used] == old(buffer[..used])
        invariant buffer[used..used + i] == buf[..i]
      {
        buffer[used + i] := buf[i];
        i := i + 1;
      }
      assert buffer[..used + |buf|] == buffer[..used] + buffer[used..used + |buf|];
      used := used + |buf|;
    }

    /** `advance(n)`: move the fill mark forward, clamped at the capacity. */
    method Advance(n: nat)
      requires Valid()
      modifies this`used
      ensures Valid()
      ensures used == Min(old(used) + n, bufSize)
      ensures Data() == buffer[..Min(old(used) + n, bufSize)]
    {
      used := Min(used + n, bufSize);
    }

    /** `pop(n)`: drop `min(n, len())` bytes from the front, moving the rest down. */
    method Pop(n: nat)
      requires Valid()
      modifies this`used, buffer
      ensures Valid()
      ensures Data() == old(Data())[Min(n, old(used))..]
    {
      var k := Min(n, used);
      var len := used - k;
      var i := 0;
      while i < len
        invariant 0 <= i <= len && used == old(used) && Valid()
        invariant forall j :: 0 <= j < i ==> buffer[j] == old(buffer[k + j])
        invariant forall j :: i <= j < buffer.Length ==> buffer[j] == old(buffer[j])
      {
        buffer[i] := buffer[k + i];
        i := i + 1;
      }
      assert forall j :: 0 <= j < len ==> buffer[..len][j] == old(Data())[k..][j];
      used := len;
    }
  }

  /** The driver loop's receive step (`read_packet(buf.receive_buffer())` then
      `advance(n)`): bytes written into the unfilled tail and then reported with
      `Advance` are appended to the queued data. */
  method ReadPacket(fifo: FifoBuffer, packet: seq<u8>)
    requires fifo.Valid()
    requires |packet| <= |fifo.ReceiveBuffer()|
    modifies fifo, fifo.buffer
    ensures fifo.Valid()
    ensures fifo.Data() == old(fifo.Data()) + packet
  {
    var start := fifo.used;
    var i := 0;
    while i < |packet|
      invariant 0 <= i <= |packet| && fifo.used == start && fifo.Valid()
      invariant fifo.buffer[..start] == old(fifo.buffer[..start])
      invariant fifo.buffer[start..start + i] == packet[..i]
    {
      fifo.buffer[start + i] := packet[i];
      i := i + 1;
    }
    fifo.Advance(|packet|);
    assert fifo.buffer[..start + |packet|] == fifo.buffer[..start] + fifo.buffer[start..start + |packet|];
  }
}
