/**
 * src/quic/engine/stream.rs: the send side of a stream.  Bytes the application
 * writes are buffered, and a drain hands out everything buffered together with
 * the stream offset it starts at.
 */
module Streams {
  import opened ByteOrder

  datatype StreamState = Idle | Open | RemoteClosed | LocalClosed | Closed

  class Stream {
    var id: u32
    var state: StreamState
    var outgoingBuffer: seq<u8>
    /** The stream offset of the first byte not yet drained. */
    var sentOffset: nat

    /** Every byte written to the stream, in order. */
    ghost var written: seq<u8>
    /** Every byte drained from the stream, in order. */
    ghost var drained: seq<u8>

    /** What was written is what was drained followed by what is buffered, and
        the sent offset counts the drained bytes. */
    ghost predicate Valid()
      reads this
    {
      written == drained + outgoingBuffer && sentOffset == |drained|
    }

    /** `Stream::new`: an idle stream with nothing buffered at offset 0. */
    constructor (id: u32)
      ensures Valid()
      ensures this.id == id && state == Idle && outgoingBuffer == [] && sentOffset == 0
      ensures written == [] && drained == []
    {
      this.id := id;
      outgoingBuffer := [];
      sentOffset := 0;
      state := Idle;
      written := [];
      drained := [];
    }

    /** `Stream::extend_buf`: the bytes go to the end of the buffer and the
        stream is open, whatever its state was. */
    method ExtendBuf(buf: seq<u8>)
      requires Valid()
      modifies this
      ensures Valid()
      ensures outgoingBuffer == old(outgoingBuffer) + buf && state == Open
      ensures id == old(id) && sentOffset == old(sentOffset)
      ensures written == old(written) + buf && drained == old(drained)
    {
      outgoingBuffer := outgoingBuffer + buf;
      state := StreamState.Open;
      written := written + buf;
    }

    /** `Stream::drain_outgoing_buffer`: the offset of the first buffered byte
        and all buffered bytes; the buffer is left empty and the sent offset
        moves past the bytes handed out. */
    method DrainOutgoingBuffer() returns (offset: nat, data: seq<u8>)
      requires Valid()
      modifies this
      ensures Valid()
      ensures offset == old(sentOffset) && data == old(outgoingBuffer)
      ensures outgoingBuffer == [] && sentOffset == offset + |data|
      ensures id == old(id) && state == old(state)
      ensures written == old(written) && drained == old(drained) + data && drained == written
    {
      offset := sentOffset;
      sentOffset := sentOffset + |outgoingBuffer|;
      data := outgoingBuffer;
      outgoingBuffer := [];
      drained := drained + data;
    }
  }

  /** Two writes with a drain after each: the chunks are handed out at
      consecutive offsets and together are the bytes written. */
  method WriteDrainTwice(s: Stream, a: seq<u8>, b: seq<u8>)
    returns (o1: nat, d1: seq<u8>, o2: nat, d2: seq<u8>)
    requires s.Valid() && s.outgoingBuffer == []
    modifies s
    ensures o1 == old(s.sentOffset) && o2 == o1 + |d1|
    ensures d1 == a && d2 == b && s.sentOffset == o2 + |b|
    ensures s.drained == old(s.drained) + a + b && s.id == old(s.id)
  {
    s.ExtendBuf(a);
    o1, d1 := s.DrainOutgoingBuffer();
    s.ExtendBuf(b);
    o2, d2 := s.DrainOutgoingBuffer();
  }
}
