/** src/quic/packets/frames/stop_waiting.rs: STOP_WAITING, a delta in packet-number width. */
module FrameStopWaiting {
  import opened ByteOrder
  import opened Errors
  import opened Cursor
  import opened PacketUtils
  import opened FrameUtils

  const FRAME_STOP_WAITING: u8 := 0x06

  datatype StopWaitingFrame = StopWaitingFrame(leastAckedDelta: u64)

  /** The encoder checks the packet-number size and does not truncate: `write_uint`
      panics on a delta that does not fit. */
  predicate CanEncode(f: StopWaitingFrame, packetNumberSize: nat) {
    ValidPacketNumberSize(packetNumberSize) && f.leastAckedDelta < Pow256(packetNumberSize)
  }

  function Encode(f: StopWaitingFrame, packetNumberSize: nat): (r: seq<u8>)
    requires CanEncode(f, packetNumberSize)
    ensures |r| == 1 + packetNumberSize && r[0] == FRAME_STOP_WAITING
    ensures r[1..] == EncodeUint(f.leastAckedDelta, packetNumberSize)
  {
    [FRAME_STOP_WAITING] + EncodeUint(f.leastAckedDelta, packetNumberSize)
  }

  /** The decoder does not check the size; `read_uint` accepts 1 to 8 bytes. */
  function Decode(s: seq<u8>, packetNumberSize: nat): (r: Result<Parsed<StopWaitingFrame>>)
    requires |s| == 0 || s[0] == FRAME_STOP_WAITING
    requires 1 <= packetNumberSize <= 8
    ensures r.Ok? <==> |s| >= 1 + packetNumberSize
    ensures |s| == 0 ==> r == Err(Io(EofError))
    ensures 0 < |s| < 1 + packetNumberSize ==> r.Err? && r.error.Decoding?
    ensures r.Ok? ==> r.value.value.leastAckedDelta < Pow256(packetNumberSize)
    ensures r.Ok? ==> s == [FRAME_STOP_WAITING] + EncodeUint(r.value.value.leastAckedDelta, packetNumberSize) + r.value.rest
  {
    var frameType :- FromIo(ReadU8(s));
    var delta :- MapEof(ReadU64(frameType.rest, packetNumberSize));
    Ok(Parsed(StopWaitingFrame(delta.value), delta.rest))
  }

  lemma DecodeEncode(f: StopWaitingFrame, packetNumberSize: nat, rest: seq<u8>)
    requires CanEncode(f, packetNumberSize)
    ensures Decode(Encode(f, packetNumberSize) + rest, packetNumberSize) == Ok(Parsed(f, rest))
  {
    var a := EncodeUint(f.leastAckedDelta, packetNumberSize) + rest;
    assert Encode(f, packetNumberSize) + rest == [FRAME_STOP_WAITING] + a;
    ReadU8Encoded(FRAME_STOP_WAITING, a);
    ReadU64Encoded(f.leastAckedDelta, packetNumberSize, rest);
  }
}
