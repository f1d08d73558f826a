/** src/quic/frames/blocked.rs: BLOCKED, the type byte and a stream id. */
module FrameBlocked {
  import opened ByteOrder
  import opened Errors
  import opened Cursor
  import opened PacketUtils

  const FRAME_BLOCKED: u8 := 0x05

  datatype BlockedFrame = BlockedFrame(streamId: u32)

  function Encode(f: BlockedFrame): (r: seq<u8>)
    ensures |r| == 5 && r[0] == FRAME_BLOCKED && r[1..] == EncodeUint(f.streamId, 4)
  {
    Pow256Values();
    [FRAME_BLOCKED] + EncodeUint(f.streamId, 4)
  }

  /** Both reads, the type byte included, map EOF to a decoding error; decoding
      panics when called on another type byte. */
  function Decode(s: seq<u8>): (r: Result<Parsed<BlockedFrame>>)
    requires |s| == 0 || s[0] == FRAME_BLOCKED
    ensures r.Ok? <==> |s| >= 5
    ensures r.Err? ==> r.error.Decoding?
    ensures r.Ok? ==> s == Encode(r.value.value) + r.value.rest
  {
    var frameType :- MapEof(ReadU8(s));
    var streamId :- MapEof(ReadU32(frameType.rest));
    Ok(Parsed(BlockedFrame(streamId.value), streamId.rest))
  }

  lemma DecodeEncode(f: BlockedFrame, rest: seq<u8>)
    ensures Decode(Encode(f) + rest) == Ok(Parsed(f, rest))
  {
    Pow256Values();
    var a := EncodeUint(f.streamId, 4) + rest;
    assert Encode(f) + rest == [FRAME_BLOCKED] + a;
    ReadU8Encoded(FRAME_BLOCKED, a);
    ReadU32Encoded(f.streamId, rest);
  }
}
