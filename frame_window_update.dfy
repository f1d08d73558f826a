/** src/quic/frames/window_update.rs: WINDOW_UPDATE, 13 bytes of fixed layout. */
module FrameWindowUpdate {
  import opened ByteOrder
  import opened Errors
  import opened Cursor
  import opened PacketUtils

  const FRAME_WINDOW_UPDATE: u8 := 0x04

  datatype WindowUpdateFrame = WindowUpdateFrame(streamId: u32, byteOffset: u64)

  /** The type byte, the stream id and the byte offset, big-endian. */
  function Encode(f: WindowUpdateFrame): (r: seq<u8>)
    ensures |r| == 13 && r[0] == FRAME_WINDOW_UPDATE
    ensures r[1..5] == EncodeUint(f.streamId, 4) && r[5..] == EncodeUint(f.byteOffset, 8)
  {
    Pow256Values();
    [FRAME_WINDOW_UPDATE] + EncodeUint(f.streamId, 4) + EncodeUint(f.byteOffset, 8)
  }

  /** EOF on the type byte is an io error; EOF in a later field is a decoding error. */
  function Decode(s: seq<u8>): (r: Result<Parsed<WindowUpdateFrame>>)
    requires |s| == 0 || s[0] == FRAME_WINDOW_UPDATE
    ensures r.Ok? <==> |s| >= 13
    ensures |s| == 0 ==> r == Err(Io(EofError))
    ensures 0 < |s| < 13 ==> r.Err? && r.error.Decoding?
    ensures r.Ok? ==> s == Encode(r.value.value) + r.value.rest
  {
    var frameType :- FromIo(ReadU8(s));
    var streamId :- MapEof(ReadU32(frameType.rest));
    var byteOffset :- MapEof(ReadU64(streamId.rest, 8));
    Ok(Parsed(WindowUpdateFrame(streamId.value, byteOffset.value), byteOffset.rest))
  }

  lemma DecodeEncode(f: WindowUpdateFrame, rest: seq<u8>)
    ensures Decode(Encode(f) + rest) == Ok(Parsed(f, rest))
  {
    Pow256Values();
    var b := EncodeUint(f.byteOffset, 8) + rest;
    var a := EncodeUint(f.streamId, 4) + b;
    assert Encode(f) + rest == [FRAME_WINDOW_UPDATE] + a;
    ReadU8Encoded(FRAME_WINDOW_UPDATE, a);
    ReadU32Encoded(f.streamId, b);
    ReadU64Encoded(f.byteOffset, 8, rest);
  }
}
