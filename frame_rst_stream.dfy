/** src/quic/packets/frames/rst_stream.rs: RST_STREAM, 17 bytes of fixed layout. */
module FrameRstStream {
  import opened ByteOrder
  import opened Errors
  import opened Cursor
  import opened PacketUtils
  import Seqs

  const FRAME_RST_STREAM: u8 := 0x01

  datatype RstStreamFrame = RstStreamFrame(errorCode: u32, streamId: u32, finalOffset: u64)

  /** The type byte, then error code, stream id and final offset, big-endian. */
  function Encode(f: RstStreamFrame): (r: seq<u8>)
    ensures |r| == 17 && r[0] == FRAME_RST_STREAM
    ensures r[1..5] == EncodeUint(f.errorCode, 4) && r[5..9] == EncodeUint(f.streamId, 4)
    ensures r[9..] == EncodeUint(f.finalOffset, 8)
  {
    Pow256Values();
    [FRAME_RST_STREAM] + EncodeUint(f.errorCode, 4) + EncodeUint(f.streamId, 4)
      + EncodeUint(f.finalOffset, 8)
  }

  /** EOF on the type byte is an io error; EOF in any later field is a decoding error. */
  function Decode(s: seq<u8>): (r: Result<Parsed<RstStreamFrame>>)
    requires |s| == 0 || s[0] == FRAME_RST_STREAM
    ensures r.Ok? <==> |s| >= 17
    ensures |s| == 0 ==> r == Err(Io(EofError))
    ensures 0 < |s| < 17 ==> r.Err? && r.error.Decoding?
    ensures r.Ok? ==> s == Encode(r.value.value) + r.value.rest
  {
    var frameType :- FromIo(ReadU8(s));
    var errorCode :- MapEof(ReadU32(frameType.rest));
    var streamId :- MapEof(ReadU32(errorCode.rest));
    var finalOffset :- MapEof(ReadU64(streamId.rest, 8));
    Seqs.Chain4(s, [frameType.value], frameType.rest, EncodeUint(errorCode.value, 4), errorCode.rest,
      EncodeUint(streamId.value, 4), streamId.rest, EncodeUint(finalOffset.value, 8), finalOffset.rest);
    Ok(Parsed(RstStreamFrame(errorCode.value, streamId.value, finalOffset.value), finalOffset.rest))
  }

  lemma DecodeEncode(f: RstStreamFrame, rest: seq<u8>)
    ensures Decode(Encode(f) + rest) == Ok(Parsed(f, rest))
  {
    Pow256Values();
    var c := EncodeUint(f.finalOffset, 8) + rest;
    var b := EncodeUint(f.streamId, 4) + c;
    var a := EncodeUint(f.errorCode, 4) + b;
    Seqs.Regroup4([FRAME_RST_STREAM], EncodeUint(f.errorCode, 4), EncodeUint(f.streamId, 4),
      EncodeUint(f.finalOffset, 8), rest);
    ReadU8Encoded(FRAME_RST_STREAM, a);
    ReadU32Encoded(f.errorCode, b);
    ReadU32Encoded(f.streamId, c);
    ReadU64Encoded(f.finalOffset, 8, rest);
  }
}
