/** src/quic/frames/goaway.rs: GOAWAY, an error code, the last good stream id and a reason phrase. */
module FrameGoAway {
  import opened ByteOrder
  import opened Options
  import opened Errors
  import opened Cursor
  import opened PacketUtils
  import Seqs
  import opened FrameUtils

  const FRAME_GOAWAY: u8 := 0x03

  datatype GoAwayFrame = GoAwayFrame(errorCode: u32, lastGoodStreamId: u32, reasonPhrase: ReasonPhrase)

  predicate CanEncode(f: GoAwayFrame) {
    CanEncodeReasonPhrase(f.reasonPhrase)
  }

  /** The type byte, error code and last good stream id big-endian, then the reason phrase. */
  function Encode(f: GoAwayFrame): (r: seq<u8>)
    requires CanEncode(f)
    ensures |r| >= 11 && r[0] == FRAME_GOAWAY
    ensures r[1..5] == EncodeUint(f.errorCode, 4) && r[5..9] == EncodeUint(f.lastGoodStreamId, 4)
    ensures r[9..] == EncodeReasonPhrase(f.reasonPhrase)
  {
    Pow256Values();
    [FRAME_GOAWAY] + EncodeUint(f.errorCode, 4) + EncodeUint(f.lastGoodStreamId, 4)
      + EncodeReasonPhrase(f.reasonPhrase)
  }

  /** Every read, the type byte included, maps EOF to a decoding error. */
  function Decode(s: seq<u8>): (r: Result<Parsed<GoAwayFrame>>)
    requires |s| == 0 || s[0] == FRAME_GOAWAY
    ensures r.Err? ==> r.error.Decoding?
    ensures |s| < 11 ==> r.Err?
    ensures r.Ok? ==> r.value.value.reasonPhrase != Some([])
    ensures r.Ok? ==> CanEncode(r.value.value) && s == Encode(r.value.value) + r.value.rest
  {
    var frameType :- MapEof(ReadU8(s));
    var errorCode :- MapEof(ReadU32(frameType.rest));
    var lastGoodStreamId :- MapEof(ReadU32(errorCode.rest));
    var reasonPhrase :- DecodeReasonPhrase(lastGoodStreamId.rest);
    Seqs.Chain4(s, [frameType.value], frameType.rest, EncodeUint(errorCode.value, 4), errorCode.rest,
      EncodeUint(lastGoodStreamId.value, 4), lastGoodStreamId.rest,
      EncodeReasonPhrase(reasonPhrase.value), reasonPhrase.rest);
    Ok(Parsed(GoAwayFrame(errorCode.value, lastGoodStreamId.value, reasonPhrase.value), reasonPhrase.rest))
  }

  /** The round trip is exact except that an empty reason phrase comes back as none. */
  lemma DecodeEncode(f: GoAwayFrame, rest: seq<u8>)
    requires CanEncode(f)
    ensures Decode(Encode(f) + rest)
      == Ok(Parsed(if f.reasonPhrase == Some([]) then f.(reasonPhrase := None) else f, rest))
  {
    Pow256Values();
    var c := EncodeReasonPhrase(f.reasonPhrase) + rest;
    var b := EncodeUint(f.lastGoodStreamId, 4) + c;
    var a := EncodeUint(f.errorCode, 4) + b;
    Seqs.Regroup4([FRAME_GOAWAY], EncodeUint(f.errorCode, 4), EncodeUint(f.lastGoodStreamId, 4),
      EncodeReasonPhrase(f.reasonPhrase), rest);
    ReadU8Encoded(FRAME_GOAWAY, a);
    ReadU32Encoded(f.errorCode, b);
    ReadU32Encoded(f.lastGoodStreamId, c);
    DecodeEncodeReasonPhrase(f.reasonPhrase, rest);
  }

  /** The decoding test's frame whose reason phrase announces five bytes but
      carries four (src/tests/quic/frames/goaway.rs:84-96). */
  lemma TruncatedVector(s: seq<u8>)
    requires s == [0x03, 0x00, 0x00, 0x00, 0x2A, 0x00, 0x00, 0x00, 0x20, 0x00, 0x05, 0x68, 0x65, 0x6C, 0x6C]
    ensures Decode(s).Err? && Decode(s).error.Decoding?
  {
    var body := s[9..];
    assert body == [0x00, 0x05, 0x68, 0x65, 0x6C, 0x6C];
    assert DecodeUint(body[..2]) == 5 by {
      assert body[..2] == [0x00, 0x05];
      assert [0x00, 0x05][..1] == [0x00];
      assert [0x00][..0] == [];
    }
    assert DecodeReasonPhrase(body).Err?;
    assert ReadU32(s[1..]).IoOk? && ReadU32(s[1..]).value.rest == s[5..];
    assert ReadU32(s[5..]).IoOk? && ReadU32(s[5..]).value.rest == body;
  }
}
