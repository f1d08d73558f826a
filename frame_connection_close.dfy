/** src/quic/packets/frames/connection_close.rs: CONNECTION_CLOSE, an error code and a reason phrase. */
module FrameConnectionClose {
  import opened ByteOrder
  import opened Options
  import opened Errors
  import opened Cursor
  import opened PacketUtils
  import Seqs
  import opened FrameUtils

  const FRAME_CONNECTION_CLOSE: u8 := 0x02

  datatype ConnectionCloseFrame = ConnectionCloseFrame(errorCode: u32, reasonPhrase: ReasonPhrase)

  predicate CanEncode(f: ConnectionCloseFrame) {
    CanEncodeReasonPhrase(f.reasonPhrase)
  }

  /** The type byte, the big-endian error code, then the length-prefixed reason phrase. */
  function Encode(f: ConnectionCloseFrame): (r: seq<u8>)
    requires CanEncode(f)
    ensures |r| >= 7 && r[0] == FRAME_CONNECTION_CLOSE
    ensures r[1..5] == EncodeUint(f.errorCode, 4) && r[5..] == EncodeReasonPhrase(f.reasonPhrase)
  {
    Pow256Values();
    [FRAME_CONNECTION_CLOSE] + EncodeUint(f.errorCode, 4) + EncodeReasonPhrase(f.reasonPhrase)
  }

  /** EOF on the type byte is an io error; EOF anywhere after it is a decoding error. */
  function Decode(s: seq<u8>): (r: Result<Parsed<ConnectionCloseFrame>>)
    requires |s| == 0 || s[0] == FRAME_CONNECTION_CLOSE
    ensures |s| == 0 ==> r == Err(Io(EofError))
    ensures |s| > 0 && r.Err? ==> r.error.Decoding?
    ensures 0 < |s| < 7 ==> r.Err?
    ensures r.Ok? ==> r.value.value.reasonPhrase != Some([])
    ensures r.Ok? ==> CanEncode(r.value.value) && s == Encode(r.value.value) + r.value.rest
  {
    var frameType :- FromIo(ReadU8(s));
    var errorCode :- MapEof(ReadU32(frameType.rest));
    var reasonPhrase :- DecodeReasonPhrase(errorCode.rest);
    Seqs.Chain3(s, [frameType.value], frameType.rest, EncodeUint(errorCode.value, 4), errorCode.rest,
      EncodeReasonPhrase(reasonPhrase.value), reasonPhrase.rest);
    Ok(Parsed(ConnectionCloseFrame(errorCode.value, reasonPhrase.value), reasonPhrase.rest))
  }

  /** The round trip is exact except that an empty reason phrase comes back as none. */
  lemma DecodeEncode(f: ConnectionCloseFrame, rest: seq<u8>)
    requires CanEncode(f)
    ensures Decode(Encode(f) + rest)
      == Ok(Parsed(if f.reasonPhrase == Some([]) then f.(reasonPhrase := None) else f, rest))
  {
    Pow256Values();
    var b := EncodeReasonPhrase(f.reasonPhrase) + rest;
    var a := EncodeUint(f.errorCode, 4) + b;
    Seqs.Regroup3([FRAME_CONNECTION_CLOSE], EncodeUint(f.errorCode, 4), EncodeReasonPhrase(f.reasonPhrase), rest);
    ReadU8Encoded(FRAME_CONNECTION_CLOSE, a);
    ReadU32Encoded(f.errorCode, b);
    DecodeEncodeReasonPhrase(f.reasonPhrase, rest);
  }

  /** The decoding test's frame whose reason phrase announces five bytes but
      carries four (src/tests/quic/frames/connection_close.rs:76-87). */
  lemma TruncatedVector(s: seq<u8>)
    requires s == [0x02, 0x00, 0x00, 0x00, 0x2A, 0x00, 0x05, 0x68, 0x65, 0x6C, 0x6C]
    ensures Decode(s).Err? && Decode(s).error.Decoding?
  {
    var body := s[5..];
    assert body == [0x00, 0x05, 0x68, 0x65, 0x6C, 0x6C];
    assert DecodeUint(body[..2]) == 5 by {
      assert body[..2] == [0x00, 0x05];
      assert [0x00, 0x05][..1] == [0x00];
      assert [0x00][..0] == [];
    }
    assert DecodeReasonPhrase(body).Err?;
    assert ReadU32(s[1..]).IoOk? && ReadU32(s[1..]).value.rest == body;
  }
}
