/** src/quic/frames/ping.rs: the one-byte PING frame. */
module FramePing {
  import opened ByteOrder
  import opened Errors
  import opened Cursor
  import opened PacketUtils

  const FRAME_PING: u8 := 0x07

  datatype PingFrame = PingFrame

  function Encode(f: PingFrame): (r: seq<u8>)
    ensures r == [FRAME_PING]
  {
    [FRAME_PING]
  }

  /** `PingFrame::decode` as the source has it.  Decoding asserts that it was
      called on a PING type byte; an empty input is reported as the io error
      itself (`?` on `read_u8`). */
  function DecodeAsWritten(s: seq<u8>): (r: Result<Parsed<PingFrame>>)
    requires |s| == 0 || s[0] == FRAME_PING
    ensures r.Ok? <==> |s| >= 1
    ensures r.Err? ==> r.error == Io(EofError)
    ensures r.Ok? ==> s == Encode(r.value.value) + r.value.rest
  {
    var frameType :- FromIo(ReadU8(s));
    Ok(Parsed(PingFrame, frameType.rest))
  }

  /** `PingFrame::decode` as its test expects it: running out of input is a
      decoding error, as in every other frame decoder that maps end of input
      with `map_unexpected_eof`.  On a non-empty input it is the source's
      decoder. */
  function Decode(s: seq<u8>): (r: Result<Parsed<PingFrame>>)
    requires |s| == 0 || s[0] == FRAME_PING
    ensures r.Ok? <==> |s| >= 1
    ensures r.Err? ==> r.error.Decoding?
    ensures r.Ok? ==> s == Encode(r.value.value) + r.value.rest
    ensures |s| >= 1 ==> r == DecodeAsWritten(s)
  {
    var frameType :- MapEof(ReadU8(s));
    Ok(Parsed(PingFrame, frameType.rest))
  }

  /** The empty input of src/tests/quic/frames/ping.rs:33-39: the source's
      decoder reports the io end of file, the corrected one `Decoding`. */
  lemma EmptyInputVector()
    ensures DecodeAsWritten([]) == Err(Io(EofError))
    ensures Decode([]).Err? && Decode([]).error.Decoding?
  {
  }

  lemma DecodeEncode(f: PingFrame, rest: seq<u8>)
    ensures Decode(Encode(f) + rest) == Ok(Parsed(f, rest))
    ensures DecodeAsWritten(Encode(f) + rest) == Ok(Parsed(f, rest))
  {
    assert (Encode(f) + rest)[1..] == rest;
  }
}
