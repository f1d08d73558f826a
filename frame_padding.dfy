/** src/quic/packets/frames/padding.rs: the one-byte PADDING frame. */
module FramePadding {
  import opened ByteOrder
  import opened Errors
  import opened Cursor

  const FRAME_PADDING: u8 := 0x00

  datatype PaddingFrame = PaddingFrame

  function Encode(f: PaddingFrame): (r: seq<u8>)
    ensures r == [FRAME_PADDING]
  {
    [FRAME_PADDING]
  }

  /** Decoding asserts that it was called on a PADDING type byte; an empty input
      is reported as the io error itself (`?` on `read_u8`). */
  function Decode(s: seq<u8>): (r: Result<Parsed<PaddingFrame>>)
    requires |s| == 0 || s[0] == FRAME_PADDING
    ensures r.Ok? <==> |s| >= 1
    ensures r.Err? ==> r.error == Io(EofError)
    ensures r.Ok? ==> s == Encode(r.value.value) + r.value.rest
  {
    var frameType :- FromIo(ReadU8(s));
    Ok(Parsed(PaddingFrame, frameType.rest))
  }

  lemma DecodeEncode(f: PaddingFrame, rest: seq<u8>)
    ensures Decode(Encode(f) + rest) == Ok(Parsed(f, rest))
  {
    assert (Encode(f) + rest)[1..] == rest;
  }
}
