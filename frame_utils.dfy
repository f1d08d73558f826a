/** src/quic/packets/frames/utils.rs: reason phrases and packet-number sizes. */
module FrameUtils {
  import opened ByteOrder
  import opened Options
  import opened Errors
  import opened Cursor
  import opened PacketUtils
  import Seqs

  /** A reason phrase as the bytes of its text; `None` when there is none. */
  type ReasonPhrase = Option<seq<u8>>

  /** `encode_reason_phrase` panics when the phrase is longer than a u16 can count. */
  predicate CanEncodeReasonPhrase(phrase: ReasonPhrase) {
    phrase.Some? ==> |phrase.value| < 0x1_0000
  }

  /** `encode_reason_phrase`: a u16 length and the bytes; a missing phrase is length 0. */
  function EncodeReasonPhrase(phrase: ReasonPhrase): (r: seq<u8>)
    requires CanEncodeReasonPhrase(phrase)
    ensures |r| >= 2
    ensures phrase.None? ==> r == [0, 0]
    ensures phrase.Some? ==> |r| == 2 + |phrase.value| && r[2..] == phrase.value
  {
    Pow256Values();
    match phrase
    case None => EncodeUint(0, 2)
    case Some(text) => EncodeUint(|text|, 2) + text
  }

  /** `decode_reason_phrase`: a u16 length, then that many bytes; zero length is `None`.
      Running out of input is a decoding error. */
  function DecodeReasonPhrase(s: seq<u8>): (r: Result<Parsed<ReasonPhrase>>)
    ensures r.Ok? ==> r.value.value != Some([])
    ensures r.Ok? ==> CanEncodeReasonPhrase(r.value.value)
    ensures r.Ok? ==> s == EncodeReasonPhrase(r.value.value) + r.value.rest
    ensures r.Err? ==> r.error.Decoding?
    ensures r.Err? <==> |s| < 2 || |s| < 2 + DecodeUint(s[..2])
  {
    Pow256Values();
    var length :- MapEof(ReadU16(s));
    assert s[..2] == EncodeUint(length.value, 2) by {
      assert s == EncodeUint(length.value, 2) + length.rest;
    }
    DecodeEncodeUint(length.value, 2);
    if length.value != 0 then
      var text :- MapEof(ReadExact(length.rest, length.value));
      Ok(Parsed(Some(text.value), text.rest))
    else
      Ok(Parsed(None, length.rest))
  }

  /** Decoding an encoded reason phrase gives it back, except that an empty phrase
      comes back as no phrase at all (both are written as length 0). */
  lemma {:induction false} DecodeEncodeReasonPhrase(phrase: ReasonPhrase, rest: seq<u8>)
    requires CanEncodeReasonPhrase(phrase)
    ensures DecodeReasonPhrase(EncodeReasonPhrase(phrase) + rest)
      == Ok(Parsed(if phrase == Some([]) then None else phrase, rest))
  {
    match phrase
    case None =>
      ReadU16Encoded(0, rest);
    case Some(text) =>
      var n := |text|;
      Seqs.Assoc(EncodeUint(n, 2), text, rest);
      ReadU16Encoded(n, text + rest);
      if n != 0 {
        Seqs.SplitAt(text, rest);
      }
  }

  /** `check_packet_number_size`: packet numbers are 1, 2, 4 or 6 bytes long. */
  predicate ValidPacketNumberSize(size: nat) {
    size == 1 || size == 2 || size == 4 || size == 6
  }

  /** The 2-bit code the wire uses for a 1, 2, 4 or 6 byte field. */
  function SizeFromCode(code: nat): (size: nat)
    requires code < 4
    ensures ValidPacketNumberSize(size)
  {
    if code == 0 then 1 else if code == 1 then 2 else if code == 2 then 4 else 6
  }

  /** The code of a valid size; the inverse of `SizeFromCode`. */
  function CodeOfSize(size: nat): (code: nat)
    requires ValidPacketNumberSize(size)
    ensures code < 4 && SizeFromCode(code) == size
  {
    if size == 1 then 0 else if size == 2 then 1 else if size == 4 then 2 else 3
  }

  /** Codes and sizes are in one-to-one correspondence. */
  lemma CodeSizeBijection(code: nat)
    requires code < 4
    ensures CodeOfSize(SizeFromCode(code)) == code
  {
  }
}
