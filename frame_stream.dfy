/**
 * src/quic/frames/stream.rs: the STREAM frame.  Its type byte has the top bit
 * set and carries, from high to low bit, the fin flag, a data-length-present
 * flag (clear on the last frame of a packet), a 3-bit offset size and a 2-bit
 * stream-id size.  A frame with no length field runs to the end of the packet.
 * Bit tests on the type byte are written as the equivalent arithmetic.
 */
module FrameStream {
  import opened ByteOrder
  import opened Errors
  import opened Cursor
  import opened PacketUtils

  const FRAME_FLAG_STREAM: u8 := 0x80

  datatype StreamFrame = StreamFrame(streamId: u32, offset: u64, streamData: seq<u8>, fin: bool)

  /** `frame_type & FRAME_FLAG_STREAM != 0` */
  predicate IsStreamType(t: u8) {
    t >= 0x80
  }

  /** Bit 0x40: the last frame of the stream. */
  predicate IsFin(t: u8) {
    (t / 0x40) % 2 == 1
  }

  /** Bit 0x20 clear: no length field, the data runs to the end of the input. */
  predicate IsLast(t: u8) {
    (t / 0x20) % 2 == 0
  }

  /** Bits 0x1C: code 0 means no offset field, code k means k + 1 bytes. */
  function OffsetSize(t: u8): (n: nat)
    ensures n == 0 || 2 <= n <= 8
  {
    var code := (t / 4) % 8;
    if code == 0 then 0 else code + 1
  }

  /** Bits 0x03: code k means a stream id of k + 1 bytes. */
  function StreamIdSize(t: u8): (n: nat)
    ensures 1 <= n <= 4
  {
    t % 4 + 1
  }

  /** The type byte the encoder writes: always a 4-byte id and an 8-byte offset. */
  function TypeByte(fin: bool, last: bool): (t: u8)
    ensures IsStreamType(t)
    ensures IsFin(t) == fin && IsLast(t) == last
    ensures OffsetSize(t) == 8 && StreamIdSize(t) == 4
  {
    FRAME_FLAG_STREAM + (if fin then 0x40 else 0) + (if last then 0 else 0x20) + 0x1C + 0x03
  }

  /** The four type bytes the encoder can produce. */
  lemma TypeByteValues()
    ensures TypeByte(false, false) == 0xBF && TypeByte(true, false) == 0xFF
    ensures TypeByte(true, true) == 0xDF && TypeByte(false, true) == 0x9F
  {
  }

  /** `encode` panics when a length field is needed and the data does not fit in 16 bits. */
  predicate CanEncode(f: StreamFrame, last: bool) {
    last || |f.streamData| < 0x1_0000
  }

  /** The encoder: type byte, a length field unless last, a 4-byte id, an 8-byte offset, the data. */
  function Encode(f: StreamFrame, last: bool): (r: seq<u8>)
    requires CanEncode(f, last)
    ensures |r| == (if last then 13 else 15) + |f.streamData|
    ensures r[0] == TypeByte(f.fin, last)
    ensures r[|r| - |f.streamData|..] == f.streamData
  {
    Pow256Values();
    [TypeByte(f.fin, last)]
      + (if last then [] else EncodeUint(|f.streamData|, 2))
      + EncodeUint(f.streamId, 4)
      + EncodeUint(f.offset, 8)
      + f.streamData
  }

  /** The fields of f fit the sizes type byte t announces. */
  predicate FitsType(t: u8, f: StreamFrame) {
    && IsStreamType(t)
    && IsFin(t) == f.fin
    && f.streamId < Pow256(StreamIdSize(t))
    && f.offset < Pow256(OffsetSize(t))
    && (IsLast(t) || |f.streamData| < 0x1_0000)
  }

  /** Every layout the decoder accepts: the encoder's layout with the field sizes of t. */
  function Layout(t: u8, f: StreamFrame): (r: seq<u8>)
    requires FitsType(t, f)
  {
    Pow256Values();
    [t]
      + (if IsLast(t) then [] else EncodeUint(|f.streamData|, 2))
      + EncodeUint(f.streamId, StreamIdSize(t))
      + EncodeUint(f.offset, OffsetSize(t))
      + f.streamData
  }

  /** The encoder writes the layout of its own type byte. */
  lemma EncodeIsLayout(f: StreamFrame, last: bool)
    requires CanEncode(f, last)
    ensures FitsType(TypeByte(f.fin, last), f)
    ensures Encode(f, last) == Layout(TypeByte(f.fin, last), f)
  {
    Pow256Values();
  }

  /** Bytes before the data: type byte, optional length, id and offset. */
  function HeaderLength(t: u8): nat {
    1 + (if IsLast(t) then 0 else 2) + StreamIdSize(t) + OffsetSize(t)
  }

  /** The input holds a whole frame: the header, and all the data a length field announces. */
  predicate Complete(s: seq<u8>) {
    && |s| >= 1
    && |s| >= HeaderLength(s[0])
    && (IsLast(s[0]) || |s| >= HeaderLength(s[0]) + DecodeUint(s[1..3]))
  }

  /** The length field, present unless the frame is the last one. */
  function ReadDataLength(s: seq<u8>, last: bool): (r: Result<Parsed<nat>>)
    ensures r.Err? ==> r.error.Decoding?
    ensures r.Ok? <==> last || |s| >= 2
    ensures r.Ok? && last ==> r.value == Parsed(0, s)
    ensures r.Ok? && !last ==> r.value.value < 0x1_0000 && r.value.value == DecodeUint(s[..2])
    ensures r.Ok? && !last ==> s == EncodeUint(r.value.value, 2) + r.value.rest
  {
    Pow256Values();
    if last then Ok(Parsed(0, s))
    else
      var length :- MapEof(ReadU16(s));
      assert s[..2] == EncodeUint(length.value, 2);
      DecodeEncodeUint(length.value, 2);
      Ok(Parsed(length.value, length.rest))
  }

  /** The offset field; an offset size of 0 means no field and offset 0. */
  function ReadOffset(s: seq<u8>, size: nat): (r: Result<Parsed<u64>>)
    requires size <= 8
    ensures r.Err? ==> r.error.Decoding?
    ensures r.Ok? <==> |s| >= size
    ensures r.Ok? ==> r.value.value < Pow256(size) && s == EncodeUint(r.value.value, size) + r.value.rest
  {
    if size != 0 then MapEof(ReadU64(s, size))
    else Ok(Parsed(0, s))
  }

  /** The data: `length` bytes, or everything left on the last frame. */
  function ReadData(s: seq<u8>, last: bool, length: nat): (r: Result<Parsed<seq<u8>>>)
    ensures r.Err? ==> r.error.Decoding?
    ensures r.Ok? <==> last || |s| >= length
    ensures r.Ok? ==> s == r.value.value + r.value.rest
    ensures r.Ok? && last ==> r.value.rest == []
    ensures r.Ok? && !last ==> |r.value.value| == length
  {
    if last then MapEof(ReadToEnd(s))
    else MapEof(ReadExact(s, length))
  }

  /** The fields after the length field: stream id, offset and data. */
  function ReadFields(idSize: nat, offsetSize: nat, last: bool, length: nat, b: seq<u8>)
    : (r: Result<Parsed<(nat, nat, seq<u8>)>>)
    requires 1 <= idSize <= 4 && offsetSize <= 8
    ensures r.Err? ==> r.error.Decoding?
    ensures r.Ok? <==> |b| >= idSize + offsetSize + (if last then 0 else length)
    ensures r.Ok? ==> r.value.value.0 < Pow256(idSize) && r.value.value.1 < Pow256(offsetSize)
    ensures r.Ok? ==> b == EncodeUint(r.value.value.0, idSize) + EncodeUint(r.value.value.1, offsetSize)
                           + r.value.value.2 + r.value.rest
    ensures r.Ok? && last ==> r.value.rest == []
    ensures r.Ok? && !last ==> |r.value.value.2| == length
  {
    var streamId :- MapEof(ReadU64(b, idSize));
    var offset :- ReadOffset(streamId.rest, offsetSize);
    var streamData :- ReadData(offset.rest, last, length);
    var e1 := EncodeUint(streamId.value, idSize);
    var e2 := EncodeUint(offset.value, offsetSize);
    FieldsChain(b, e1, streamId.rest, e2, offset.rest, streamData.value, streamData.rest);
    Ok(Parsed((streamId.value, offset.value, streamData.value), streamData.rest))
  }

  /** Three reads one after the other take three consecutive pieces. */
  lemma FieldsChain(b: seq<u8>, e1: seq<u8>, r1: seq<u8>, e2: seq<u8>, r2: seq<u8>, d: seq<u8>, rest: seq<u8>)
    requires b == e1 + r1 && r1 == e2 + r2 && r2 == d + rest
    ensures b == e1 + e2 + d + rest
  {
  }

  /** The decoder's field-by-field reads add up to one layout. */
  lemma LayoutChain(s: seq<u8>, f: StreamFrame, a: seq<u8>, b: seq<u8>, rest: seq<u8>)
    requires |s| >= 1 && FitsType(s[0], f) && s == [s[0]] + a
    requires IsLast(s[0]) ==> a == b
    requires !IsLast(s[0]) ==> a == EncodeUint(|f.streamData|, 2) + b
    requires b == EncodeUint(f.streamId, StreamIdSize(s[0])) + EncodeUint(f.offset, OffsetSize(s[0]))
                  + f.streamData + rest
    ensures s == Layout(s[0], f) + rest
  {
  }

  /** `StreamFrame::decode` as the source writes it.  Every read maps EOF to a
      decoding error; decoding panics on a type byte without the stream bit. */
  function DecodeAsWritten(s: seq<u8>): (r: Result<Parsed<StreamFrame>>)
    requires |s| == 0 || IsStreamType(s[0])
    ensures r.Err? ==> r.error.Decoding?
    ensures r.Ok? <==> Complete(s)
    ensures r.Ok? ==> FitsType(s[0], r.value.value) && s == Layout(s[0], r.value.value) + r.value.rest
    ensures r.Ok? && IsLast(s[0]) ==> r.value.rest == []
  {
    var frameType :- MapEof(ReadU8(s));
    var t := frameType.value;
    assert t == s[0] && frameType.rest == s[1..];
    var dataLength :- ReadDataLength(frameType.rest, IsLast(t));
    assert !IsLast(t) ==> s[1..3] == frameType.rest[..2];
    assert |dataLength.rest| + HeaderLength(t) == |s| + StreamIdSize(t) + OffsetSize(t);
    assert !IsLast(t) ==> dataLength.value == DecodeUint(s[1..3]);
    var fields :- ReadFields(StreamIdSize(t), OffsetSize(t), IsLast(t), dataLength.value, dataLength.rest);
    var (streamId, offset, streamData) := fields.value;
    assert streamId < 0x1_0000_0000 && offset < 0x1_0000_0000_0000_0000 by {
      Pow256Monotone(StreamIdSize(t), 4);
      Pow256Monotone(OffsetSize(t), 8);
      Pow256Values();
    }
    var frame := StreamFrame(streamId as u32, offset as u64, streamData, IsFin(t));
    LayoutChain(s, frame, frameType.rest, dataLength.rest, fields.rest);
    Ok(Parsed(frame, fields.rest))
  }

  /** `StreamFrame::decode` with the check the source's tests expect: a frame
      carrying no data must have its fin flag set. */
  function Decode(s: seq<u8>): (r: Result<Parsed<StreamFrame>>)
    requires |s| == 0 || IsStreamType(s[0])
    ensures r.Err? ==> r.error.Decoding?
    ensures r.Ok? ==> |r.value.value.streamData| > 0 || r.value.value.fin
    ensures r.Ok? <==> (DecodeAsWritten(s).Ok?
                        && (|DecodeAsWritten(s).value.value.streamData| > 0 || DecodeAsWritten(s).value.value.fin))
    ensures r.Ok? ==> r == DecodeAsWritten(s)
  {
    var frame :- DecodeAsWritten(s);
    if |frame.value.streamData| == 0 && !frame.value.fin then
      Err(Decoding("Stream frame without data must have fin set"))
    else
      Ok(frame)
  }

  /** A decoded frame takes at least its type byte. */
  lemma DecodeConsumes(s: seq<u8>)
    requires |s| == 0 || IsStreamType(s[0])
    ensures Decode(s).Ok? ==> |Decode(s).value.rest| < |s|
  {
    if Decode(s).Ok? {
      var f := Decode(s).value.value;
      assert Layout(s[0], f) == [s[0]] + Layout(s[0], f)[1..];
    }
  }

  /** Where each field of a layout sits. */
  lemma LayoutFields(t: u8, f: StreamFrame, rest: seq<u8>)
    requires FitsType(t, f)
    ensures var s := Layout(t, f) + rest;
      var p := if IsLast(t) then 1 else 3;
      var q := p + StreamIdSize(t);
      var h := HeaderLength(t);
      && |s| == h + |f.streamData| + |rest| && h == q + OffsetSize(t)
      && s[0] == t
      && (!IsLast(t) ==> s[1..3] == EncodeUint(|f.streamData|, 2))
      && s[p..q] == EncodeUint(f.streamId, StreamIdSize(t))
      && s[q..h] == EncodeUint(f.offset, OffsetSize(t))
      && s[h..h + |f.streamData|] == f.streamData
      && s[h + |f.streamData|..] == rest
  {
    Pow256Values();
  }

  /** A layout determines the frame it carries.  A frame without a length field
      takes everything after its header, so only then must nothing follow. */
  lemma LayoutInjective(t: u8, f: StreamFrame, g: StreamFrame, r1: seq<u8>, r2: seq<u8>)
    requires FitsType(t, f) && FitsType(t, g)
    requires Layout(t, f) + r1 == Layout(t, g) + r2
    requires IsLast(t) ==> r1 == [] && r2 == []
    ensures f == g && r1 == r2
  {
    Pow256Values();
    LayoutFields(t, f, r1);
    LayoutFields(t, g, r2);
    if !IsLast(t) {
      EncodeUintInjective(|f.streamData|, |g.streamData|, 2);
    }
    EncodeUintInjective(f.streamId, g.streamId, StreamIdSize(t));
    EncodeUintInjective(f.offset, g.offset, OffsetSize(t));
  }

  /** Every complete frame the encoder writes decodes back to itself with the
      decoder as written.  A last frame has no length field, so the frame must
      end the input. */
  lemma DecodeEncodeAsWritten(f: StreamFrame, last: bool, rest: seq<u8>)
    requires CanEncode(f, last)
    requires last ==> rest == []
    ensures DecodeAsWritten(Encode(f, last) + rest) == Ok(Parsed(f, rest))
  {
    var t := TypeByte(f.fin, last);
    var s := Encode(f, last) + rest;
    EncodeIsLayout(f, last);
    LayoutFields(t, f, rest);
    if !last {
      DecodeEncodeUint(|f.streamData|, 2);
    }
    assert Complete(s);
    var r := DecodeAsWritten(s);
    LayoutInjective(t, f, r.value.value, rest, r.value.rest);
  }

  /** With the fin check in place the round trip holds for every frame that
      carries data or ends its stream. */
  lemma DecodeEncode(f: StreamFrame, last: bool, rest: seq<u8>)
    requires CanEncode(f, last)
    requires last ==> rest == []
    requires |f.streamData| > 0 || f.fin
    ensures Decode(Encode(f, last) + rest) == Ok(Parsed(f, rest))
  {
    DecodeEncodeAsWritten(f, last, rest);
  }

  /** A frame with no data and no fin is still written, and read back by the
      decoder as written, but the decoder with the fin check rejects it. */
  lemma EmptyFrameWithoutFin(f: StreamFrame, rest: seq<u8>)
    requires |f.streamData| == 0 && !f.fin
    ensures DecodeAsWritten(Encode(f, false) + rest) == Ok(Parsed(f, rest))
    ensures Decode(Encode(f, false) + rest).Err?
    ensures Decode(Encode(f, false) + rest).error.Decoding?
  {
    DecodeEncodeAsWritten(f, false, rest);
  }

  const Hello: seq<u8> := [0x68, 0x65, 0x6C, 0x6C, 0x6F]

  /** The encodings of the stream frame tests: a frame with a length field ... */
  lemma EncodeVector()
    ensures Encode(StreamFrame(42, 32, Hello, false), false)
      == [0xBF, 0x00, 0x05, 0x00, 0x00, 0x00, 0x2A,
          0x00, 0x00, 0x00, 0x00, 0x00, 0x00, 0x00, 0x20] + Hello
  {
    TypeByteValues();
    ShortFieldValues();
    IdValue();
    OffsetValue();
  }

  /** ... and a last frame with fin, which has none. */
  lemma EncodeLastFinVector()
    ensures Encode(StreamFrame(0xDEADCAFE, 0x10111213DEADCAFE, Hello + [0x32], true), true)
      == [0xDF, 0xDE, 0xAD, 0xCA, 0xFE, 0x10, 0x11, 0x12, 0x13, 0xDE, 0xAD, 0xCA, 0xFE] + Hello + [0x32]
  {
    TypeByteValues();
    LongIdValue();
    LongOffsetValue();
  }

  /** The field encodings the stream frame tests use. */
  lemma ShortFieldValues()
    ensures EncodeUint(0, 2) == [0x00, 0x00] && EncodeUint(5, 2) == [0x00, 0x05]
  {
    Pow256Values();
  }

  lemma IdValue()
    ensures EncodeUint(42, 4) == [0x00, 0x00, 0x00, 0x2A]
  {
    Pow256Values();
  }

  lemma OffsetValue()
    ensures EncodeUint(32, 8) == [0x00, 0x00, 0x00, 0x00, 0x00, 0x00, 0x00, 0x20]
  {
    Pow256Values();
  }

  lemma LongIdValue()
    ensures EncodeUint(0xDEADCAFE, 4) == [0xDE, 0xAD, 0xCA, 0xFE]
  {
    Pow256Values();
  }

  lemma LongOffsetValue()
    ensures EncodeUint(0x10111213DEADCAFE, 8) == [0x10, 0x11, 0x12, 0x13, 0xDE, 0xAD, 0xCA, 0xFE]
  {
    Pow256Values();
    EncodeUintSplit(0x10111213DEADCAFE, 0x10111213, 0xDEADCAFE, 8, 4);
    LongIdValue();
    assert EncodeUint(0x10111213, 4) == [0x10, 0x11, 0x12, 0x13];
  }

  /** The frames of the empty-data tests and their encodings. */
  const EmptyLastFin := StreamFrame(0xDEADCAFE, 0x10111213DEADCAFE, [], true)
  const EmptyFin := StreamFrame(42, 32, [], true)
  const EmptyWithoutFin := StreamFrame(42, 32, [], false)

  lemma EmptyLastFinEncoding()
    ensures Encode(EmptyLastFin, true) == [0xDF, 0xDE, 0xAD, 0xCA, 0xFE, 0x10, 0x11, 0x12, 0x13, 0xDE, 0xAD, 0xCA, 0xFE]
  {
    TypeByteValues();
    LongIdValue();
    LongOffsetValue();
  }

  lemma EmptyFinEncoding()
    ensures Encode(EmptyFin, false)
         == [0xFF, 0x00, 0x00, 0x00, 0x00, 0x00, 0x2A, 0x00, 0x00, 0x00, 0x00, 0x00, 0x00, 0x00, 0x20]
  {
    TypeByteValues();
    ShortFieldValues();
    IdValue();
    OffsetValue();
  }

  lemma EmptyWithoutFinEncoding()
    ensures Encode(EmptyWithoutFin, false)
         == [0xBF, 0x00, 0x00, 0x00, 0x00, 0x00, 0x2A, 0x00, 0x00, 0x00, 0x00, 0x00, 0x00, 0x00, 0x20]
  {
    TypeByteValues();
    ShortFieldValues();
    IdValue();
    OffsetValue();
  }

  /** A last frame with fin and nothing after its header carries empty data. */
  lemma DecodeEmptyLastFinVector(s: seq<u8>)
    requires s == [0xDF, 0xDE, 0xAD, 0xCA, 0xFE, 0x10, 0x11, 0x12, 0x13, 0xDE, 0xAD, 0xCA, 0xFE]
    ensures Decode(s) == Ok(Parsed(StreamFrame(0xDEADCAFE, 0x10111213DEADCAFE, [], true), []))
  {
    EmptyLastFinEncoding();
    DecodeEncode(EmptyLastFin, true, []);
    assert Encode(EmptyLastFin, true) + [] == s;
  }

  /** So does a frame with fin and a zero length field. */
  lemma DecodeEmptyFinVector(s: seq<u8>)
    requires s == [0xFF, 0x00, 0x00, 0x00, 0x00, 0x00, 0x2A, 0x00, 0x00, 0x00, 0x00, 0x00, 0x00, 0x00, 0x20]
    ensures Decode(s) == Ok(Parsed(StreamFrame(42, 32, [], true), []))
  {
    EmptyFinEncoding();
    DecodeEncode(EmptyFin, false, []);
    assert Encode(EmptyFin, false) + [] == s;
  }

  /** A zero length field without fin: accepted as written, rejected with the fin check. */
  lemma EmptyWithoutFinVector(s: seq<u8>)
    requires s == [0xBF, 0x00, 0x00, 0x00, 0x00, 0x00, 0x2A, 0x00, 0x00, 0x00, 0x00, 0x00, 0x00, 0x00, 0x20]
    ensures DecodeAsWritten(s) == Ok(Parsed(StreamFrame(42, 32, [], false), []))
    ensures Decode(s).Err? && Decode(s).error.Decoding?
  {
    EmptyWithoutFinEncoding();
    EmptyFrameWithoutFin(EmptyWithoutFin, []);
    assert Encode(EmptyWithoutFin, false) + [] == s;
  }

  /** Data shorter than its length field announces is a decoding error. */
  lemma ShortDataVector(s: seq<u8>)
    requires s == [0xBF, 0x00, 0x05, 0x00, 0x00, 0x00, 0x2A,
                   0x00, 0x00, 0x00, 0x00, 0x00, 0x00, 0x00, 0x20, 0x68, 0x65, 0x6C, 0x6C]
    ensures Decode(s).Err? && Decode(s).error.Decoding?
  {
    assert s[1..3] == EncodeUint(5, 2);
    DecodeEncodeUint(5, 2);
    assert !Complete(s);
  }
}
