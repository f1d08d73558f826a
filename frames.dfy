/**
 * src/quic/frames/mod.rs: the `Frame` sum type, the per-variant encoder dispatch
 * (in the three-argument form `encode(write, packet_number_size, last_frame)`)
 * and the frame decoder dispatch, which reads the type byte ahead and hands the
 * whole input to the decoder of the variant that byte names.
 */
module Frames {
  import opened ByteOrder
  import opened Options
  import opened Errors
  import opened Cursor
  import FrameAck
  import FrameBlocked
  import FrameConnectionClose
  import FrameGoAway
  import FramePadding
  import FramePing
  import FrameRstStream
  import FrameStopWaiting
  import FrameStream
  import FrameWindowUpdate
  import Seqs

  datatype Frame =
    | Ack(ack: FrameAck.AckFrame)
    | Blocked(blocked: FrameBlocked.BlockedFrame)
    | ConnectionClose(connectionClose: FrameConnectionClose.ConnectionCloseFrame)
    | GoAway(goAway: FrameGoAway.GoAwayFrame)
    | Padding(padding: FramePadding.PaddingFrame)
    | Ping(ping: FramePing.PingFrame)
    | RstStream(rstStream: FrameRstStream.RstStreamFrame)
    | StopWaiting(stopWaiting: FrameStopWaiting.StopWaitingFrame)
    | Stream(stream: FrameStream.StreamFrame)
    | WindowUpdate(windowUpdate: FrameWindowUpdate.WindowUpdateFrame)

  /** The variant a frame or a type byte stands for. */
  datatype Kind =
    | AckKind | BlockedKind | ConnectionCloseKind | GoAwayKind | PaddingKind
    | PingKind | RstStreamKind | StopWaitingKind | StreamKind | WindowUpdateKind

  /** Whether f is a frame of kind k. */
  predicate HasKind(f: Frame, k: Kind) {
    match k
    case AckKind => f.Ack?
    case BlockedKind => f.Blocked?
    case ConnectionCloseKind => f.ConnectionClose?
    case GoAwayKind => f.GoAway?
    case PaddingKind => f.Padding?
    case PingKind => f.Ping?
    case RstStreamKind => f.RstStream?
    case StopWaitingKind => f.StopWaiting?
    case StreamKind => f.Stream?
    case WindowUpdateKind => f.WindowUpdate?
  }

  /** How the decoder reads a type byte: the stream bit first (0xFF is a stream
      frame although it also has the ack pattern), then the ack pattern, then the
      fixed types 0x00 to 0x07; anything else names no frame. */
  function TypeKind(t: u8): (k: Option<Kind>)
    ensures k == None <==> (0x08 <= t < 0x40)
  {
    if FrameStream.IsStreamType(t) then Some(StreamKind)
    else if FrameAck.IsAckType(t) then Some(AckKind)
    else if t == FramePadding.FRAME_PADDING then Some(PaddingKind)
    else if t == FrameRstStream.FRAME_RST_STREAM then Some(RstStreamKind)
    else if t == FrameConnectionClose.FRAME_CONNECTION_CLOSE then Some(ConnectionCloseKind)
    else if t == FrameGoAway.FRAME_GOAWAY then Some(GoAwayKind)
    else if t == FrameWindowUpdate.FRAME_WINDOW_UPDATE then Some(WindowUpdateKind)
    else if t == FrameBlocked.FRAME_BLOCKED then Some(BlockedKind)
    else if t == FrameStopWaiting.FRAME_STOP_WAITING then Some(StopWaitingKind)
    else if t == FramePing.FRAME_PING then Some(PingKind)
    else None
  }

  /** What the variant encoders demand; only StopWaiting looks at the packet-number
      size and only Stream at `last`. */
  predicate CanEncode(f: Frame, packetNumberSize: nat, last: bool) {
    match f
    case Ack(a) => FrameAck.CanEncode(a)
    case ConnectionClose(c) => FrameConnectionClose.CanEncode(c)
    case GoAway(g) => FrameGoAway.CanEncode(g)
    case StopWaiting(w) => FrameStopWaiting.CanEncode(w, packetNumberSize)
    case Stream(s) => FrameStream.CanEncode(s, last)
    case _ => true
  }

  /** `Frame::encode`: the encoding of the variant's own codec.  Its first byte is
      one the decoder dispatches back to the same variant. */
  function Encode(f: Frame, packetNumberSize: nat, last: bool): (r: seq<u8>)
    requires CanEncode(f, packetNumberSize, last)
    ensures |r| > 0 && TypeKind(r[0]).Some? && HasKind(f, TypeKind(r[0]).value)
  {
    match f
    case Ack(a) =>
      FrameAck.TypeByteFields(a.extraAckBlocks != []);
      FrameAck.Encode(a)
    case Blocked(b) => FrameBlocked.Encode(b)
    case ConnectionClose(c) => FrameConnectionClose.Encode(c)
    case GoAway(g) => FrameGoAway.Encode(g)
    case Padding(p) => FramePadding.Encode(p)
    case Ping(p) => FramePing.Encode(p)
    case RstStream(r) => FrameRstStream.Encode(r)
    case StopWaiting(w) => FrameStopWaiting.Encode(w, packetNumberSize)
    case Stream(s) => FrameStream.Encode(s, last)
    case WindowUpdate(w) => FrameWindowUpdate.Encode(w)
  }

  /** The frame the decoder gives back for f: the ack frame with its largest
      acknowledged packet number cut to 6 bytes, an empty reason phrase as none. */
  function WireImage(f: Frame): Frame {
    match f
    case Ack(a) => Ack(FrameAck.WireImage(a))
    case ConnectionClose(c) =>
      if c.reasonPhrase == Some([]) then ConnectionClose(c.(reasonPhrase := None)) else f
    case GoAway(g) =>
      if g.reasonPhrase == Some([]) then GoAway(g.(reasonPhrase := None)) else f
    case _ => f
  }

  const UnknownFrameType: string := "Unknown frame type"

  /** What every variant decoder promises the dispatcher on non-empty input: a
      malformed frame is a decoding error, and a frame of kind k takes at least
      one byte. */
  predicate Dispatched(s: seq<u8>, r: Result<Parsed<Frame>>, k: Kind) {
    && (r.Err? ==> r.error.Decoding?)
    && (r.Ok? ==> |r.value.rest| < |s| && HasKind(r.value.value, k))
  }

  function DecodeStream(s: seq<u8>): (r: Result<Parsed<Frame>>)
    requires |s| > 0 && FrameStream.IsStreamType(s[0])
    ensures Dispatched(s, r, StreamKind)
  {
    FrameStream.DecodeConsumes(s);
    var d := FrameStream.Decode(s);
    if d.Ok? then Ok(Parsed(Stream(d.value.value), d.value.rest)) else Err(d.error)
  }

  function DecodeAck(s: seq<u8>): (r: Result<Parsed<Frame>>)
    requires |s| > 0 && FrameAck.IsAckType(s[0])
    ensures Dispatched(s, r, AckKind)
  {
    var p :- FrameAck.Decode(s);
    FrameAck.LayoutStartsWithType(s[0], p.value);
    Seqs.Shorter(s, FrameAck.Layout(s[0], p.value), p.rest);
    Ok(Parsed(Ack(p.value), p.rest))
  }

  function DecodePadding(s: seq<u8>): (r: Result<Parsed<Frame>>)
    requires |s| > 0 && s[0] == FramePadding.FRAME_PADDING
    ensures Dispatched(s, r, PaddingKind)
  {
    // One byte is all these frames read, and it is there.
    var p := FramePadding.Decode(s).value;
    Ok(Parsed(Padding(p.value), p.rest))
  }

  function DecodeRstStream(s: seq<u8>): (r: Result<Parsed<Frame>>)
    requires |s| > 0 && s[0] == FrameRstStream.FRAME_RST_STREAM
    ensures Dispatched(s, r, RstStreamKind)
  {
    var p :- FrameRstStream.Decode(s);
    Seqs.Shorter(s, FrameRstStream.Encode(p.value), p.rest);
    Ok(Parsed(RstStream(p.value), p.rest))
  }

  function DecodeConnectionClose(s: seq<u8>): (r: Result<Parsed<Frame>>)
    requires |s| > 0 && s[0] == FrameConnectionClose.FRAME_CONNECTION_CLOSE
    ensures Dispatched(s, r, ConnectionCloseKind)
  {
    var p :- FrameConnectionClose.Decode(s);
    Seqs.Shorter(s, FrameConnectionClose.Encode(p.value), p.rest);
    Ok(Parsed(ConnectionClose(p.value), p.rest))
  }

  function DecodeGoAway(s: seq<u8>): (r: Result<Parsed<Frame>>)
    requires |s| > 0 && s[0] == FrameGoAway.FRAME_GOAWAY
    ensures Dispatched(s, r, GoAwayKind)
  {
    var p :- FrameGoAway.Decode(s);
    Seqs.Shorter(s, FrameGoAway.Encode(p.value), p.rest);
    Ok(Parsed(GoAway(p.value), p.rest))
  }

  function DecodeWindowUpdate(s: seq<u8>): (r: Result<Parsed<Frame>>)
    requires |s| > 0 && s[0] == FrameWindowUpdate.FRAME_WINDOW_UPDATE
    ensures Dispatched(s, r, WindowUpdateKind)
  {
    var p :- FrameWindowUpdate.Decode(s);
    Seqs.Shorter(s, FrameWindowUpdate.Encode(p.value), p.rest);
    Ok(Parsed(WindowUpdate(p.value), p.rest))
  }

  function DecodeBlocked(s: seq<u8>): (r: Result<Parsed<Frame>>)
    requires |s| > 0 && s[0] == FrameBlocked.FRAME_BLOCKED
    ensures Dispatched(s, r, BlockedKind)
  {
    var p :- FrameBlocked.Decode(s);
    Seqs.Shorter(s, FrameBlocked.Encode(p.value), p.rest);
    Ok(Parsed(Blocked(p.value), p.rest))
  }

  function DecodeStopWaiting(s: seq<u8>, packetNumberSize: nat): (r: Result<Parsed<Frame>>)
    requires |s| > 0 && s[0] == FrameStopWaiting.FRAME_STOP_WAITING
    requires 1 <= packetNumberSize <= 8
    ensures Dispatched(s, r, StopWaitingKind)
  {
    var p :- FrameStopWaiting.Decode(s, packetNumberSize);
    Seqs.Shorter(s, [FrameStopWaiting.FRAME_STOP_WAITING] + EncodeUint(p.value.leastAckedDelta, packetNumberSize), p.rest);
    Ok(Parsed(StopWaiting(p.value), p.rest))
  }

  function DecodePing(s: seq<u8>): (r: Result<Parsed<Frame>>)
    requires |s| > 0 && s[0] == FramePing.FRAME_PING
    ensures Dispatched(s, r, PingKind)
  {
    // One byte is all these frames read, and it is there.
    var p := FramePing.Decode(s).value;
    Ok(Parsed(Ping(p.value), p.rest))
  }

  /** `Frame::decode`: no input is the io end of file that ends a payload; a known
      type byte goes to its variant's decoder, which reads the type byte again. */
  function Decode(s: seq<u8>, packetNumberSize: nat): (r: Result<Parsed<Frame>>)
    requires 1 <= packetNumberSize <= 8
    ensures |s| == 0 ==> r == Err(Io(EofError))
    ensures |s| > 0 && r.Err? ==> r.error.Decoding?
    ensures |s| > 0 && TypeKind(s[0]).None? ==> r == Err(Decoding(UnknownFrameType))
    ensures r.Ok? ==> |r.value.rest| < |s| && TypeKind(s[0]).Some? && HasKind(r.value.value, TypeKind(s[0]).value)
  {
    if |s| == 0 then Err(Io(EofError))
    else
      var t := s[0];
      if FrameStream.IsStreamType(t) then DecodeStream(s)
      else if FrameAck.IsAckType(t) then DecodeAck(s)
      else if t == FramePadding.FRAME_PADDING then DecodePadding(s)
      else if t == FrameRstStream.FRAME_RST_STREAM then DecodeRstStream(s)
      else if t == FrameConnectionClose.FRAME_CONNECTION_CLOSE then DecodeConnectionClose(s)
      else if t == FrameGoAway.FRAME_GOAWAY then DecodeGoAway(s)
      else if t == FrameWindowUpdate.FRAME_WINDOW_UPDATE then DecodeWindowUpdate(s)
      else if t == FrameBlocked.FRAME_BLOCKED then DecodeBlocked(s)
      else if t == FrameStopWaiting.FRAME_STOP_WAITING then DecodeStopWaiting(s, packetNumberSize)
      else if t == FramePing.FRAME_PING then DecodePing(s)
      else Err(Decoding(UnknownFrameType))
  }
  /** What the round trip needs beyond `CanEncode`: a last stream frame ends the
      input, and a stream frame carries data or fin. */
  predicate RoundTrips(f: Frame, last: bool, rest: seq<u8>) {
    f.Stream? ==> (last ==> rest == []) && (|f.stream.streamData| > 0 || f.stream.fin)
  }

  /** Decoding an encoded frame gives back its wire image and leaves what follows. */
  lemma DecodeEncode(f: Frame, packetNumberSize: nat, last: bool, rest: seq<u8>)
    requires 1 <= packetNumberSize <= 8
    requires CanEncode(f, packetNumberSize, last) && RoundTrips(f, last, rest)
    ensures Decode(Encode(f, packetNumberSize, last) + rest, packetNumberSize) == Ok(Parsed(WireImage(f), rest))
  {
    var s := Encode(f, packetNumberSize, last) + rest;
    assert s[0] == Encode(f, packetNumberSize, last)[0];
    match f
    case Ack(_) => DecodeEncodeAck(f, packetNumberSize, last, rest);
    case Blocked(_) => DecodeEncodeBlocked(f, packetNumberSize, last, rest);
    case ConnectionClose(_) => DecodeEncodeConnectionClose(f, packetNumberSize, last, rest);
    case GoAway(_) => DecodeEncodeGoAway(f, packetNumberSize, last, rest);
    case Padding(_) => DecodeEncodePadding(f, packetNumberSize, last, rest);
    case Ping(_) => DecodeEncodePing(f, packetNumberSize, last, rest);
    case RstStream(_) => DecodeEncodeRstStream(f, packetNumberSize, last, rest);
    case StopWaiting(_) => DecodeEncodeStopWaiting(f, packetNumberSize, last, rest);
    case Stream(_) => DecodeEncodeStream(f, packetNumberSize, last, rest);
    case WindowUpdate(_) => DecodeEncodeWindowUpdate(f, packetNumberSize, last, rest);
  }

  lemma DecodeEncodeAck(f: Frame, packetNumberSize: nat, last: bool, rest: seq<u8>)
    requires f.Ack? && 1 <= packetNumberSize <= 8
    requires CanEncode(f, packetNumberSize, last) && RoundTrips(f, last, rest)
    ensures Decode(Encode(f, packetNumberSize, last) + rest, packetNumberSize) == Ok(Parsed(WireImage(f), rest))
  {
    var x := f.ack;
    var e := FrameAck.Encode(x);
    var s := e + rest;
    assert Encode(f, packetNumberSize, last) == e;
    FrameAck.DecodeEncode(x, rest);
    FrameAck.TypeByteFields(x.extraAckBlocks != []);
    assert s[0] == e[0];
    assert Decode(s, packetNumberSize) == DecodeAck(s);
  }

  lemma DecodeEncodeBlocked(f: Frame, packetNumberSize: nat, last: bool, rest: seq<u8>)
    requires f.Blocked? && 1 <= packetNumberSize <= 8
    requires CanEncode(f, packetNumberSize, last) && RoundTrips(f, last, rest)
    ensures Decode(Encode(f, packetNumberSize, last) + rest, packetNumberSize) == Ok(Parsed(WireImage(f), rest))
  {
    var x := f.blocked;
    var e := FrameBlocked.Encode(x);
    var s := e + rest;
    assert Encode(f, packetNumberSize, last) == e;
    FrameBlocked.DecodeEncode(x, rest);
    assert s[0] == FrameBlocked.FRAME_BLOCKED;
    assert Decode(s, packetNumberSize) == DecodeBlocked(s);
  }

  lemma DecodeEncodeConnectionClose(f: Frame, packetNumberSize: nat, last: bool, rest: seq<u8>)
    requires f.ConnectionClose? && 1 <= packetNumberSize <= 8
    requires CanEncode(f, packetNumberSize, last) && RoundTrips(f, last, rest)
    ensures Decode(Encode(f, packetNumberSize, last) + rest, packetNumberSize) == Ok(Parsed(WireImage(f), rest))
  {
    var x := f.connectionClose;
    var e := FrameConnectionClose.Encode(x);
    var s := e + rest;
    assert Encode(f, packetNumberSize, last) == e;
    FrameConnectionClose.DecodeEncode(x, rest);
    assert s[0] == FrameConnectionClose.FRAME_CONNECTION_CLOSE;
    assert Decode(s, packetNumberSize) == DecodeConnectionClose(s);
  }

  lemma DecodeEncodeGoAway(f: Frame, packetNumberSize: nat, last: bool, rest: seq<u8>)
    requires f.GoAway? && 1 <= packetNumberSize <= 8
    requires CanEncode(f, packetNumberSize, last) && RoundTrips(f, last, rest)
    ensures Decode(Encode(f, packetNumberSize, last) + rest, packetNumberSize) == Ok(Parsed(WireImage(f), rest))
  {
    var x := f.goAway;
    var e := FrameGoAway.Encode(x);
    var s := e + rest;
    assert Encode(f, packetNumberSize, last) == e;
    FrameGoAway.DecodeEncode(x, rest);
    assert s[0] == FrameGoAway.FRAME_GOAWAY;
    assert Decode(s, packetNumberSize) == DecodeGoAway(s);
  }

  lemma DecodeEncodePadding(f: Frame, packetNumberSize: nat, last: bool, rest: seq<u8>)
    requires f.Padding? && 1 <= packetNumberSize <= 8
    requires CanEncode(f, packetNumberSize, last) && RoundTrips(f, last, rest)
    ensures Decode(Encode(f, packetNumberSize, last) + rest, packetNumberSize) == Ok(Parsed(WireImage(f), rest))
  {
    var x := f.padding;
    var e := FramePadding.Encode(x);
    var s := e + rest;
    assert Encode(f, packetNumberSize, last) == e;
    FramePadding.DecodeEncode(x, rest);
    assert s[0] == FramePadding.FRAME_PADDING;
    assert Decode(s, packetNumberSize) == DecodePadding(s);
  }

  lemma DecodeEncodePing(f: Frame, packetNumberSize: nat, last: bool, rest: seq<u8>)
    requires f.Ping? && 1 <= packetNumberSize <= 8
    requires CanEncode(f, packetNumberSize, last) && RoundTrips(f, last, rest)
    ensures Decode(Encode(f, packetNumberSize, last) + rest, packetNumberSize) == Ok(Parsed(WireImage(f), rest))
  {
    var x := f.ping;
    var e := FramePing.Encode(x);
    var s := e + rest;
    assert Encode(f, packetNumberSize, last) == e;
    FramePing.DecodeEncode(x, rest);
    assert s[0] == FramePing.FRAME_PING;
    assert Decode(s, packetNumberSize) == DecodePing(s);
  }

  lemma DecodeEncodeRstStream(f: Frame, packetNumberSize: nat, last: bool, rest: seq<u8>)
    requires f.RstStream? && 1 <= packetNumberSize <= 8
    requires CanEncode(f, packetNumberSize, last) && RoundTrips(f, last, rest)
    ensures Decode(Encode(f, packetNumberSize, last) + rest, packetNumberSize) == Ok(Parsed(WireImage(f), rest))
  {
    var x := f.rstStream;
    var e := FrameRstStream.Encode(x);
    var s := e + rest;
    assert Encode(f, packetNumberSize, last) == e;
    FrameRstStream.DecodeEncode(x, rest);
    assert s[0] == FrameRstStream.FRAME_RST_STREAM;
    assert Decode(s, packetNumberSize) == DecodeRstStream(s);
  }

  lemma DecodeEncodeStopWaiting(f: Frame, packetNumberSize: nat, last: bool, rest: seq<u8>)
    requires f.StopWaiting? && 1 <= packetNumberSize <= 8
    requires CanEncode(f, packetNumberSize, last) && RoundTrips(f, last, rest)
    ensures Decode(Encode(f, packetNumberSize, last) + rest, packetNumberSize) == Ok(Parsed(WireImage(f), rest))
  {
    var x := f.stopWaiting;
    var e := FrameStopWaiting.Encode(x, packetNumberSize);
    var s := e + rest;
    assert Encode(f, packetNumberSize, last) == e;
    FrameStopWaiting.DecodeEncode(x, packetNumberSize, rest);
    assert s[0] == FrameStopWaiting.FRAME_STOP_WAITING;
    assert Decode(s, packetNumberSize) == DecodeStopWaiting(s, packetNumberSize);
  }

  lemma DecodeEncodeStream(f: Frame, packetNumberSize: nat, last: bool, rest: seq<u8>)
    requires f.Stream? && 1 <= packetNumberSize <= 8
    requires CanEncode(f, packetNumberSize, last) && RoundTrips(f, last, rest)
    ensures Decode(Encode(f, packetNumberSize, last) + rest, packetNumberSize) == Ok(Parsed(WireImage(f), rest))
  {
    var x := f.stream;
    var e := FrameStream.Encode(x, last);
    var s := e + rest;
    assert Encode(f, packetNumberSize, last) == e;
    FrameStream.DecodeEncode(x, last, rest);
    assert s[0] == e[0];
    assert Decode(s, packetNumberSize) == DecodeStream(s);
  }

  lemma DecodeEncodeWindowUpdate(f: Frame, packetNumberSize: nat, last: bool, rest: seq<u8>)
    requires f.WindowUpdate? && 1 <= packetNumberSize <= 8
    requires CanEncode(f, packetNumberSize, last) && RoundTrips(f, last, rest)
    ensures Decode(Encode(f, packetNumberSize, last) + rest, packetNumberSize) == Ok(Parsed(WireImage(f), rest))
  {
    var w := f.windowUpdate;
    var e := FrameWindowUpdate.Encode(w);
    assert Encode(f, packetNumberSize, last) == e;
    FrameWindowUpdate.DecodeEncode(w, rest);
    assert (e + rest)[0] == FrameWindowUpdate.FRAME_WINDOW_UPDATE;
    assert Decode(e + rest, packetNumberSize) == DecodeWindowUpdate(e + rest);
  }

  /** A type byte in the unassigned range 0x08 to 0x3F is a decoding error. */
  lemma UnknownTypeVector()
    ensures Decode([0x20], 6) == Err(Decoding(UnknownFrameType))
  {
  }

  /** A window update frame cut one byte short is a decoding error, not the
      end of the input. */
  lemma TruncatedWindowUpdateVector(s: seq<u8>)
    requires s == [0x04, 0x00, 0x00, 0x00, 0x2A, 0x00, 0x00, 0x00, 0x00, 0x00, 0x00, 0x00]
    ensures Decode(s, 6).Err? && Decode(s, 6).error.Decoding?
  {
    assert FrameWindowUpdate.Decode(s).Err?;
  }
}
