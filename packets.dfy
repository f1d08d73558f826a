/**
 * src/quic/packets/mod.rs: the packet header flags, the payload (a run of
 * frames up to the end of the input) and the three packet kinds: regular
 * packets, version negotiation packets and public resets.  Which kind a
 * packet with the version flag is depends on the side that reads it.
 */
module Packets {
  import opened ByteOrder
  import opened Options
  import opened Errors
  import opened Cursor
  import opened PacketUtils
  import opened FrameUtils
  import Frames
  import FramePadding
  import FramePing
  import Seqs

  /** `QUIC_VERSION` from src/quic/mod.rs. */
  const QUIC_VERSION: u32 := 0xFAB0_0001

  // The flags byte's bits; the packet-number size code sits under
  // MASK_PACKET_NUMBER_SIZE (0x30), that is in bits 4 and 5.
  const FLAG_VERSION: u8 := 0x01
  const FLAG_PUBLIC_RESET: u8 := 0x02
  const FLAG_KEY_PHASE: u8 := 0x04
  const FLAG_CONNECTION_ID: u8 := 0x08
  const FLAG_MULTIPATH: u8 := 0x40
  const PACKET_NUMBER_SIZE_SHIFT: u8 := 0x10

  /** Which end of the connection reads the packet. */
  datatype EndpointRole = Client | Server

  datatype PacketHeader = PacketHeader(
    keyPhase: bool,
    packetNumberSize: nat,
    multipath: bool,
    connectionId: Option<u64>)

  datatype PacketPayload = PacketPayload(frames: seq<Frames.Frame>)

  datatype Packet =
    | Regular(header: PacketHeader, version: Option<u32>, packetNumber: u64, payload: PacketPayload)
    | VersionNegotiation(header: PacketHeader, versions: seq<u32>)
    | PublicReset(header: PacketHeader)

  // ---------------------------------------------------------------------------
  // The flags byte
  // ---------------------------------------------------------------------------

  /** Everything the first byte of a packet says. */
  datatype Flags = Flags(
    hasVersion: bool,
    publicReset: bool,
    keyPhase: bool,
    hasConnectionId: bool,
    packetNumberSize: nat,
    multipath: bool)

  /** A flag's bit when it is set; bits are combined by adding them, which is
      `|` for distinct bits. */
  function Bit(on: bool, flag: u8): nat {
    if on then flag else 0
  }

  /** `flags & flag != 0` for a single-bit flag. */
  predicate HasFlag(b: u8, flag: u8)
    requires flag > 0
  {
    (b / flag) % 2 == 1
  }

  /** The flags word `encode_header` builds; a packet-number size other than
      1, 2, 4 or 6 panics there. */
  function EncodeFlags(fl: Flags): (b: u8)
    requires ValidPacketNumberSize(fl.packetNumberSize)
  {
    Bit(fl.hasVersion, FLAG_VERSION) + Bit(fl.publicReset, FLAG_PUBLIC_RESET)
    + Bit(fl.keyPhase, FLAG_KEY_PHASE) + Bit(fl.hasConnectionId, FLAG_CONNECTION_ID)
    + CodeOfSize(fl.packetNumberSize) * PACKET_NUMBER_SIZE_SHIFT + Bit(fl.multipath, FLAG_MULTIPATH)
  }

  /** How `decode` reads the flags byte: each flag by its mask, the size code
      from bits 4 and 5 (`(flags & 0x30) >> 4`); bit 7 is ignored. */
  function DecodeFlags(b: u8): (fl: Flags)
    ensures ValidPacketNumberSize(fl.packetNumberSize)
  {
    Flags(
      HasFlag(b, FLAG_VERSION),
      HasFlag(b, FLAG_PUBLIC_RESET),
      HasFlag(b, FLAG_KEY_PHASE),
      HasFlag(b, FLAG_CONNECTION_ID),
      SizeFromCode((b / PACKET_NUMBER_SIZE_SHIFT) % 4),
      HasFlag(b, FLAG_MULTIPATH))
  }

  function Digit(on: bool): nat {
    if on then 1 else 0
  }

  lemma BitDigit(on: bool, flag: u8)
    ensures Bit(on, flag) == flag * Digit(on)
  {
  }

  /** Reading back the flags byte gives every flag and the size that went in. */
  lemma DecodeEncodeFlags(fl: Flags)
    requires ValidPacketNumberSize(fl.packetNumberSize)
    ensures DecodeFlags(EncodeFlags(fl)) == fl
  {
    var e := EncodeFlags(fl);
    var code := CodeOfSize(fl.packetNumberSize);
    BitDigit(fl.hasVersion, FLAG_VERSION);
    BitDigit(fl.publicReset, FLAG_PUBLIC_RESET);
    BitDigit(fl.keyPhase, FLAG_KEY_PHASE);
    BitDigit(fl.hasConnectionId, FLAG_CONNECTION_ID);
    BitDigit(fl.multipath, FLAG_MULTIPATH);
    var v, r, k, c, m := Digit(fl.hasVersion), Digit(fl.publicReset), Digit(fl.keyPhase),
      Digit(fl.hasConnectionId), Digit(fl.multipath);
    LowDigits(e, v, r, k, c, code, m);
    HighDigits(e, v, r, k, c, code, m);
  }

  lemma LowDigits(e: nat, v: nat, r: nat, k: nat, c: nat, code: nat, m: nat)
    requires v < 2 && r < 2 && k < 2 && c < 2 && code < 4 && m < 2
    requires e == v + 2 * r + 4 * k + 8 * c + 16 * code + 64 * m
    ensures (e / 1) % 2 == v && (e / 2) % 2 == r && (e / 4) % 2 == k
  {
    FieldOf(e, 0, 1, v, 2, r + 2 * k + 4 * c + 8 * code + 32 * m);
    FieldOf(e, v, 2, r, 2, k + 2 * c + 4 * code + 16 * m);
    FieldOf(e, v + 2 * r, 4, k, 2, c + 2 * code + 8 * m);
  }

  lemma HighDigits(e: nat, v: nat, r: nat, k: nat, c: nat, code: nat, m: nat)
    requires v < 2 && r < 2 && k < 2 && c < 2 && code < 4 && m < 2
    requires e == v + 2 * r + 4 * k + 8 * c + 16 * code + 64 * m
    ensures (e / 8) % 2 == c && (e / 16) % 4 == code && (e / 64) % 2 == m
  {
    FieldOf(e, v + 2 * r + 4 * k, 8, c, 2, code + 4 * m);
    FieldOf(e, v + 2 * r + 4 * k + 8 * c, 16, code, 4, m);
    FieldOf(e, v + 2 * r + 4 * k + 8 * c + 16 * code, 64, m, 2, 0);
  }

  /** The digit of e in position d, when e is written as low + d * (digit + base * high). */
  lemma FieldOf(e: nat, low: nat, d: nat, digit: nat, base: nat, high: nat)
    requires d > 0 && base > 0 && low < d && digit < base && e == low + d * (digit + base * high)
    ensures (e / d) % base == digit
  {
    DivModUnique(e, d, digit + base * high, low);
    DivModUnique(digit + base * high, base, high, digit);
  }

  /** Every flags byte with bit 7 clear is the encoding of what it decodes to. */
  lemma EncodeDecodeFlags(b: u8)
    requires b < 0x80
    ensures EncodeFlags(DecodeFlags(b)) == b
  {
    BitOf(b, FLAG_VERSION);
    BitOf(b, FLAG_PUBLIC_RESET);
    BitOf(b, FLAG_KEY_PHASE);
    BitOf(b, FLAG_CONNECTION_ID);
    BitOf(b, FLAG_MULTIPATH);
    CodeSizeBijection((b / 16) % 4);
    Digits(b);
  }

  lemma BitOf(b: u8, flag: u8)
    requires flag > 0
    ensures Bit(HasFlag(b, flag), flag) == flag * ((b / flag) % 2)
  {
  }

  /** A byte below 0x80 is the sum of its flag bits and its size code. */
  lemma Digits(b: nat)
    requires b < 0x80
    ensures b == (b / 1) % 2 + 2 * ((b / 2) % 2) + 4 * ((b / 4) % 2) + 8 * ((b / 8) % 2)
                 + 16 * ((b / 16) % 4) + 64 * ((b / 64) % 2)
  {
    Peel(b, 1, 2);
    Peel(b, 2, 2);
    Peel(b, 4, 2);
    Peel(b, 8, 2);
    Peel(b, 16, 4);
    Peel(b, 64, 2);
    assert b / 128 == 0;
  }

  /** Splits the quotient n / d into its lowest base-digit and the rest. */
  lemma Peel(n: nat, d: nat, base: nat)
    requires d > 0 && base > 0
    ensures n / d == (n / d) % base + base * (n / (d * base))
  {
    var q := n / d;
    var r := n % d;
    var q2 := q / base;
    var r2 := q % base;
    assert n == d * q + r;
    assert q == base * q2 + r2;
    assert n == (d * base) * q2 + (d * r2 + r) by {
      assert d * q == d * (base * q2) + d * r2;
      assert d * (base * q2) == (d * base) * q2;
    }
    assert d * r2 + r < d * base by {
      MulMonotone(d, r2, base - 1);
      assert d * (base - 1) == d * base - d;
    }
    DivModUnique(n, d * base, q2, d * r2 + r);
  }

  // ---------------------------------------------------------------------------
  // The header
  // ---------------------------------------------------------------------------

  function FlagsOf(h: PacketHeader, hasVersion: bool, publicReset: bool): Flags {
    Flags(hasVersion, publicReset, h.keyPhase, h.connectionId.Some?, h.packetNumberSize, h.multipath)
  }

  /** `encode_header`: the flags byte, then the connection id as a big-endian u64
      when there is one. */
  function EncodeHeader(h: PacketHeader, hasVersion: bool, publicReset: bool): (r: seq<u8>)
    requires ValidPacketNumberSize(h.packetNumberSize)
  {
    [EncodeFlags(FlagsOf(h, hasVersion, publicReset))]
    + (if h.connectionId.Some? then EncodeUint(h.connectionId.value, 8) else [])
  }

  datatype HeaderFields = HeaderFields(header: PacketHeader, hasVersion: bool, publicReset: bool)

  /** The start of `Packet::decode`: the flags byte and the connection id, where
      running out of input is a decoding error. */
  function DecodeHeader(s: seq<u8>): (r: Result<Parsed<HeaderFields>>)
    ensures r.Err? ==> r.error.Decoding?
    ensures |s| == 0 ==> r.Err?
    ensures r.Ok? ==> ValidPacketNumberSize(r.value.value.header.packetNumberSize)
  {
    var flags :- MapEof(ReadU8(s));
    var fl := DecodeFlags(flags.value);
    var connectionId :- DecodeConnectionId(fl.hasConnectionId, flags.rest);
    var h := PacketHeader(fl.keyPhase, fl.packetNumberSize, fl.multipath, connectionId.value);
    Ok(Parsed(HeaderFields(h, fl.hasVersion, fl.publicReset), connectionId.rest))
  }

  function DecodeConnectionId(present: bool, s: seq<u8>): (r: Result<Parsed<Option<u64>>>)
    ensures r.Err? ==> r.error.Decoding?
    ensures r.Ok? ==> (r.value.value.Some? <==> present)
    ensures r.Ok? ==> s == (if present then EncodeUint(r.value.value.value, 8) else []) + r.value.rest
  {
    if present then
      var id :- MapEof(ReadU64(s, 8));
      Ok(Parsed(Some(id.value), id.rest))
    else
      Ok(Parsed(None, s))
  }

  /** A header that decodes, and whose unused bit 7 is clear, is the encoding of
      what it decodes to. */
  lemma EncodeDecodeHeader(s: seq<u8>)
    requires DecodeHeader(s).Ok? && s[0] < 0x80
    ensures var f := DecodeHeader(s).value.value;
      s == EncodeHeader(f.header, f.hasVersion, f.publicReset) + DecodeHeader(s).value.rest
  {
    var fl := DecodeFlags(s[0]);
    EncodeDecodeFlags(s[0]);
    var id := DecodeConnectionId(fl.hasConnectionId, s[1..]);
    var f := DecodeHeader(s).value.value;
    assert FlagsOf(f.header, f.hasVersion, f.publicReset) == fl;
    var idBytes := if id.value.value.Some? then EncodeUint(id.value.value.value, 8) else [];
    assert EncodeHeader(f.header, f.hasVersion, f.publicReset) == [s[0]] + idBytes;
    Seqs.ConsTail(s);
    Seqs.Assoc([s[0]], idBytes, id.value.rest);
  }

  lemma DecodeEncodeHeader(h: PacketHeader, hasVersion: bool, publicReset: bool, rest: seq<u8>)
    requires ValidPacketNumberSize(h.packetNumberSize)
    ensures DecodeHeader(EncodeHeader(h, hasVersion, publicReset) + rest)
         == Ok(Parsed(HeaderFields(h, hasVersion, publicReset), rest))
  {
    var fl := FlagsOf(h, hasVersion, publicReset);
    var id := if h.connectionId.Some? then EncodeUint(h.connectionId.value, 8) else [];
    var s := EncodeHeader(h, hasVersion, publicReset) + rest;
    assert s == [EncodeFlags(fl)] + (id + rest);
    ReadU8Encoded(EncodeFlags(fl), id + rest);
    DecodeEncodeFlags(fl);
    if h.connectionId.Some? {
      Pow256Values();
      ReadU64Encoded(h.connectionId.value, 8, rest);
    } else {
      assert id + rest == rest;
    }
  }

  // ---------------------------------------------------------------------------
  // The payload
  // ---------------------------------------------------------------------------

  /** What a frame must satisfy, beyond being encodable, for the payload round
      trip: the payload encoder writes every frame as a non-last frame. */
  predicate FrameRoundTrips(f: Frames.Frame) {
    Frames.RoundTrips(f, false, [])
  }

  /** `PacketPayload::encode` asserts that there is at least one frame. */
  predicate CanEncodePayload(p: PacketPayload, packetNumberSize: nat) {
    && p.frames != []
    && forall i :: 0 <= i < |p.frames| ==> Frames.CanEncode(p.frames[i], packetNumberSize, false)
  }

  /** One frame as the payload encoder writes it: never marked last.  (Only
      frames it can encode are ever passed; the others are given no bytes.) */
  function FrameBytes(f: Frames.Frame, packetNumberSize: nat): seq<u8> {
    if Frames.CanEncode(f, packetNumberSize, false) then Frames.Encode(f, packetNumberSize, false) else []
  }

  /** The frames from index i on, one after the other. */
  function EncodeFramesFrom(fs: seq<Frames.Frame>, packetNumberSize: nat, i: nat): seq<u8>
    requires i <= |fs|
    decreases |fs| - i
  {
    if i == |fs| then [] else FrameBytes(fs[i], packetNumberSize) + EncodeFramesFrom(fs, packetNumberSize, i + 1)
  }

  /** The frames before index i, one after the other: what the encoding loop has
      written when it reaches i. */
  function EncodeFramesTo(fs: seq<Frames.Frame>, packetNumberSize: nat, i: nat): seq<u8>
    requires i <= |fs|
  {
    if i == 0 then [] else EncodeFramesTo(fs, packetNumberSize, i - 1) + FrameBytes(fs[i - 1], packetNumberSize)
  }

  /** What is written before index i and what follows it make up the payload. */
  lemma {:induction false} EncodeFramesToFrom(fs: seq<Frames.Frame>, packetNumberSize: nat, i: nat)
    requires i <= |fs|
    ensures EncodeFramesTo(fs, packetNumberSize, i) + EncodeFramesFrom(fs, packetNumberSize, i)
         == EncodeFramesFrom(fs, packetNumberSize, 0)
  {
    if i > 0 {
      EncodeFramesToFrom(fs, packetNumberSize, i - 1);
      AppendStep(EncodeFramesTo(fs, packetNumberSize, i - 1), EncodeFramesFrom(fs, packetNumberSize, i - 1),
        FrameBytes(fs[i - 1], packetNumberSize),
        EncodeFramesFrom(fs, packetNumberSize, i), EncodeFramesFrom(fs, packetNumberSize, 0));
    }
  }

  /** One more piece moves from what is left to what is written. */
  lemma AppendStep(out: seq<u8>, left: seq<u8>, piece: seq<u8>, tail: seq<u8>, whole: seq<u8>)
    requires out + left == whole && left == piece + tail
    ensures (out + piece) + tail == whole
  {
  }

  /** `PacketPayload::encode`: the frames one after the other, none of them
      marked last. */
  function EncodePayload(p: PacketPayload, packetNumberSize: nat): seq<u8>
    requires CanEncodePayload(p, packetNumberSize)
  {
    EncodeFramesFrom(p.frames, packetNumberSize, 0)
  }

  /** A payload starts with its first frame, whose type byte names that frame's
      kind. */
  lemma PayloadStartsWithFirstFrame(p: PacketPayload, packetNumberSize: nat)
    requires CanEncodePayload(p, packetNumberSize)
    ensures var r := EncodePayload(p, packetNumberSize);
      |r| > 0 && Frames.TypeKind(r[0]).Some? && Frames.HasKind(p.frames[0], Frames.TypeKind(r[0]).value)
  {
    var first := Frames.Encode(p.frames[0], packetNumberSize, false);
    assert EncodeFramesFrom(p.frames, packetNumberSize, 0) == first + EncodeFramesFrom(p.frames, packetNumberSize, 1);
  }

  /** The frames the payload loop collects: a frame at a time until the input
      ends (the io end of file `Frame::decode` reports on no input); any other
      error ends the payload with that error. */
  function DecodeFrames(s: seq<u8>, packetNumberSize: nat): (r: Result<seq<Frames.Frame>>)
    requires 1 <= packetNumberSize <= 8
    ensures r.Err? ==> r.error.Decoding?
    ensures r.Ok? ==> (r.value == [] <==> s == [])
    decreases |s|
  {
    var d := Frames.Decode(s, packetNumberSize);
    if d.Ok? then
      var more := DecodeFrames(d.value.rest, packetNumberSize);
      if more.Ok? then Ok([d.value.value] + more.value) else more
    else if IsUnexpectedEof(d.error) then Ok([])
    else Err(d.error)
  }

  const AtLeastOneFrame: string := "At least one frame expected"

  /** `PacketPayload::decode`: the frames up to the end of the input, of which
      there must be at least one. */
  function DecodePayload(s: seq<u8>, packetNumberSize: nat): (r: Result<PacketPayload>)
    requires 1 <= packetNumberSize <= 8
    ensures s == [] ==> r == Err(Decoding(AtLeastOneFrame))
    ensures r.Err? ==> r.error.Decoding?
    ensures r.Ok? ==> r.value.frames != []
  {
    var fs := DecodeFrames(s, packetNumberSize);
    if fs.Err? then Err(fs.error)
    else if fs.value == [] then Err(Decoding(AtLeastOneFrame))
    else Ok(PacketPayload(fs.value))
  }

  /** The wire images of the frames from index i on. */
  function WireImagesFrom(fs: seq<Frames.Frame>, i: nat): (r: seq<Frames.Frame>)
    requires i <= |fs|
    ensures |r| == |fs| - i
    decreases |fs| - i
  {
    if i == |fs| then [] else [Frames.WireImage(fs[i])] + WireImagesFrom(fs, i + 1)
  }

  lemma {:induction false} DecodeEncodeFrames(fs: seq<Frames.Frame>, packetNumberSize: nat, i: nat)
    requires ValidPacketNumberSize(packetNumberSize) && i <= |fs|
    requires forall j :: 0 <= j < |fs| ==> Frames.CanEncode(fs[j], packetNumberSize, false)
    requires forall j :: 0 <= j < |fs| ==> FrameRoundTrips(fs[j])
    ensures DecodeFrames(EncodeFramesFrom(fs, packetNumberSize, i), packetNumberSize) == Ok(WireImagesFrom(fs, i))
    decreases |fs| - i
  {
    if i < |fs| {
      var f := fs[i];
      assert Frames.CanEncode(f, packetNumberSize, false) && FrameRoundTrips(f);
      DecodeEncodeFrames(fs, packetNumberSize, i + 1);
      DecodeEncodeFramesStep(EncodeFramesFrom(fs, packetNumberSize, i), packetNumberSize, f,
        EncodeFramesFrom(fs, packetNumberSize, i + 1), WireImagesFrom(fs, i + 1));
    } else {
      DecodeFramesEmpty(packetNumberSize);
    }
  }

  /** An encoded frame in front of bytes that decode to `more`. */
  lemma DecodeEncodeFramesStep(s: seq<u8>, packetNumberSize: nat, f: Frames.Frame, tail: seq<u8>, more: seq<Frames.Frame>)
    requires ValidPacketNumberSize(packetNumberSize)
    requires Frames.CanEncode(f, packetNumberSize, false) && FrameRoundTrips(f)
    requires s == Frames.Encode(f, packetNumberSize, false) + tail
    requires DecodeFrames(tail, packetNumberSize) == Ok(more)
    ensures DecodeFrames(s, packetNumberSize) == Ok([Frames.WireImage(f)] + more)
  {
    Frames.DecodeEncode(f, packetNumberSize, false, tail);
    DecodeFramesCons(s, packetNumberSize, Frames.WireImage(f), tail, more);
  }

  /** A frame read in front of the frames that follow it. */
  lemma DecodeFramesCons(s: seq<u8>, packetNumberSize: nat, f: Frames.Frame, tail: seq<u8>, more: seq<Frames.Frame>)
    requires 1 <= packetNumberSize <= 8
    requires Frames.Decode(s, packetNumberSize) == Ok(Parsed(f, tail))
    requires DecodeFrames(tail, packetNumberSize) == Ok(more)
    ensures DecodeFrames(s, packetNumberSize) == Ok([f] + more)
  {
  }

  /** No input, no frames. */
  lemma DecodeFramesEmpty(packetNumberSize: nat)
    requires 1 <= packetNumberSize <= 8
    ensures DecodeFrames([], packetNumberSize) == Ok([])
  {
  }

  /** A payload whose frames all round trip decodes to their wire images. */
  lemma DecodeEncodePayload(p: PacketPayload, packetNumberSize: nat)
    requires ValidPacketNumberSize(packetNumberSize) && CanEncodePayload(p, packetNumberSize)
    requires forall i :: 0 <= i < |p.frames| ==> FrameRoundTrips(p.frames[i])
    ensures DecodePayload(EncodePayload(p, packetNumberSize), packetNumberSize)
         == Ok(PacketPayload(WireImagesFrom(p.frames, 0)))
  {
    DecodeEncodeFrames(p.frames, packetNumberSize, 0);
  }

  /** The encoding loop of `PacketPayload::encode`. */
  method WritePayload(p: PacketPayload, packetNumberSize: nat) returns (out: seq<u8>)
    requires CanEncodePayload(p, packetNumberSize)
    ensures out == EncodePayload(p, packetNumberSize)
  {
    out := [];
    var i := 0;
    while i < |p.frames|
      invariant i <= |p.frames|
      invariant out == EncodeFramesTo(p.frames, packetNumberSize, i)
    {
      var frame := WriteFrame(p, packetNumberSize, i);
      var next := i + 1;
      EncodeFramesToStep(p.frames, packetNumberSize, i, next);
      out := out + frame;
      i := next;
    }
    EncodeFramesToAll(p.frames, packetNumberSize, i);
  }

  /** Writing frame i extends what was written before it. */
  lemma EncodeFramesToStep(fs: seq<Frames.Frame>, packetNumberSize: nat, i: nat, next: nat)
    requires i < |fs| && next == i + 1
    ensures EncodeFramesTo(fs, packetNumberSize, next)
         == EncodeFramesTo(fs, packetNumberSize, i) + FrameBytes(fs[i], packetNumberSize)
  {
  }

  /** Once every frame is written, the whole payload is. */
  lemma EncodeFramesToAll(fs: seq<Frames.Frame>, packetNumberSize: nat, i: nat)
    requires i == |fs|
    ensures EncodeFramesTo(fs, packetNumberSize, i) == EncodeFramesFrom(fs, packetNumberSize, 0)
  {
    EncodeFramesToFrom(fs, packetNumberSize, i);
    Seqs.EmptyRight(EncodeFramesTo(fs, packetNumberSize, i));
  }

  /** `frame.encode(writer, packet_number_size, false)` on the payload's i-th frame. */
  method WriteFrame(p: PacketPayload, packetNumberSize: nat, i: nat) returns (frame: seq<u8>)
    requires CanEncodePayload(p, packetNumberSize) && i < |p.frames|
    ensures frame == FrameBytes(p.frames[i], packetNumberSize)
  {
    frame := Frames.Encode(p.frames[i], packetNumberSize, false);
  }

  /** The frames a loop has collected, in front of what the rest decodes to. */
  function PrependFrames(acc: seq<Frames.Frame>, r: Result<seq<Frames.Frame>>): Result<seq<Frames.Frame>> {
    if r.Ok? then Ok(acc + r.value) else r
  }

  /** The decoding loop of `PacketPayload::decode`. */
  method ReadPayload(s: seq<u8>, packetNumberSize: nat) returns (r: Result<PacketPayload>)
    requires 1 <= packetNumberSize <= 8
    ensures r == DecodePayload(s, packetNumberSize)
  {
    var frames: seq<Frames.Frame> := [];
    var rest := s;
    if DecodeFrames(s, packetNumberSize).Ok? {
      Seqs.EmptyLeft(DecodeFrames(s, packetNumberSize).value);
    }
    while true
      invariant PrependFrames(frames, DecodeFrames(rest, packetNumberSize)) == DecodeFrames(s, packetNumberSize)
      decreases |rest|
    {
      var d := Frames.Decode(rest, packetNumberSize);
      if d.Ok? {
        var more := DecodeFrames(d.value.rest, packetNumberSize);
        if more.Ok? {
          Seqs.MoveOne(frames, d.value.value, more.value);
        }
        frames := frames + [d.value.value];
        rest := d.value.rest;
      } else if IsUnexpectedEof(d.error) {
        Seqs.EmptyRight(frames);
        break;
      } else {
        return Err(d.error);
      }
    }
    if frames == [] {
      return Err(Decoding(AtLeastOneFrame));
    }
    return Ok(PacketPayload(frames));
  }

  // ---------------------------------------------------------------------------
  // Version lists
  // ---------------------------------------------------------------------------

  function EncodeVersions(vs: seq<u32>): (r: seq<u8>)
    ensures |r| == 4 * |vs|
  {
    if vs == [] then [] else EncodeUint(vs[0], 4) + EncodeVersions(vs[1..])
  }

  /** The version negotiation loop: big-endian u32s until fewer than four bytes
      are left; a trailing partial group is dropped.  Reading from memory fails
      only by running out, so the loop's other-error exit is never taken. */
  function DecodeVersions(s: seq<u8>): (vs: seq<u32>)
    ensures |vs| == |s| / 4
    decreases |s|
  {
    var d := ReadU32(s);
    if d.IoOk? then [d.value.value] + DecodeVersions(d.value.rest) else []
  }

  lemma {:induction false} DecodeEncodeVersions(vs: seq<u32>, tail: seq<u8>)
    requires |tail| < 4
    ensures DecodeVersions(EncodeVersions(vs) + tail) == vs
    decreases |vs|
  {
    if vs == [] {
      Seqs.EmptyLeft(tail);
    } else {
      var more := EncodeVersions(vs[1..]) + tail;
      Seqs.Assoc(EncodeUint(vs[0], 4), EncodeVersions(vs[1..]), tail);
      ReadU32Encoded(vs[0], more);
      DecodeEncodeVersions(vs[1..], tail);
      Seqs.ConsTail(vs);
    }
  }

  /** The versions read back are the input without its trailing partial group. */
  lemma {:induction false} EncodeDecodeVersions(s: seq<u8>)
    ensures EncodeVersions(DecodeVersions(s)) == s[..|s| - |s| % 4]
    decreases |s|
  {
    var d := ReadU32(s);
    if d.IoOk? {
      var rest := d.value.rest;
      EncodeDecodeVersions(rest);
      var vs := DecodeVersions(s);
      assert vs[1..] == DecodeVersions(rest);
      assert |rest| % 4 == |s| % 4;
      assert s[..|s| - |s| % 4] == EncodeUint(d.value.value, 4) + rest[..|rest| - |rest| % 4];
    } else {
      assert s[..|s| - |s| % 4] == [];
    }
  }

  /** Appending a version appends its four bytes. */
  lemma {:induction false} EncodeVersionsAppend(vs: seq<u32>, v: u32)
    ensures EncodeVersions(vs + [v]) == EncodeVersions(vs) + EncodeUint(v, 4)
    decreases |vs|
  {
    if vs == [] {
      assert [] + [v] == [v];
      assert [v][1..] == [];
    } else {
      assert (vs + [v])[1..] == vs[1..] + [v];
      EncodeVersionsAppend(vs[1..], v);
    }
  }

  /** The writing loop of the version negotiation case of `Packet::encode`. */
  method WriteVersions(vs: seq<u32>) returns (out: seq<u8>)
    ensures out == EncodeVersions(vs)
  {
    out := [];
    for i := 0 to |vs|
      invariant out == EncodeVersions(vs[..i])
    {
      var bytes := WriteVersion(vs[i]);
      EncodeVersionsAppend(vs[..i], vs[i]);
      Seqs.TakeOneMore(vs, i);
      out := out + bytes;
    }
    assert vs[..|vs|] == vs;
  }

  /** `write_u32::<BigEndian>` of one version. */
  method WriteVersion(v: u32) returns (bytes: seq<u8>)
    ensures bytes == EncodeUint(v, 4)
  {
    Pow256Values();
    bytes := EncodeUint(v, 4);
  }

  /** The reading loop of the version negotiation case of `Packet::decode`. */
  method ReadVersions(s: seq<u8>) returns (vs: seq<u32>)
    ensures vs == DecodeVersions(s)
  {
    vs := [];
    var rest := s;
    while true
      invariant vs + DecodeVersions(rest) == DecodeVersions(s)
      decreases |rest|
    {
      var d := ReadU32(rest);
      if d.IoOk? {
        Seqs.MoveOne(vs, d.value.value, DecodeVersions(d.value.rest));
        vs := vs + [d.value.value];
        rest := d.value.rest;
      } else {
        Seqs.EmptyRight(vs);
        break;
      }
    }
  }

  // ---------------------------------------------------------------------------
  // Packets
  // ---------------------------------------------------------------------------

  /** What `Packet::encode` demands: a valid packet-number size and, for a
      regular packet, a payload its encoder accepts. */
  predicate CanEncode(p: Packet) {
    && ValidPacketNumberSize(p.header.packetNumberSize)
    && (p.Regular? ==> CanEncodePayload(p.payload, p.header.packetNumberSize))
  }

  function EncodeVersion(version: Option<u32>): seq<u8> {
    if version.Some? then EncodeUint(version.value, 4) else []
  }

  /** `Packet::encode`.  A regular packet carries the version flag exactly when
      it has a version, and its packet number cut to the header's size. */
  function Encode(p: Packet): seq<u8>
    requires CanEncode(p)
  {
    var size := p.header.packetNumberSize;
    match p
    case Regular(h, version, packetNumber, payload) =>
      EncodeHeader(h, version.Some?, false) + EncodeVersion(version)
      + EncodeUint(TruncateU64(packetNumber, size), size) + EncodePayload(payload, size)
    case VersionNegotiation(h, versions) =>
      EncodeHeader(h, true, false) + EncodeVersions(versions)
    case PublicReset(h) =>
      EncodeHeader(h, false, true)
  }

  /** The version of a regular packet: only QUIC_VERSION is accepted, and it is
      checked before anything else is read. */
  function DecodeVersion(hasVersion: bool, s: seq<u8>): (r: Result<Parsed<Option<u32>>>)
    ensures r.Err? ==> r.error.Decoding? || r.error.UnsupportedVersion?
    ensures r.Err? && r.error.UnsupportedVersion? ==> r.error.version != QUIC_VERSION
    ensures r.Ok? ==> r.value.value == (if hasVersion then Some(QUIC_VERSION) else None)
    ensures r.Ok? ==> s == EncodeVersion(r.value.value) + r.value.rest
  {
    if hasVersion then
      var version :- MapEof(ReadU32(s));
      if version.value != QUIC_VERSION then Err(UnsupportedVersion(version.value))
      else Ok(Parsed(Some(version.value), version.rest))
    else
      Ok(Parsed(None, s))
  }

  /** The regular-packet case of `Packet::decode`: the version, the packet number
      in the header's size, and the payload up to the end. */
  function DecodeRegular(h: PacketHeader, hasVersion: bool, s: seq<u8>): (r: Result<Packet>)
    requires ValidPacketNumberSize(h.packetNumberSize)
    ensures r.Err? ==> r.error.Decoding? || r.error.UnsupportedVersion?
    ensures r.Err? && r.error.UnsupportedVersion? ==> r.error.version != QUIC_VERSION
    ensures r.Ok? ==> r.value.Regular? && r.value.header == h && r.value.payload.frames != []
    ensures r.Ok? ==> r.value.version == (if hasVersion then Some(QUIC_VERSION) else None)
    ensures r.Ok? ==> r.value.packetNumber < Pow256(h.packetNumberSize)
  {
    var version :- DecodeVersion(hasVersion, s);
    var packetNumber :- MapEof(ReadU64(version.rest, h.packetNumberSize));
    var payload :- DecodePayload(packetNumber.rest, h.packetNumberSize);
    Ok(Regular(h, version.value, packetNumber.value, payload))
  }

  /** `Packet::decode`.  A public reset flag wins; a packet with the version flag
      is a regular packet when a server reads it and a version negotiation packet
      when a client does.  Every failure is a decoding error or an unsupported
      version: running out of input is never reported as an io error. */
  function Decode(s: seq<u8>, role: EndpointRole): (r: Result<Packet>)
    ensures s == [] ==> r.Err? && r.error.Decoding?
    ensures r.Err? ==> r.error.Decoding? || r.error.UnsupportedVersion?
    ensures r.Err? && r.error.UnsupportedVersion? ==> r.error.version != QUIC_VERSION
    ensures r.Ok? ==> ValidPacketNumberSize(r.value.header.packetNumberSize)
    ensures r.Ok? && r.value.Regular? ==>
      && r.value.payload.frames != []
      && r.value.packetNumber < Pow256(r.value.header.packetNumberSize)
      && (r.value.version.None? || r.value.version == Some(QUIC_VERSION))
  {
    var fields :- DecodeHeader(s);
    var f := fields.value;
    if f.publicReset then
      Ok(PublicReset(f.header))
    else if !f.hasVersion || role == Server then
      DecodeRegular(f.header, f.hasVersion, fields.rest)
    else
      Ok(VersionNegotiation(f.header, DecodeVersions(fields.rest)))
  }

  /** `Packet::encode` with its version-writing loop. */
  method WritePacket(p: Packet) returns (out: seq<u8>)
    requires CanEncode(p)
    ensures out == Encode(p)
  {
    var size := p.header.packetNumberSize;
    match p
    case Regular(h, version, packetNumber, payload) => {
      var payloadBytes := WritePayload(payload, size);
      out := EncodeHeader(h, version.Some?, false) + EncodeVersion(version)
        + EncodeUint(TruncateU64(packetNumber, size), size) + payloadBytes;
    }
    case VersionNegotiation(h, versions) => {
      var versionBytes := WriteVersions(versions);
      out := EncodeHeader(h, true, false) + versionBytes;
    }
    case PublicReset(h) => {
      out := EncodeHeader(h, false, true);
    }
  }

  /** `Packet::decode` with its payload and version negotiation loops. */
  method ReadPacket(s: seq<u8>, role: EndpointRole) returns (r: Result<Packet>)
    ensures r == Decode(s, role)
  {
    var fields :- DecodeHeader(s);
    var f := fields.value;
    if f.publicReset {
      return Ok(PublicReset(f.header));
    }
    if !f.hasVersion || role == Server {
      var size := f.header.packetNumberSize;
      var version :- DecodeVersion(f.hasVersion, fields.rest);
      var packetNumber :- MapEof(ReadU64(version.rest, size));
      var payload :- ReadPayload(packetNumber.rest, size);
      return Ok(Regular(f.header, version.value, packetNumber.value, payload));
    }
    var versions := ReadVersions(fields.rest);
    return Ok(VersionNegotiation(f.header, versions));
  }

  // ---------------------------------------------------------------------------
  // Round trips
  // ---------------------------------------------------------------------------

  /** How `Packet::decode` goes on once the header is read. */
  lemma DecodeAfterHeader(s: seq<u8>, role: EndpointRole, f: HeaderFields, rest: seq<u8>)
    requires DecodeHeader(s) == Ok(Parsed(f, rest))
    ensures ValidPacketNumberSize(f.header.packetNumberSize)
    ensures f.publicReset ==> Decode(s, role) == Ok(PublicReset(f.header))
    ensures !f.publicReset && (!f.hasVersion || role == Server) ==>
      Decode(s, role) == DecodeRegular(f.header, f.hasVersion, rest)
    ensures !f.publicReset && f.hasVersion && role == Client ==>
      Decode(s, role) == Ok(VersionNegotiation(f.header, DecodeVersions(rest)))
  {
  }

  /** Which kind of packet `Packet::decode` returns is decided by the first
      byte: the public reset flag makes a public reset, otherwise the version
      flag makes a version negotiation packet when a client reads it, and
      everything else is a regular packet. */
  lemma DecodeVariant(s: seq<u8>, role: EndpointRole)
    requires Decode(s, role).Ok?
    ensures |s| > 0
    ensures Decode(s, role).value.PublicReset? <==> HasFlag(s[0], FLAG_PUBLIC_RESET)
    ensures Decode(s, role).value.VersionNegotiation? <==>
      !HasFlag(s[0], FLAG_PUBLIC_RESET) && HasFlag(s[0], FLAG_VERSION) && role == Client
  {
    var fields := DecodeHeader(s).value;
    assert ReadU8(s).IoOk? && ReadU8(s).value.value == s[0];
    DecodeAfterHeader(s, role, fields.value, fields.rest);
  }

  /** The header's first byte carries exactly the header's flags, and the
      connection id takes eight more bytes when present. */
  lemma EncodeHeaderLayout(h: PacketHeader, hasVersion: bool, publicReset: bool)
    requires ValidPacketNumberSize(h.packetNumberSize)
    ensures var r := EncodeHeader(h, hasVersion, publicReset);
      && |r| == 1 + (if h.connectionId.Some? then 8 else 0)
      && DecodeFlags(r[0]) == FlagsOf(h, hasVersion, publicReset)
  {
    DecodeEncodeFlags(FlagsOf(h, hasVersion, publicReset));
  }

  /** An encoded packet starts with the flags byte of its header, whose version
      flag is set for version negotiation and for a regular packet with a
      version, and whose public reset flag is set for a public reset only. */
  lemma EncodeFlagsByte(p: Packet)
    requires CanEncode(p)
    ensures |Encode(p)| > 0
    ensures DecodeFlags(Encode(p)[0])
         == FlagsOf(p.header, p.VersionNegotiation? || (p.Regular? && p.version.Some?), p.PublicReset?)
  {
    var hasVersion := p.VersionNegotiation? || (p.Regular? && p.version.Some?);
    EncodeHeaderLayout(p.header, hasVersion, p.PublicReset?);
    var head := EncodeHeader(p.header, hasVersion, p.PublicReset?);
    match p
    case Regular(h, version, packetNumber, payload) =>
      var size := h.packetNumberSize;
      var a := head + EncodeVersion(version);
      var b := a + EncodeUint(TruncateU64(packetNumber, size), size);
      assert Encode(p) == b + EncodePayload(payload, size);
      assert Encode(p)[0] == b[0] == a[0] == head[0];
    case VersionNegotiation(h, versions) =>
      assert Encode(p) == head + EncodeVersions(versions);
    case PublicReset(h) =>
  }

  /** A regular packet comes back with its packet number truncated to the
      header's size and its frames as their wire images, provided that it has no
      version or QUIC_VERSION, and that a client does not read a packet with a
      version (it would take it for version negotiation). */
  lemma DecodeEncodeRegular(p: Packet, role: EndpointRole)
    requires p.Regular? && CanEncode(p)
    requires forall i :: 0 <= i < |p.payload.frames| ==> FrameRoundTrips(p.payload.frames[i])
    requires p.version.None? || (p.version == Some(QUIC_VERSION) && role == Server)
    ensures Decode(Encode(p), role)
         == Ok(Regular(p.header, p.version, TruncateU64(p.packetNumber, p.header.packetNumberSize),
                       PacketPayload(WireImagesFrom(p.payload.frames, 0))))
  {
    EncodeRegularSplit(p);
    DecodeEncodeHeader(p.header, p.version.Some?, false, RegularBody(p));
    DecodeAfterHeader(Encode(p), role, HeaderFields(p.header, p.version.Some?, false), RegularBody(p));
    DecodeRegularEncoded(p);
  }

  /** What follows the header of a regular packet. */
  function RegularBody(p: Packet): seq<u8>
    requires p.Regular? && CanEncode(p)
  {
    var size := p.header.packetNumberSize;
    EncodeVersion(p.version) + (EncodeUint(TruncateU64(p.packetNumber, size), size) + EncodePayload(p.payload, size))
  }

  lemma EncodeRegularSplit(p: Packet)
    requires p.Regular? && CanEncode(p)
    ensures Encode(p) == EncodeHeader(p.header, p.version.Some?, false) + RegularBody(p)
  {
  }

  lemma DecodeRegularEncoded(p: Packet)
    requires p.Regular? && CanEncode(p)
    requires forall i :: 0 <= i < |p.payload.frames| ==> FrameRoundTrips(p.payload.frames[i])
    requires p.version.None? || p.version == Some(QUIC_VERSION)
    ensures DecodeRegular(p.header, p.version.Some?, RegularBody(p))
         == Ok(Regular(p.header, p.version, TruncateU64(p.packetNumber, p.header.packetNumberSize),
                       PacketPayload(WireImagesFrom(p.payload.frames, 0))))
  {
    var size := p.header.packetNumberSize;
    DecodeEncodePayload(p.payload, size);
    DecodeRegularOf(p.header, p.version, TruncateU64(p.packetNumber, size), EncodePayload(p.payload, size),
      PacketPayload(WireImagesFrom(p.payload.frames, 0)));
  }

  /** A version, a packet number and a payload that decodes, one after the other. */
  lemma DecodeRegularOf(h: PacketHeader, version: Option<u32>, pn: u64, payloadBytes: seq<u8>, payload: PacketPayload)
    requires ValidPacketNumberSize(h.packetNumberSize) && pn < Pow256(h.packetNumberSize)
    requires version.None? || version == Some(QUIC_VERSION)
    requires DecodePayload(payloadBytes, h.packetNumberSize) == Ok(payload)
    ensures DecodeRegular(h, version.Some?, EncodeVersion(version) + (EncodeUint(pn, h.packetNumberSize) + payloadBytes))
         == Ok(Regular(h, version, pn, payload))
  {
    var size := h.packetNumberSize;
    DecodeVersionEncoded(version, EncodeUint(pn, size) + payloadBytes);
    Pow256Monotone(size, 8);
    ReadU64Encoded(pn, size, payloadBytes);
  }

  lemma DecodeVersionEncoded(version: Option<u32>, rest: seq<u8>)
    requires version.None? || version == Some(QUIC_VERSION)
    ensures DecodeVersion(version.Some?, EncodeVersion(version) + rest) == Ok(Parsed(version, rest))
  {
    if version.Some? {
      ReadU32Encoded(version.value, rest);
    } else {
      assert EncodeVersion(version) + rest == rest;
    }
  }

  /** A client reads a version negotiation packet back exactly. */
  lemma DecodeEncodeVersionNegotiation(p: Packet)
    requires p.VersionNegotiation? && ValidPacketNumberSize(p.header.packetNumberSize)
    ensures CanEncode(p)
    ensures Decode(Encode(p), Client) == Ok(p)
  {
    DecodeEncodeHeader(p.header, true, false, EncodeVersions(p.versions));
    DecodeEncodeVersions(p.versions, []);
    assert EncodeVersions(p.versions) + [] == EncodeVersions(p.versions);
  }

  /** Either side reads a public reset back exactly, whatever follows its header. */
  lemma DecodeEncodePublicReset(p: Packet, role: EndpointRole, rest: seq<u8>)
    requires p.PublicReset? && ValidPacketNumberSize(p.header.packetNumberSize)
    ensures CanEncode(p)
    ensures Decode(Encode(p) + rest, role) == Ok(p)
  {
    DecodeEncodeHeader(p.header, false, true, rest);
  }

  /** A server rejects a version other than QUIC_VERSION before it reads
      anything after it. */
  lemma UnsupportedVersionFirst(h: PacketHeader, version: u32, rest: seq<u8>)
    requires ValidPacketNumberSize(h.packetNumberSize) && version != QUIC_VERSION
    ensures Decode(EncodeHeader(h, true, false) + EncodeUint(version, 4) + rest, Server)
         == Err(UnsupportedVersion(version))
  {
    var body := EncodeUint(version, 4) + rest;
    assert EncodeHeader(h, true, false) + EncodeUint(version, 4) + rest == EncodeHeader(h, true, false) + body;
    DecodeEncodeHeader(h, true, false, body);
    ReadU32Encoded(version, rest);
  }

  /** A server takes a version negotiation packet for a regular packet with the
      first listed version, and so rejects it unless that is QUIC_VERSION. */
  lemma VersionNegotiationAtServer(p: Packet)
    requires p.VersionNegotiation? && ValidPacketNumberSize(p.header.packetNumberSize)
    requires |p.versions| > 0 && p.versions[0] != QUIC_VERSION
    ensures CanEncode(p)
    ensures Decode(Encode(p), Server) == Err(UnsupportedVersion(p.versions[0]))
  {
    var more := EncodeVersions(p.versions[1..]);
    assert Encode(p) == EncodeHeader(p.header, true, false) + EncodeUint(p.versions[0], 4) + more;
    UnsupportedVersionFirst(p.header, p.versions[0], more);
  }

  // ---------------------------------------------------------------------------
  // The first regular packet of the packet encoding test
  // ---------------------------------------------------------------------------

  /** Key phase, 4-byte packet numbers, multipath and a connection id; a version
      (not QUIC_VERSION: the encoder writes whatever version it is given) and a
      payload of a padding and a ping frame. */
  function VectorPacket(): Packet {
    Regular(PacketHeader(true, 4, true, Some(0xABCDEF1234567890)), Some(0x12345678), 0x1234567890ABCDEF,
      PacketPayload([Frames.Padding(FramePadding.PaddingFrame), Frames.Ping(FramePing.PingFrame)]))
  }

  /** Version 0x01, key phase 0x04, connection id 0x08, size code 0b10 in bits
      4 and 5, multipath 0x40: the flags byte is 0x6D. */
  lemma VectorFlags()
    ensures EncodeFlags(FlagsOf(VectorPacket().header, true, false)) == 0x6D
  {
  }

  lemma VectorConnectionIdHigh()
    ensures EncodeUint(0xABCDEF12, 4) == [0xAB, 0xCD, 0xEF, 0x12]
  {
    Pow256Values();
  }

  lemma VectorConnectionIdLow()
    ensures EncodeUint(0x34567890, 4) == [0x34, 0x56, 0x78, 0x90]
  {
    Pow256Values();
  }

  lemma VectorConnectionId()
    ensures EncodeUint(0xABCDEF1234567890, 8) == [0xAB, 0xCD, 0xEF, 0x12, 0x34, 0x56, 0x78, 0x90]
  {
    Pow256Values();
    EncodeUintSplit(0xABCDEF1234567890, 0xABCDEF12, 0x34567890, 8, 4);
    VectorConnectionIdHigh();
    VectorConnectionIdLow();
  }

  /** The packet number cut to its 4 low bytes. */
  lemma VectorPacketNumber()
    ensures EncodeUint(TruncateU64(0x1234567890ABCDEF, 4), 4) == [0x90, 0xAB, 0xCD, 0xEF]
  {
    Pow256Values();
    EncodeUintSplit(0x1234567890ABCDEF, 0x12345678, 0x90ABCDEF, 8, 4);
    assert EncodeUint(0x12345678, 4) == [0x12, 0x34, 0x56, 0x78];
    assert EncodeUint(0x90ABCDEF, 4) == [0x90, 0xAB, 0xCD, 0xEF];
  }

  lemma VectorPayload()
    ensures CanEncodePayload(VectorPacket().payload, 4)
    ensures EncodePayload(VectorPacket().payload, 4) == [0x00, 0x07]
  {
    var fs := VectorPacket().payload.frames;
    assert EncodeFramesFrom(fs, 4, 2) == [];
    assert EncodeFramesFrom(fs, 4, 1) == [0x07];
  }

  lemma VectorHeader()
    ensures EncodeHeader(VectorPacket().header, true, false)
         == [0x6D, 0xAB, 0xCD, 0xEF, 0x12, 0x34, 0x56, 0x78, 0x90]
  {
    VectorFlags();
    VectorConnectionId();
  }

  lemma VectorVersion()
    ensures EncodeVersion(VectorPacket().version) == [0x12, 0x34, 0x56, 0x78]
  {
    Pow256Values();
  }

  /** The bytes the test expects: header, connection id, version, the truncated
      packet number, then one byte per frame. */
  lemma EncodeVectorPacket()
    ensures CanEncode(VectorPacket())
    ensures Encode(VectorPacket())
         == [0x6D, 0xAB, 0xCD, 0xEF, 0x12, 0x34, 0x56, 0x78, 0x90]
          + [0x12, 0x34, 0x56, 0x78]
          + [0x90, 0xAB, 0xCD, 0xEF]
          + [0x00, 0x07]
  {
    var p := VectorPacket();
    VectorPayload();
    VectorHeader();
    VectorVersion();
    VectorPacketNumber();
    assert Encode(p) == EncodeHeader(p.header, true, false) + EncodeVersion(p.version)
      + EncodeUint(TruncateU64(p.packetNumber, 4), 4) + EncodePayload(p.payload, 4);
  }
}
