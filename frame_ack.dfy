/**
 * src/quic/frames/ack.rs: the ACK frame.  Its type byte is 01xx_xxxx: bit
 * 0x20 announces extra ack blocks, bits 0x0C the size of the largest
 * acknowledged packet number and bits 0x03 the size of each block length,
 * both as the 1/2/4/6 byte codes.  The encoder always uses 6-byte fields.
 * Bit tests on the type byte are written as the equivalent arithmetic.
 */
module FrameAck {
  import opened ByteOrder
  import opened Options
  import opened Errors
  import opened Cursor
  import opened PacketUtils
  import opened FrameUtils
  import Seqs

  const FLAG_ACK: u8 := 0x40
  const FLAG_EXTRA_ACK_BLOCKS: u8 := 0x20

  datatype ExtraAckBlock = ExtraAckBlock(gap: u8, blockLength: u64)
  datatype FirstAckTimestamp = FirstAckTimestamp(deltaLa: u8, deltaTimestamp: u32)
  datatype ExtraAckTimestamp = ExtraAckTimestamp(deltaLa: u8, deltaTimestamp: u16)

  datatype AckFrame = AckFrame(
    largestAcknowledged: u64,
    ackDelay: u16,
    firstAckBlockLength: u64,
    extraAckBlocks: seq<ExtraAckBlock>,
    firstTimestamp: Option<FirstAckTimestamp>,
    extraTimestamps: seq<ExtraAckTimestamp>)

  /** `frame_type & MASK_ACK == FLAG_ACK` */
  predicate IsAckType(t: u8) {
    t / 0x40 == 1
  }

  /** `frame_type & FLAG_EXTRA_ACK_BLOCKS != 0` */
  predicate HasExtraAckBlocks(t: u8) {
    (t / 0x20) % 2 == 1
  }

  /** `(frame_type & MASK_LARGEST_ACK_SIZE) >> 2`, mapped to a byte count. */
  function LargestAckSize(t: u8): (n: nat)
    ensures ValidPacketNumberSize(n)
  {
    SizeFromCode((t / 4) % 4)
  }

  /** `frame_type & MASK_ACK_BLOCK_SIZE`, mapped to a byte count. */
  function AckBlockSize(t: u8): (n: nat)
    ensures ValidPacketNumberSize(n)
  {
    SizeFromCode(t % 4)
  }

  /** The type byte the encoder writes: both sizes are 6 bytes. */
  function TypeByte(hasBlocks: bool): u8 {
    FLAG_ACK + (if hasBlocks then FLAG_EXTRA_ACK_BLOCKS else 0) + 0x0C + 0x03
  }

  /** The decoder reads back from the encoder's type byte what the encoder meant. */
  lemma TypeByteFields(hasBlocks: bool)
    ensures IsAckType(TypeByte(hasBlocks)) && HasExtraAckBlocks(TypeByte(hasBlocks)) == hasBlocks
    ensures LargestAckSize(TypeByte(hasBlocks)) == 6 && AckBlockSize(TypeByte(hasBlocks)) == 6
  {
  }

  lemma TypeByteValues()
    ensures TypeByte(false) == 0x4F && TypeByte(true) == 0x6F
  {
  }

  /** The value of the timestamp count byte. */
  function TimestampCount(f: AckFrame): nat {
    (if f.firstTimestamp.Some? then 1 else 0) + |f.extraTimestamps|
  }

  predicate BlocksFit(blocks: seq<ExtraAckBlock>, size: nat) {
    forall i :: 0 <= i < |blocks| ==> blocks[i].blockLength < Pow256(size)
  }

  function EncodeBlock(b: ExtraAckBlock, size: nat): (r: seq<u8>)
    requires b.blockLength < Pow256(size)
    ensures |r| == 1 + size
  {
    [b.gap] + EncodeUint(b.blockLength, size)
  }

  /** The extra block section: each block as a gap byte and a `size`-byte length. */
  function EncodeBlocks(blocks: seq<ExtraAckBlock>, size: nat): (r: seq<u8>)
    requires BlocksFit(blocks, size)
  {
    if blocks == [] then []
    else EncodeBlock(blocks[0], size) + EncodeBlocks(blocks[1..], size)
  }

  function EncodeFirstTimestamp(ts: Option<FirstAckTimestamp>): (r: seq<u8>)
    ensures |r| == if ts.Some? then 5 else 0
  {
    Pow256Values();
    match ts
    case None => []
    case Some(t) => [t.deltaLa] + EncodeUint(t.deltaTimestamp, 4)
  }

  function EncodeExtraTimestamp(t: ExtraAckTimestamp): (r: seq<u8>)
    ensures |r| == 3
  {
    Pow256Values();
    [t.deltaLa] + EncodeUint(t.deltaTimestamp, 2)
  }

  function EncodeExtraTimestamps(ts: seq<ExtraAckTimestamp>): (r: seq<u8>)
    ensures |r| == 3 * |ts|
  {
    if ts == [] then []
    else EncodeExtraTimestamp(ts[0]) + EncodeExtraTimestamps(ts[1..])
  }

  /** The fields of f fit the sizes type byte t announces, and both counts fit a byte. */
  predicate FitsType(t: u8, f: AckFrame) {
    && IsAckType(t)
    && f.largestAcknowledged < Pow256(LargestAckSize(t))
    && f.firstAckBlockLength < Pow256(AckBlockSize(t))
    && BlocksFit(f.extraAckBlocks, AckBlockSize(t))
    && |f.extraAckBlocks| < 0x100
    && (!HasExtraAckBlocks(t) ==> f.extraAckBlocks == [])
    && TimestampCount(f) < 0x100
    && (f.firstTimestamp.None? ==> f.extraTimestamps == [])
  }

  /** The fixed fields after the type byte, as the decoder reads them. */
  datatype AckHeader = AckHeader(
    blockCount: u8, timestampCount: u8, largestAcknowledged: u64, ackDelay: u16, firstAckBlockLength: u64)

  /** The count bytes: the block count (only with the extra-blocks bit) and the timestamp count. */
  function EncodeCounts(t: u8, blockCount: u8, timestampCount: u8): seq<u8>
  {
    (if HasExtraAckBlocks(t) then [blockCount] else []) + [timestampCount]
  }

  /** The largest acknowledged packet number, the delay and the first block length. */
  function EncodeFixedFields(t: u8, largest: nat, delay: u16, firstBlock: nat): seq<u8>
    requires largest < Pow256(LargestAckSize(t))
    requires firstBlock < Pow256(AckBlockSize(t))
  {
    assert Pow256(2) == 0x1_0000 by {
      Pow256Values();
    }
    EncodeUint(largest, LargestAckSize(t)) + EncodeUint(delay, 2) + EncodeUint(firstBlock, AckBlockSize(t))
  }

  /** The bytes of the fixed fields after the type byte. */
  function EncodeHeaderFields(t: u8, h: AckHeader): seq<u8>
    requires h.largestAcknowledged < Pow256(LargestAckSize(t))
    requires h.firstAckBlockLength < Pow256(AckBlockSize(t))
  {
    EncodeCounts(t, h.blockCount, h.timestampCount)
      + EncodeFixedFields(t, h.largestAcknowledged, h.ackDelay, h.firstAckBlockLength)
  }

  /** The header fields f carries. */
  function HeaderOf(f: AckFrame): AckHeader
    requires |f.extraAckBlocks| < 0x100 && TimestampCount(f) < 0x100
  {
    AckHeader(|f.extraAckBlocks|, TimestampCount(f), f.largestAcknowledged, f.ackDelay, f.firstAckBlockLength)
  }

  /** The fixed part: type byte, counts, largest acknowledged, delay and first block. */
  function EncodeHeader(t: u8, f: AckFrame): seq<u8>
    requires FitsType(t, f)
  {
    [t] + EncodeHeaderFields(t, HeaderOf(f))
  }

  /** The timestamp section: the first timestamp, then the extra ones. */
  function EncodeTimestamps(f: AckFrame): seq<u8> {
    EncodeFirstTimestamp(f.firstTimestamp) + EncodeExtraTimestamps(f.extraTimestamps)
  }

  /** Every layout the decoder accepts, with the field sizes of t. */
  function Layout(t: u8, f: AckFrame): seq<u8>
    requires FitsType(t, f)
  {
    EncodeHeader(t, f) + EncodeBlocks(f.extraAckBlocks, AckBlockSize(t)) + EncodeTimestamps(f)
  }

  /** A layout starts with its type byte. */
  lemma LayoutStartsWithType(t: u8, f: AckFrame)
    requires FitsType(t, f)
    ensures |Layout(t, f)| > 0 && Layout(t, f)[0] == t
  {
    Seqs.Assoc(EncodeHeader(t, f), EncodeBlocks(f.extraAckBlocks, AckBlockSize(t)), EncodeTimestamps(f));
    Seqs.Assoc([t], EncodeHeaderFields(t, HeaderOf(f)), EncodeBlocks(f.extraAckBlocks, AckBlockSize(t)) + EncodeTimestamps(f));
  }

  /** What `encode` demands: both counts fit a byte, the untruncated 6-byte
      fields fit, and extra timestamps come after a first one. */
  predicate CanEncode(f: AckFrame) {
    && |f.extraAckBlocks| < 0x100
    && TimestampCount(f) < 0x100
    && f.firstAckBlockLength < Pow256(6)
    && BlocksFit(f.extraAckBlocks, 6)
    && (f.firstTimestamp.None? ==> f.extraTimestamps == [])
  }

  /** The frame as the wire carries it: only the largest acknowledged packet
      number is truncated, to its 6 low bytes. */
  function WireImage(f: AckFrame): (g: AckFrame)
    ensures g.largestAcknowledged < Pow256(6)
    ensures f.largestAcknowledged < Pow256(6) ==> g == f
  {
    Pow256Values();
    if f.largestAcknowledged < Pow256(6) then TruncateIdentity(f.largestAcknowledged, 6); f
    else f.(largestAcknowledged := TruncateU64(f.largestAcknowledged, 6))
  }

  /** `AckFrame::encode`: the layout of a type byte with 6-byte sizes and the
      extra-blocks bit set exactly when there are extra blocks, carrying the
      frame with its largest acknowledged packet number truncated to 6 bytes. */
  function Encode(f: AckFrame): (r: seq<u8>)
    requires CanEncode(f)
    ensures FitsType(TypeByte(f.extraAckBlocks != []), WireImage(f))
    ensures |r| > 0 && r[0] == TypeByte(f.extraAckBlocks != [])
  {
    TypeByteFields(f.extraAckBlocks != []);
    LayoutStartsWithType(TypeByte(f.extraAckBlocks != []), WireImage(f));
    Layout(TypeByte(f.extraAckBlocks != []), WireImage(f))
  }

  /** Blocks that fit, with one more in front. */
  lemma BlocksCons(b: ExtraAckBlock, tail: seq<ExtraAckBlock>, size: nat)
    requires b.blockLength < Pow256(size) && BlocksFit(tail, size)
    ensures BlocksFit([b] + tail, size) && ([b] + tail)[0] == b && ([b] + tail)[1..] == tail
  {
    assert ([b] + tail)[1..] == tail;
  }

  /** One extra block: a gap byte and a `size`-byte length. */
  function DecodeBlock(s: seq<u8>, size: nat): (r: Result<Parsed<ExtraAckBlock>>)
    requires size <= 8
    ensures r.Err? ==> r.error.Decoding?
    ensures r.Ok? ==> r.value.value.blockLength < Pow256(size)
    ensures r.Ok? ==> s == EncodeBlock(r.value.value, size) + r.value.rest
  {
    var gap :- MapEof(ReadU8(s));
    var blockLength :- MapEof(ReadU64(gap.rest, size));
    Seqs.Chain2(s, [gap.value], gap.rest, EncodeUint(blockLength.value, size), blockLength.rest);
    Ok(Parsed(ExtraAckBlock(gap.value, blockLength.value), blockLength.rest))
  }

  /** The extra block section: `count` blocks one after another. */
  function DecodeBlocks(s: seq<u8>, count: nat, size: nat): (r: Result<Parsed<seq<ExtraAckBlock>>>)
    requires size <= 8
    ensures r.Err? ==> r.error.Decoding?
    ensures r.Ok? ==> |r.value.value| == count
    decreases count
  {
    if count == 0 then Ok(Parsed([], s))
    else
      var block :- DecodeBlock(s, size);
      var tail :- DecodeBlocks(block.rest, count - 1, size);
      Ok(Parsed([block.value] + tail.value, tail.rest))
  }

  /** A block in front of blocks that fit, each read off its encoding. */
  lemma BlocksLayoutCons(s: seq<u8>, block: Parsed<ExtraAckBlock>, tail: Parsed<seq<ExtraAckBlock>>, size: nat)
    requires block.value.blockLength < Pow256(size) && s == EncodeBlock(block.value, size) + block.rest
    requires BlocksFit(tail.value, size) && block.rest == EncodeBlocks(tail.value, size) + tail.rest
    ensures BlocksFit([block.value] + tail.value, size)
    ensures s == EncodeBlocks([block.value] + tail.value, size) + tail.rest
  {
    BlocksCons(block.value, tail.value, size);
    Seqs.Chain2(s, EncodeBlock(block.value, size), block.rest, EncodeBlocks(tail.value, size), tail.rest);
  }

  /** The blocks decoded fit their size, and the bytes read are their encoding. */
  lemma {:induction false} DecodeBlocksLayout(s: seq<u8>, count: nat, size: nat)
    requires size <= 8
    ensures var r := DecodeBlocks(s, count, size);
      r.Ok? ==> BlocksFit(r.value.value, size) && s == EncodeBlocks(r.value.value, size) + r.value.rest
    decreases count
  {
    if count > 0 {
      var next := count - 1;
      BlocksCount(s, count, next + 1, size);
      DecodeBlocksUnfold(s, next, size);
      if DecodeBlock(s, size).Ok? {
        var block := DecodeBlock(s, size).value;
        DecodeBlocksLayout(block.rest, next, size);
        var tail := DecodeBlocks(block.rest, next, size);
        if tail.Ok? {
          BlocksLayoutCons(s, block, tail.value, size);
        }
      }
    }
  }

  /** The first timestamp is present exactly when the timestamp count is positive. */
  function DecodeFirstTimestamp(s: seq<u8>, timestampCount: nat): (r: Result<Parsed<Option<FirstAckTimestamp>>>)
    ensures r.Err? ==> r.error.Decoding?
    ensures r.Ok? ==> (r.value.value.Some? <==> timestampCount > 0)
    ensures r.Ok? ==> s == EncodeFirstTimestamp(r.value.value) + r.value.rest
  {
    if timestampCount > 0 then
      var deltaLa :- MapEof(ReadU8(s));
      var deltaTimestamp :- MapEof(ReadU32(deltaLa.rest));
      Ok(Parsed(Some(FirstAckTimestamp(deltaLa.value, deltaTimestamp.value)), deltaTimestamp.rest))
    else
      Ok(Parsed(None, s))
  }

  /** One extra timestamp: a delta byte and a 2-byte delta. */
  function DecodeExtraTimestamp(s: seq<u8>): (r: Result<Parsed<ExtraAckTimestamp>>)
    ensures r.Err? ==> r.error.Decoding?
    ensures r.Ok? ==> s == EncodeExtraTimestamp(r.value.value) + r.value.rest
  {
    var deltaLa :- MapEof(ReadU8(s));
    var deltaTimestamp :- MapEof(ReadU16(deltaLa.rest));
    Ok(Parsed(ExtraAckTimestamp(deltaLa.value, deltaTimestamp.value), deltaTimestamp.rest))
  }

  /** The extra timestamps: `count` entries one after another. */
  function DecodeExtraTimestamps(s: seq<u8>, count: nat): (r: Result<Parsed<seq<ExtraAckTimestamp>>>)
    ensures r.Err? ==> r.error.Decoding?
    ensures r.Ok? ==> |r.value.value| == count
    decreases count
  {
    if count == 0 then Ok(Parsed([], s))
    else
      var timestamp :- DecodeExtraTimestamp(s);
      var tail :- DecodeExtraTimestamps(timestamp.rest, count - 1);
      Ok(Parsed([timestamp.value] + tail.value, tail.rest))
  }

  /** A timestamp in front of timestamps, each read off its encoding. */
  lemma TimestampsLayoutCons(s: seq<u8>, timestamp: Parsed<ExtraAckTimestamp>, tail: Parsed<seq<ExtraAckTimestamp>>)
    requires s == EncodeExtraTimestamp(timestamp.value) + timestamp.rest
    requires timestamp.rest == EncodeExtraTimestamps(tail.value) + tail.rest
    ensures s == EncodeExtraTimestamps([timestamp.value] + tail.value) + tail.rest
  {
    var timestamps := [timestamp.value] + tail.value;
    assert timestamps[1..] == tail.value;
    Seqs.Chain2(s, EncodeExtraTimestamp(timestamp.value), timestamp.rest, EncodeExtraTimestamps(tail.value), tail.rest);
  }

  /** The bytes the extra timestamp decoder reads are the encoding of what it returns. */
  lemma {:induction false} DecodeExtraTimestampsLayout(s: seq<u8>, count: nat)
    ensures var r := DecodeExtraTimestamps(s, count);
      r.Ok? ==> s == EncodeExtraTimestamps(r.value.value) + r.value.rest
    decreases count
  {
    if count > 0 {
      var next := count - 1;
      TimestampsCount(s, count, next + 1);
      DecodeExtraTimestampsUnfold(s, next);
      if DecodeExtraTimestamp(s).Ok? {
        var timestamp := DecodeExtraTimestamp(s).value;
        DecodeExtraTimestampsLayout(timestamp.rest, next);
        var tail := DecodeExtraTimestamps(timestamp.rest, next);
        if tail.Ok? {
          TimestampsLayoutCons(s, timestamp, tail.value);
        }
      }
    }
  }

  /** Reads the count bytes; without the extra-blocks bit the block count is 0. */
  function DecodeCounts(t: u8, s: seq<u8>): (r: Result<Parsed<(u8, u8)>>)
    ensures r.Err? ==> r.error.Decoding?
    ensures r.Ok? ==> !HasExtraAckBlocks(t) ==> r.value.value.0 == 0
    ensures r.Ok? ==> s == EncodeCounts(t, r.value.value.0, r.value.value.1) + r.value.rest
  {
    var blockCount :- if HasExtraAckBlocks(t) then MapEof(ReadU8(s)) else Ok(Parsed(0, s));
    var timestampCount :- MapEof(ReadU8(blockCount.rest));
    assert s == (if HasExtraAckBlocks(t) then [blockCount.value] else []) + blockCount.rest;
    Ok(Parsed((blockCount.value, timestampCount.value), timestampCount.rest))
  }

  /** Reads the largest acknowledged packet number, the delay and the first block length. */
  function DecodeFixedFields(t: u8, s: seq<u8>): (r: Result<Parsed<(u64, u16, u64)>>)
    ensures r.Err? ==> r.error.Decoding?
    ensures r.Ok? ==> r.value.value.0 < Pow256(LargestAckSize(t))
    ensures r.Ok? ==> r.value.value.2 < Pow256(AckBlockSize(t))
    ensures r.Ok? ==> s == EncodeFixedFields(t, r.value.value.0, r.value.value.1, r.value.value.2) + r.value.rest
  {
    var largest :- MapEof(ReadU64(s, LargestAckSize(t)));
    var delay :- MapEof(ReadU16(largest.rest));
    var firstBlock :- MapEof(ReadU64(delay.rest, AckBlockSize(t)));
    var e1 := EncodeUint(largest.value, LargestAckSize(t));
    var e2 := EncodeUint(delay.value, 2);
    var e3 := EncodeUint(firstBlock.value, AckBlockSize(t));
    assert largest.rest == e2 + (e3 + firstBlock.rest);
    Concat3(s, e1, e2, e3, largest.rest, firstBlock.rest);
    assert EncodeFixedFields(t, largest.value, delay.value, firstBlock.value) == e1 + e2 + e3;
    Ok(Parsed((largest.value, delay.value, firstBlock.value), firstBlock.rest))
  }

  /** Three pieces in front of a rest, regrouped. */
  lemma Concat3(s: seq<u8>, a: seq<u8>, b: seq<u8>, c: seq<u8>, m: seq<u8>, rest: seq<u8>)
    requires s == a + m && m == b + (c + rest)
    ensures s == (a + b + c) + rest
  {
  }

  /** `s == a + m` and `m == b + rest` give `s == (a + b) + rest`. */
  lemma Concat2(s: seq<u8>, a: seq<u8>, m: seq<u8>, b: seq<u8>, rest: seq<u8>)
    requires s == a + m && m == b + rest
    ensures s == (a + b) + rest
  {
  }

  /** The block count (only with the extra-blocks bit), the timestamp count,
      the largest acknowledged packet number, the delay and the first block length. */
  function DecodeHeaderFields(t: u8, s: seq<u8>): (r: Result<Parsed<AckHeader>>)
    ensures r.Err? ==> r.error.Decoding?
    ensures r.Ok? ==> !HasExtraAckBlocks(t) ==> r.value.value.blockCount == 0
    ensures r.Ok? ==> r.value.value.largestAcknowledged < Pow256(LargestAckSize(t))
    ensures r.Ok? ==> r.value.value.firstAckBlockLength < Pow256(AckBlockSize(t))
    ensures r.Ok? ==> s == EncodeHeaderFields(t, r.value.value) + r.value.rest
  {
    var counts :- DecodeCounts(t, s);
    var fixed :- DecodeFixedFields(t, counts.rest);
    var h := AckHeader(counts.value.0, counts.value.1, fixed.value.0, fixed.value.1, fixed.value.2);
    Concat2(s, EncodeCounts(t, h.blockCount, h.timestampCount), counts.rest,
            EncodeFixedFields(t, h.largestAcknowledged, h.ackDelay, h.firstAckBlockLength), fixed.rest);
    Ok(Parsed(h, fixed.rest))
  }

  /** The number of extra timestamps a timestamp count announces. */
  function ExtraTimestampCount(timestampCount: nat): (n: nat)
    ensures (if timestampCount > 0 then 1 else 0) + n == timestampCount
  {
    if timestampCount > 1 then timestampCount - 1 else 0
  }

  /** `AckFrame::decode`.  EOF on the type byte is an io error; any later EOF is
      a decoding error.  Decoding panics on a type byte that is not an ACK. */
  function Decode(s: seq<u8>): (r: Result<Parsed<AckFrame>>)
    requires |s| == 0 || IsAckType(s[0])
    ensures |s| == 0 ==> r == Err(Io(EofError))
    ensures |s| > 0 && r.Err? ==> r.error.Decoding?
    ensures r.Ok? ==> FitsType(s[0], r.value.value) && s == Layout(s[0], r.value.value) + r.value.rest
  {
    var frameType :- FromIo(ReadU8(s));
    var t := frameType.value;
    var header :- DecodeHeaderFields(t, frameType.rest);
    var h := header.value;
    var blocks :- DecodeBlocks(header.rest, h.blockCount, AckBlockSize(t));
    var firstTimestamp :- DecodeFirstTimestamp(blocks.rest, h.timestampCount);
    var extraTimestamps :- DecodeExtraTimestamps(firstTimestamp.rest, ExtraTimestampCount(h.timestampCount));
    DecodeBlocksLayout(header.rest, h.blockCount, AckBlockSize(t));
    DecodeExtraTimestampsLayout(firstTimestamp.rest, ExtraTimestampCount(h.timestampCount));
    var frame := AckFrame(h.largestAcknowledged, h.ackDelay, h.firstAckBlockLength,
                          blocks.value, firstTimestamp.value, extraTimestamps.value);
    LayoutChain(s, t, h, frame, frameType.rest, header.rest, blocks.rest, firstTimestamp.rest, extraTimestamps.rest);
    Ok(Parsed(frame, extraTimestamps.rest))
  }

  /** The decoder's section-by-section reads add up to one layout. */
  lemma LayoutChain(s: seq<u8>, t: u8, h: AckHeader, f: AckFrame,
                    a: seq<u8>, b: seq<u8>, c: seq<u8>, d: seq<u8>, rest: seq<u8>)
    requires IsAckType(t) && s == [t] + a
    requires !HasExtraAckBlocks(t) ==> h.blockCount == 0
    requires h.largestAcknowledged == f.largestAcknowledged && h.ackDelay == f.ackDelay
    requires h.firstAckBlockLength == f.firstAckBlockLength
    requires h.largestAcknowledged < Pow256(LargestAckSize(t))
    requires h.firstAckBlockLength < Pow256(AckBlockSize(t))
    requires |f.extraAckBlocks| == h.blockCount && BlocksFit(f.extraAckBlocks, AckBlockSize(t))
    requires (f.firstTimestamp.Some? <==> h.timestampCount > 0)
    requires |f.extraTimestamps| == ExtraTimestampCount(h.timestampCount)
    requires a == EncodeHeaderFields(t, h) + b
    requires b == EncodeBlocks(f.extraAckBlocks, AckBlockSize(t)) + c
    requires c == EncodeFirstTimestamp(f.firstTimestamp) + d
    requires d == EncodeExtraTimestamps(f.extraTimestamps) + rest
    ensures FitsType(t, f) && s == Layout(t, f) + rest
  {
    assert TimestampCount(f) == h.timestampCount;
    assert h == HeaderOf(f);
    assert FitsType(t, f);
    var header := EncodeHeaderFields(t, h);
    var blocks := EncodeBlocks(f.extraAckBlocks, AckBlockSize(t));
    var first := EncodeFirstTimestamp(f.firstTimestamp);
    var extra := EncodeExtraTimestamps(f.extraTimestamps);
    assert EncodeHeader(t, f) == [t] + header;
    assert EncodeTimestamps(f) == first + extra;
    assert s == [t] + (header + (blocks + (first + (extra + rest))));
    Regroup5([t], header, blocks, first, extra, rest);
  }

  /** Five pieces in front of a rest, grouped as a layout groups them. */
  lemma Regroup5(p0: seq<u8>, p1: seq<u8>, p2: seq<u8>, p3: seq<u8>, p4: seq<u8>, rest: seq<u8>)
    ensures (p0 + p1) + p2 + (p3 + p4) + rest == p0 + (p1 + (p2 + (p3 + (p4 + rest))))
  {
  }

  lemma ReadCountsEncoded(t: u8, blockCount: u8, timestampCount: u8, rest: seq<u8>)
    requires !HasExtraAckBlocks(t) ==> blockCount == 0
    ensures DecodeCounts(t, EncodeCounts(t, blockCount, timestampCount) + rest)
         == Ok(Parsed((blockCount, timestampCount), rest))
  {
    if HasExtraAckBlocks(t) {
      assert EncodeCounts(t, blockCount, timestampCount) + rest == [blockCount] + ([timestampCount] + rest);
      ReadU8Encoded(blockCount, [timestampCount] + rest);
    } else {
      assert EncodeCounts(t, blockCount, timestampCount) + rest == [timestampCount] + rest;
    }
    ReadU8Encoded(timestampCount, rest);
  }

  lemma ReadFixedFieldsEncoded(t: u8, largest: u64, delay: u16, firstBlock: u64, rest: seq<u8>)
    requires largest < Pow256(LargestAckSize(t))
    requires firstBlock < Pow256(AckBlockSize(t))
    ensures DecodeFixedFields(t, EncodeFixedFields(t, largest, delay, firstBlock) + rest)
         == Ok(Parsed((largest, delay, firstBlock), rest))
  {
    var e1 := EncodeUint(largest, LargestAckSize(t));
    var e2 := EncodeUint(delay, 2);
    var e3 := EncodeUint(firstBlock, AckBlockSize(t));
    assert EncodeFixedFields(t, largest, delay, firstBlock) + rest == e1 + (e2 + (e3 + rest));
    ReadU64Encoded(largest, LargestAckSize(t), e2 + (e3 + rest));
    ReadU16Encoded(delay, e3 + rest);
    ReadU64Encoded(firstBlock, AckBlockSize(t), rest);
  }

  lemma ReadHeaderFieldsEncoded(t: u8, h: AckHeader, rest: seq<u8>)
    requires !HasExtraAckBlocks(t) ==> h.blockCount == 0
    requires h.largestAcknowledged < Pow256(LargestAckSize(t))
    requires h.firstAckBlockLength < Pow256(AckBlockSize(t))
    ensures DecodeHeaderFields(t, EncodeHeaderFields(t, h) + rest) == Ok(Parsed(h, rest))
  {
    var counts := EncodeCounts(t, h.blockCount, h.timestampCount);
    var fixed := EncodeFixedFields(t, h.largestAcknowledged, h.ackDelay, h.firstAckBlockLength);
    assert EncodeHeaderFields(t, h) + rest == counts + (fixed + rest);
    ReadCountsEncoded(t, h.blockCount, h.timestampCount, fixed + rest);
    ReadFixedFieldsEncoded(t, h.largestAcknowledged, h.ackDelay, h.firstAckBlockLength, rest);
  }

  lemma ReadBlockEncoded(b: ExtraAckBlock, size: nat, rest: seq<u8>)
    requires size <= 8 && b.blockLength < Pow256(size)
    ensures DecodeBlock(EncodeBlock(b, size) + rest, size) == Ok(Parsed(b, rest))
  {
    assert EncodeBlock(b, size) + rest == [b.gap] + (EncodeUint(b.blockLength, size) + rest);
    ReadU8Encoded(b.gap, EncodeUint(b.blockLength, size) + rest);
    ReadU64Encoded(b.blockLength, size, rest);
  }

  lemma {:induction false} ReadBlocksEncoded(blocks: seq<ExtraAckBlock>, size: nat, rest: seq<u8>)
    requires size <= 8 && BlocksFit(blocks, size)
    ensures DecodeBlocks(EncodeBlocks(blocks, size) + rest, |blocks|, size) == Ok(Parsed(blocks, rest))
    decreases |blocks|
  {
    if blocks != [] {
      var tail := blocks[1..];
      assert BlocksFit(tail, size);
      var s := EncodeBlocks(blocks, size) + rest;
      var more := EncodeBlocks(tail, size) + rest;
      Seqs.Assoc(EncodeBlock(blocks[0], size), EncodeBlocks(tail, size), rest);
      ReadBlockEncoded(blocks[0], size, more);
      ReadBlocksEncoded(tail, size, rest);
      BlocksCount(s, |blocks|, |tail| + 1, size);
      DecodeBlocksUnfold(s, |tail|, size);
      Seqs.ConsTail(blocks);
    } else {
      Seqs.EmptyLeft(rest);
    }
  }

  lemma ReadFirstTimestampEncoded(ts: Option<FirstAckTimestamp>, timestampCount: nat, rest: seq<u8>)
    requires ts.Some? <==> timestampCount > 0
    ensures DecodeFirstTimestamp(EncodeFirstTimestamp(ts) + rest, timestampCount) == Ok(Parsed(ts, rest))
  {
    if ts.Some? {
      var e := EncodeUint(ts.value.deltaTimestamp, 4);
      assert EncodeFirstTimestamp(ts) + rest == [ts.value.deltaLa] + (e + rest) by {
        Pow256Values();
      }
      ReadU8Encoded(ts.value.deltaLa, e + rest);
      ReadU32Encoded(ts.value.deltaTimestamp, rest);
    } else {
      assert EncodeFirstTimestamp(ts) + rest == rest;
    }
  }

  lemma ReadExtraTimestampEncoded(ts: ExtraAckTimestamp, rest: seq<u8>)
    ensures DecodeExtraTimestamp(EncodeExtraTimestamp(ts) + rest) == Ok(Parsed(ts, rest))
  {
    var e := EncodeUint(ts.deltaTimestamp, 2);
    assert EncodeExtraTimestamp(ts) + rest == [ts.deltaLa] + (e + rest) by {
      Pow256Values();
    }
    ReadU8Encoded(ts.deltaLa, e + rest);
    ReadU16Encoded(ts.deltaTimestamp, rest);
  }

  lemma {:induction false} ReadExtraTimestampsEncoded(ts: seq<ExtraAckTimestamp>, rest: seq<u8>)
    ensures DecodeExtraTimestamps(EncodeExtraTimestamps(ts) + rest, |ts|) == Ok(Parsed(ts, rest))
    decreases |ts|
  {
    if ts != [] {
      var tail := ts[1..];
      var s := EncodeExtraTimestamps(ts) + rest;
      var more := EncodeExtraTimestamps(tail) + rest;
      Seqs.Assoc(EncodeExtraTimestamp(ts[0]), EncodeExtraTimestamps(tail), rest);
      ReadExtraTimestampEncoded(ts[0], more);
      ReadExtraTimestampsEncoded(tail, rest);
      TimestampsCount(s, |ts|, |tail| + 1);
      DecodeExtraTimestampsUnfold(s, |tail|);
      Seqs.ConsTail(ts);
    } else {
      Seqs.EmptyLeft(rest);
    }
  }

  /** Every layout the decoder accepts decodes back to the frame it carries:
      together with the ensures of `Decode`, the decoder and `Layout` are inverse. */
  lemma DecodeLayout(t: u8, f: AckFrame, rest: seq<u8>)
    requires FitsType(t, f)
    ensures Decode(Layout(t, f) + rest) == Ok(Parsed(f, rest))
  {
    var h := HeaderOf(f);
    var header := EncodeHeaderFields(t, h);
    var blocks := EncodeBlocks(f.extraAckBlocks, AckBlockSize(t));
    var first := EncodeFirstTimestamp(f.firstTimestamp);
    var extra := EncodeExtraTimestamps(f.extraTimestamps);
    assert Layout(t, f) == ([t] + header) + blocks + (first + extra);
    Regroup5([t], header, blocks, first, extra, rest);
    var d := extra + rest;
    var c := first + d;
    var b := blocks + c;
    var a := header + b;
    ReadU8Encoded(t, a);
    ReadHeaderFieldsEncoded(t, h, b);
    ReadBlocksEncoded(f.extraAckBlocks, AckBlockSize(t), c);
    ReadFirstTimestampEncoded(f.firstTimestamp, h.timestampCount, d);
    assert ExtraTimestampCount(h.timestampCount) == |f.extraTimestamps|;
    ReadExtraTimestampsEncoded(f.extraTimestamps, rest);
  }

  /** `decode` after `encode` gives back the frame with its largest
      acknowledged packet number truncated to 6 bytes. */
  lemma DecodeEncode(f: AckFrame, rest: seq<u8>)
    requires CanEncode(f)
    ensures Decode(Encode(f) + rest) == Ok(Parsed(WireImage(f), rest))
  {
    EncodeIsLayout(f);
    DecodeLayout(TypeByte(f.extraAckBlocks != []), WireImage(f), rest);
  }

  /** The encoding is the layout of its type byte and wire image. */
  lemma EncodeIsLayout(f: AckFrame)
    requires CanEncode(f)
    ensures FitsType(TypeByte(f.extraAckBlocks != []), WireImage(f))
    ensures Encode(f) == Layout(TypeByte(f.extraAckBlocks != []), WireImage(f))
  {
    TypeByteFields(f.extraAckBlocks != []);
  }

  /** With a largest acknowledged packet number below 2^48 the round trip is exact. */
  lemma DecodeEncodeExact(f: AckFrame, rest: seq<u8>)
    requires CanEncode(f) && f.largestAcknowledged < Pow256(6)
    ensures Decode(Encode(f) + rest) == Ok(Parsed(f, rest))
  {
    DecodeEncode(f, rest);
  }

  /** One unfolding of the extra block decoder, for a count written as `next + 1`. */
  lemma DecodeBlocksUnfold(cur: seq<u8>, next: nat, size: nat)
    requires size <= 8
    ensures DecodeBlock(cur, size).Err? ==> DecodeBlocks(cur, next + 1, size) == Err(DecodeBlock(cur, size).error)
    ensures DecodeBlock(cur, size).Ok? ==>
      DecodeBlocks(cur, next + 1, size)
      == Prepend([DecodeBlock(cur, size).value.value], DecodeBlocks(DecodeBlock(cur, size).value.rest, next, size))
  {
  }

  /** Equal counts, equal results: turns a count held in a variable into one
      written as `next + 1`. */
  lemma BlocksCount(s: seq<u8>, a: nat, b: nat, size: nat)
    requires size <= 8 && a == b
    ensures DecodeBlocks(s, a, size) == DecodeBlocks(s, b, size)
  {
  }

  /** One turn of the extra block loop against the recursive decoder: the loop
      has read `acc`, and `goal` is what it will return.  When a block is read it
      moves from the decoder's result into `acc`; when the input runs out, `goal`
      is the error of that read. */
  lemma BlocksTurn(acc: seq<ExtraAckBlock>, cur: seq<u8>, left: nat, next: nat, size: nat,
                   goal: Result<Parsed<seq<ExtraAckBlock>>>)
    requires size <= 8 && left == next + 1
    requires Prepend(acc, DecodeBlocks(cur, left, size)) == goal
    ensures DecodeBlock(cur, size).Err? ==> goal == Err(DecodeBlock(cur, size).error)
    ensures DecodeBlock(cur, size).Ok? ==>
      Prepend(acc + [DecodeBlock(cur, size).value.value], DecodeBlocks(DecodeBlock(cur, size).value.rest, next, size)) == goal
  {
    BlocksCount(cur, left, next + 1, size);
    DecodeBlocksUnfold(cur, next, size);
    if DecodeBlock(cur, size).Ok? {
      var block := DecodeBlock(cur, size).value;
      PrependAppend(acc, block.value, DecodeBlocks(block.rest, next, size));
    }
  }

  /** The extra block loop of `decode`: `count` times a gap byte and a block length. */
  method ReadExtraAckBlocks(s: seq<u8>, count: nat, size: nat) returns (r: Result<Parsed<seq<ExtraAckBlock>>>)
    requires size <= 8
    ensures r == DecodeBlocks(s, count, size)
  {
    var blocks: seq<ExtraAckBlock> := [];
    var cur := s;
    var left := count;
    PrependEmpty(DecodeBlocks(s, count, size));
    while left > 0
      invariant Prepend(blocks, DecodeBlocks(cur, left, size)) == DecodeBlocks(s, count, size)
    {
      var next := left - 1;
      var block := DecodeBlock(cur, size);
      BlocksTurn(blocks, cur, left, next, size, DecodeBlocks(s, count, size));
      if block.Err? {
        return Err(block.error);
      }
      blocks := blocks + [block.value.value];
      cur := block.value.rest;
      left := next;
    }
    PrependDone(blocks, cur);
    r := Ok(Parsed(blocks, cur));
  }

  /** One unfolding of the extra timestamp decoder, for a count written as `next + 1`. */
  lemma DecodeExtraTimestampsUnfold(cur: seq<u8>, next: nat)
    ensures DecodeExtraTimestamp(cur).Err? ==> DecodeExtraTimestamps(cur, next + 1) == Err(DecodeExtraTimestamp(cur).error)
    ensures DecodeExtraTimestamp(cur).Ok? ==>
      DecodeExtraTimestamps(cur, next + 1)
      == Prepend([DecodeExtraTimestamp(cur).value.value], DecodeExtraTimestamps(DecodeExtraTimestamp(cur).value.rest, next))
  {
  }

  /** Equal counts, equal results, as `BlocksCount` is for blocks. */
  lemma TimestampsCount(s: seq<u8>, a: nat, b: nat)
    requires a == b
    ensures DecodeExtraTimestamps(s, a) == DecodeExtraTimestamps(s, b)
  {
  }

  /** One turn of the extra timestamp loop against the recursive decoder, as
      `BlocksTurn` is for the block loop. */
  lemma TimestampsTurn(acc: seq<ExtraAckTimestamp>, cur: seq<u8>, left: nat, next: nat,
                       goal: Result<Parsed<seq<ExtraAckTimestamp>>>)
    requires left == next + 1
    requires Prepend(acc, DecodeExtraTimestamps(cur, left)) == goal
    ensures DecodeExtraTimestamp(cur).Err? ==> goal == Err(DecodeExtraTimestamp(cur).error)
    ensures DecodeExtraTimestamp(cur).Ok? ==>
      Prepend(acc + [DecodeExtraTimestamp(cur).value.value], DecodeExtraTimestamps(DecodeExtraTimestamp(cur).value.rest, next)) == goal
  {
    TimestampsCount(cur, left, next + 1);
    DecodeExtraTimestampsUnfold(cur, next);
    if DecodeExtraTimestamp(cur).Ok? {
      var timestamp := DecodeExtraTimestamp(cur).value;
      PrependAppend(acc, timestamp.value, DecodeExtraTimestamps(timestamp.rest, next));
    }
  }

  /** The extra timestamp loop of `decode`: `count` times a delta byte and a 2-byte delta. */
  method ReadExtraTimestamps(s: seq<u8>, count: nat) returns (r: Result<Parsed<seq<ExtraAckTimestamp>>>)
    ensures r == DecodeExtraTimestamps(s, count)
  {
    var timestamps: seq<ExtraAckTimestamp> := [];
    var cur := s;
    var left := count;
    PrependEmpty(DecodeExtraTimestamps(s, count));
    while left > 0
      invariant Prepend(timestamps, DecodeExtraTimestamps(cur, left)) == DecodeExtraTimestamps(s, count)
    {
      var next := left - 1;
      var timestamp := DecodeExtraTimestamp(cur);
      TimestampsTurn(timestamps, cur, left, next, DecodeExtraTimestamps(s, count));
      if timestamp.Err? {
        return Err(timestamp.error);
      }
      timestamps := timestamps + [timestamp.value.value];
      cur := timestamp.value.rest;
      left := next;
    }
    PrependDone(timestamps, cur);
    r := Ok(Parsed(timestamps, cur));
  }

  /** Encoding one more block appends its bytes. */
  lemma {:induction false} EncodeBlocksAppend(blocks: seq<ExtraAckBlock>, b: ExtraAckBlock, size: nat)
    requires BlocksFit(blocks, size) && b.blockLength < Pow256(size)
    ensures BlocksFit(blocks + [b], size)
    ensures EncodeBlocks(blocks + [b], size) == EncodeBlocks(blocks, size) + EncodeBlock(b, size)
    decreases |blocks|
  {
    assert BlocksFit(blocks + [b], size) by {
      forall i | 0 <= i < |blocks + [b]|
        ensures (blocks + [b])[i].blockLength < Pow256(size)
      {
        if i < |blocks| {
          assert (blocks + [b])[i] == blocks[i];
        }
      }
    }
    if blocks == [] {
      assert [] + [b] == [b];
      assert [b][1..] == [];
    } else {
      assert (blocks + [b])[1..] == blocks[1..] + [b];
      assert BlocksFit(blocks[1..], size);
      EncodeBlocksAppend(blocks[1..], b, size);
    }
  }

  /** The extra block loop of `encode`. */
  method WriteExtraAckBlocks(blocks: seq<ExtraAckBlock>, size: nat) returns (out: seq<u8>)
    requires BlocksFit(blocks, size)
    ensures out == EncodeBlocks(blocks, size)
  {
    out := [];
    for i := 0 to |blocks|
      invariant BlocksFit(blocks[..i], size)
      invariant out == EncodeBlocks(blocks[..i], size)
    {
      assert blocks[..i + 1] == blocks[..i] + [blocks[i]];
      EncodeBlocksAppend(blocks[..i], blocks[i], size);
      out := out + EncodeBlock(blocks[i], size);
    }
    assert blocks[..|blocks|] == blocks;
  }

  /** Encoding one more extra timestamp appends its bytes. */
  lemma {:induction false} EncodeExtraTimestampsAppend(ts: seq<ExtraAckTimestamp>, t: ExtraAckTimestamp)
    ensures EncodeExtraTimestamps(ts + [t]) == EncodeExtraTimestamps(ts) + EncodeExtraTimestamp(t)
    decreases |ts|
  {
    if ts == [] {
      assert [] + [t] == [t];
      assert [t][1..] == [];
    } else {
      assert (ts + [t])[1..] == ts[1..] + [t];
      EncodeExtraTimestampsAppend(ts[1..], t);
    }
  }

  /** The extra timestamp loop of `encode`. */
  method WriteExtraTimestamps(ts: seq<ExtraAckTimestamp>) returns (out: seq<u8>)
    ensures out == EncodeExtraTimestamps(ts)
  {
    out := [];
    for i := 0 to |ts|
      invariant out == EncodeExtraTimestamps(ts[..i])
    {
      assert ts[..i + 1] == ts[..i] + [ts[i]];
      EncodeExtraTimestampsAppend(ts[..i], ts[i]);
      out := out + EncodeExtraTimestamp(ts[i]);
    }
    assert ts[..|ts|] == ts;
  }

  /** `AckFrame::decode` as the source runs it: the header reads, then the two loops. */
  method ReadAck(s: seq<u8>) returns (r: Result<Parsed<AckFrame>>)
    requires |s| == 0 || IsAckType(s[0])
    ensures r == Decode(s)
  {
    var frameType :- FromIo(ReadU8(s));
    var t := frameType.value;
    var header :- DecodeHeaderFields(t, frameType.rest);
    var h := header.value;
    var blocks :- ReadExtraAckBlocks(header.rest, h.blockCount, AckBlockSize(t));
    var firstTimestamp :- DecodeFirstTimestamp(blocks.rest, h.timestampCount);
    var count := ExtraTimestampCount(h.timestampCount);
    var extraTimestamps :- ReadExtraTimestamps(firstTimestamp.rest, count);
    r := Ok(Parsed(AckFrame(h.largestAcknowledged, h.ackDelay, h.firstAckBlockLength,
                            blocks.value, firstTimestamp.value, extraTimestamps.value),
                   extraTimestamps.rest));
  }

  /** `AckFrame::encode` as the source runs it: the fixed fields, then the two loops. */
  method WriteAck(f: AckFrame) returns (out: seq<u8>)
    requires CanEncode(f)
    ensures out == Encode(f)
  {
    var t := TypeByte(f.extraAckBlocks != []);
    TypeByteFields(f.extraAckBlocks != []);
    var g := WireImage(f);
    var header := EncodeHeader(t, g);
    var blocks := WriteExtraAckBlocks(g.extraAckBlocks, 6);
    var first := EncodeFirstTimestamp(g.firstTimestamp);
    var extra := WriteExtraTimestamps(g.extraTimestamps);
    out := header + blocks + first + extra;
    assert out == header + blocks + (first + extra);
  }

  /** The frames of the source's ack tests. */
  function SimpleVectorFrame(): AckFrame {
    AckFrame(42, 32, 64, [], None, [])
  }

  function FullVectorFrame(): AckFrame {
    AckFrame(42, 32, 64, [ExtraAckBlock(31, 0xDEADCAFE), ExtraAckBlock(33, 0xAABBCCDDEEFF)],
             Some(FirstAckTimestamp(1, 0xAABBCCDD)), [ExtraAckTimestamp(2, 0xBBCC)])
  }

  /** The field encodings the ack tests use. */
  lemma SmallFieldVectors()
    ensures EncodeUint(42, 6) == [0x00, 0x00, 0x00, 0x00, 0x00, 0x2A]
    ensures EncodeUint(64, 6) == [0x00, 0x00, 0x00, 0x00, 0x00, 0x40]
    ensures EncodeUint(32, 2) == [0x00, 0x20] && EncodeUint(0xBBCC, 2) == [0xBB, 0xCC]
  {
    assert EncodeUint(0, 5) == [0x00, 0x00, 0x00, 0x00, 0x00];
  }

  lemma BlockLengthVectors()
    ensures EncodeUint(0xDEADCAFE, 6) == [0x00, 0x00, 0xDE, 0xAD, 0xCA, 0xFE]
    ensures EncodeUint(0xAABBCCDDEEFF, 6) == [0xAA, 0xBB, 0xCC, 0xDD, 0xEE, 0xFF]
  {
    assert EncodeUint(0xDE, 3) == [0x00, 0x00, 0xDE];
    assert EncodeUint(0xDEAD, 4) == [0x00, 0x00, 0xDE, 0xAD];
    assert EncodeUint(0xAABB, 2) == [0xAA, 0xBB];
    assert EncodeUint(0xAABBCCDD, 4) == [0xAA, 0xBB, 0xCC, 0xDD];
  }

  lemma TimestampVectors()
    ensures EncodeUint(0xAABBCCDD, 4) == [0xAA, 0xBB, 0xCC, 0xDD]
  {
    assert EncodeUint(0xAABB, 2) == [0xAA, 0xBB];
  }

  /** The first encoding test: no extra blocks, no timestamps, type byte 0x4F. */
  lemma EncodeSimpleVector()
    ensures CanEncode(SimpleVectorFrame())
    ensures Encode(SimpleVectorFrame())
         == [0x4F, 0x00, 0x00, 0x00, 0x00, 0x00, 0x00, 0x2A, 0x00, 0x20, 0x00, 0x00, 0x00, 0x00, 0x00, 0x40]
  {
    Pow256Values();
    TypeByteValues();
    TypeByteFields(false);
    SmallFieldVectors();
    var f := SimpleVectorFrame();
    assert WireImage(f) == f;
    assert EncodeHeader(0x4F, f) == [0x4F] + [0x00] + ([0x00, 0x00, 0x00, 0x00, 0x00, 0x2A] + [0x00, 0x20] + [0x00, 0x00, 0x00, 0x00, 0x00, 0x40]);
  }

  /** The sections of the second encoding test, one at a time. */
  lemma FullVectorSections()
    ensures FitsType(0x6F, FullVectorFrame())
    ensures EncodeHeader(0x6F, FullVectorFrame())
         == [0x6F, 0x02, 0x02, 0x00, 0x00, 0x00, 0x00, 0x00, 0x2A, 0x00, 0x20, 0x00, 0x00, 0x00, 0x00, 0x00, 0x40]
    ensures EncodeBlocks(FullVectorFrame().extraAckBlocks, 6)
         == [0x1F, 0x00, 0x00, 0xDE, 0xAD, 0xCA, 0xFE, 0x21, 0xAA, 0xBB, 0xCC, 0xDD, 0xEE, 0xFF]
    ensures EncodeTimestamps(FullVectorFrame()) == [0x01, 0xAA, 0xBB, 0xCC, 0xDD, 0x02, 0xBB, 0xCC]
  {
    FullHeaderVector();
    FullBlocksVector();
    FullTimestampsVector();
  }

  lemma FullHeaderVector()
    ensures FitsType(0x6F, FullVectorFrame())
    ensures EncodeHeader(0x6F, FullVectorFrame())
         == [0x6F, 0x02, 0x02, 0x00, 0x00, 0x00, 0x00, 0x00, 0x2A, 0x00, 0x20, 0x00, 0x00, 0x00, 0x00, 0x00, 0x40]
  {
    Pow256Values();
    TypeByteValues();
    TypeByteFields(true);
    SmallFieldVectors();
    assert EncodeHeader(0x6F, FullVectorFrame())
        == [0x6F] + ([0x02] + [0x02]) + ([0x00, 0x00, 0x00, 0x00, 0x00, 0x2A] + [0x00, 0x20] + [0x00, 0x00, 0x00, 0x00, 0x00, 0x40]);
  }

  lemma FullHeaderFieldsVector()
    ensures FitsType(0x6F, FullVectorFrame())
    ensures EncodeHeaderFields(0x6F, HeaderOf(FullVectorFrame()))
         == [0x02, 0x02, 0x00, 0x00, 0x00, 0x00, 0x00, 0x2A, 0x00, 0x20, 0x00, 0x00, 0x00, 0x00, 0x00, 0x40]
  {
    Pow256Values();
    TypeByteValues();
    TypeByteFields(true);
    SmallFieldVectors();
    assert EncodeHeaderFields(0x6F, HeaderOf(FullVectorFrame()))
        == ([0x02] + [0x02]) + ([0x00, 0x00, 0x00, 0x00, 0x00, 0x2A] + [0x00, 0x20] + [0x00, 0x00, 0x00, 0x00, 0x00, 0x40]);
  }

  lemma FullBlocksVector()
    ensures EncodeBlocks(FullVectorFrame().extraAckBlocks, 6)
         == [0x1F, 0x00, 0x00, 0xDE, 0xAD, 0xCA, 0xFE, 0x21, 0xAA, 0xBB, 0xCC, 0xDD, 0xEE, 0xFF]
  {
    Pow256Values();
    BlockLengthVectors();
    assert EncodeBlocks([ExtraAckBlock(33, 0xAABBCCDDEEFF)], 6) == [0x21, 0xAA, 0xBB, 0xCC, 0xDD, 0xEE, 0xFF] + [];
    assert EncodeBlocks(FullVectorFrame().extraAckBlocks, 6)
        == [0x1F] + [0x00, 0x00, 0xDE, 0xAD, 0xCA, 0xFE] + EncodeBlocks([ExtraAckBlock(33, 0xAABBCCDDEEFF)], 6);
  }

  lemma FullTimestampsVector()
    ensures EncodeTimestamps(FullVectorFrame()) == [0x01, 0xAA, 0xBB, 0xCC, 0xDD, 0x02, 0xBB, 0xCC]
  {
    Pow256Values();
    SmallFieldVectors();
    TimestampVectors();
    assert EncodeTimestamps(FullVectorFrame()) == [0x01, 0xAA, 0xBB, 0xCC, 0xDD] + ([0x02, 0xBB, 0xCC] + []);
  }

  /** The second encoding test: two extra blocks and two timestamps, type byte 0x6F. */
  lemma EncodeFullVector()
    ensures CanEncode(FullVectorFrame())
    ensures Encode(FullVectorFrame())
         == [0x6F, 0x02, 0x02, 0x00, 0x00, 0x00, 0x00, 0x00, 0x2A, 0x00, 0x20,
             0x00, 0x00, 0x00, 0x00, 0x00, 0x40]
          + [0x1F, 0x00, 0x00, 0xDE, 0xAD, 0xCA, 0xFE,
             0x21, 0xAA, 0xBB, 0xCC, 0xDD, 0xEE, 0xFF]
          + [0x01, 0xAA, 0xBB, 0xCC, 0xDD, 0x02, 0xBB, 0xCC]
  {
    FullVectorSections();
    FullVectorLayout();
  }

  lemma FullVectorLayout()
    ensures CanEncode(FullVectorFrame())
    ensures Encode(FullVectorFrame())
         == EncodeHeader(0x6F, FullVectorFrame()) + EncodeBlocks(FullVectorFrame().extraAckBlocks, 6)
          + EncodeTimestamps(FullVectorFrame())
  {
    var f := FullVectorFrame();
    Pow256Values();
    TypeByteValues();
    TypeByteFields(true);
    assert WireImage(f) == f;
  }

  /** The decoding tests: the same bytes decode back to the same frames. */
  lemma DecodeSimpleVector(simple: seq<u8>)
    requires simple == [0x4F, 0x00, 0x00, 0x00, 0x00, 0x00, 0x00, 0x2A, 0x00, 0x20, 0x00, 0x00, 0x00, 0x00, 0x00, 0x40]
    ensures Decode(simple) == Ok(Parsed(SimpleVectorFrame(), []))
  {
    Pow256Values();
    EncodeSimpleVector();
    assert simple + [] == simple;
    DecodeEncodeExact(SimpleVectorFrame(), []);
  }

  lemma DecodeFullVector(full: seq<u8>)
    requires full == [0x6F, 0x02, 0x02, 0x00, 0x00, 0x00, 0x00, 0x00, 0x2A, 0x00, 0x20,
                      0x00, 0x00, 0x00, 0x00, 0x00, 0x40]
                   + [0x1F, 0x00, 0x00, 0xDE, 0xAD, 0xCA, 0xFE,
                      0x21, 0xAA, 0xBB, 0xCC, 0xDD, 0xEE, 0xFF]
                   + [0x01, 0xAA, 0xBB, 0xCC, 0xDD, 0x02, 0xBB, 0xCC]
    ensures Decode(full) == Ok(Parsed(FullVectorFrame(), []))
  {
    Pow256Values();
    EncodeFullVector();
    assert full + [] == full;
    DecodeEncodeExact(FullVectorFrame(), []);
  }

  /** The error test: the second frame cut in the middle of its last timestamp is a
      decoding error, not an io error. */
  lemma DecodeTruncatedVector(s: seq<u8>)
    requires s == [0x6F]
                + [0x02, 0x02, 0x00, 0x00, 0x00, 0x00, 0x00, 0x2A, 0x00, 0x20,
                   0x00, 0x00, 0x00, 0x00, 0x00, 0x40]
                + [0x1F, 0x00, 0x00, 0xDE, 0xAD, 0xCA, 0xFE,
                   0x21, 0xAA, 0xBB, 0xCC, 0xDD, 0xEE, 0xFF]
                + [0x01, 0xAA, 0xBB, 0xCC, 0xDD]
                + [0x02, 0xBB]
    ensures Decode(s).Err? && Decode(s).error.Decoding?
  {
    var f := FullVectorFrame();
    var h := HeaderOf(f);
    var cut: seq<u8> := [0x02, 0xBB];
    TruncatedVectorPieces(s, f);
    Pow256Values();
    TypeByteFields(true);
    var header := EncodeHeaderFields(0x6F, h);
    var blocks := EncodeBlocks(f.extraAckBlocks, 6);
    var first := EncodeFirstTimestamp(f.firstTimestamp);
    ReadU8Encoded(0x6F, header + (blocks + (first + cut)));
    ReadHeaderFieldsEncoded(0x6F, h, blocks + (first + cut));
    ReadBlocksEncoded(f.extraAckBlocks, 6, first + cut);
    ReadFirstTimestampEncoded(f.firstTimestamp, h.timestampCount, cut);
    assert DecodeExtraTimestamps(cut, 1).Err?;
  }

  /** The cut input is the full frame's sections up to two bytes into its last timestamp. */
  lemma TruncatedVectorPieces(s: seq<u8>, f: AckFrame)
    requires f == FullVectorFrame()
    requires s == [0x6F]
                + [0x02, 0x02, 0x00, 0x00, 0x00, 0x00, 0x00, 0x2A, 0x00, 0x20,
                   0x00, 0x00, 0x00, 0x00, 0x00, 0x40]
                + [0x1F, 0x00, 0x00, 0xDE, 0xAD, 0xCA, 0xFE,
                   0x21, 0xAA, 0xBB, 0xCC, 0xDD, 0xEE, 0xFF]
                + [0x01, 0xAA, 0xBB, 0xCC, 0xDD]
                + [0x02, 0xBB]
    ensures FitsType(0x6F, f)
    ensures s == [0x6F] + (EncodeHeaderFields(0x6F, HeaderOf(f))
                 + (EncodeBlocks(f.extraAckBlocks, 6)
                 + (EncodeFirstTimestamp(f.firstTimestamp) + [0x02, 0xBB])))
  {
    FullHeaderFieldsVector();
    FullBlocksVector();
    FirstTimestampVector(f);
    Sections4(s, [0x6F], EncodeHeaderFields(0x6F, HeaderOf(f)), EncodeBlocks(f.extraAckBlocks, 6),
      EncodeFirstTimestamp(f.firstTimestamp), [0x02, 0xBB]);
  }

  lemma FirstTimestampVector(f: AckFrame)
    requires f == FullVectorFrame()
    ensures EncodeFirstTimestamp(f.firstTimestamp) == [0x01, 0xAA, 0xBB, 0xCC, 0xDD]
  {
    TimestampVectors();
    assert EncodeFirstTimestamp(f.firstTimestamp) == [0x01] + [0xAA, 0xBB, 0xCC, 0xDD];
  }

  lemma Sections4(s: seq<u8>, t: seq<u8>, header: seq<u8>, blocks: seq<u8>, first: seq<u8>, cut: seq<u8>)
    requires s == (t + header) + blocks + first + cut
    ensures s == t + (header + (blocks + (first + cut)))
  {
  }

}
