# A verified model of mig's stream buffers and wire codec

mig is a QUIC-like transport written in Rust. Three parts of it are modelled in Dafny here, and the properties that the code and its unit tests promise are proved about the model.

1. **The receive-side reassembly buffer** (`StreamBuffer`).
   - It is a window of `Option<u8>` slots of fixed capacity, starting at stream offset `next_index`.
   - `add_data` places arriving bytes into the window. It rejects three kinds of write:
     - a write past the window (`BufferOverflow`);
     - a write to offsets already delivered;
     - bytes that conflict with bytes already stored.
   - `pull_data` hands out the run of filled slots at the front of the window.
2. **The send side of a stream** (`Stream`) and **the handle counter** (`HandleGenerator`).
   - Both are small objects that update their fields in place.
3. **The binary wire codec.**
   - Every frame: ACK, BLOCKED, CONNECTION_CLOSE, GOAWAY, PADDING, PING, RST_STREAM, STOP_WAITING, STREAM and WINDOW_UPDATE.
   - The frame dispatcher.
   - The packet payload, which is a run of frames up to the end of the input.
   - The packet header flags, and the three packet kinds: regular, version negotiation and public reset.
   - The helpers: packet-number truncation, reason phrases, EOF mapping and the error type.

**Modules.** There is one module per source file.
- The foundations are `ByteOrder`, `Cursor` and `Errors`.
  - `ByteOrder` holds the `u8`…`u64` subset types and big-endian integers, which is what the `byteorder` crate provides.
  - `Cursor` holds reads from a byte sequence. This is what `io::Read` on a cursor does; each read returns the value and the rest of the input.
  - `Errors` holds the `Error` and `io::Error` types.
- `Seqs` holds a few generic sequence lemmas.

**Naming.**
- `Encode*` and `Decode*` are pure functions that define the wire format. A decode returns the value and the unread rest of the input, or an error.
- A loop in the source becomes a `Read*` or `Write*` method with a `while` loop. That method is proved equal to the specification function.
- `StreamBuffer`, `Stream` and `HandleGenerator` are classes whose methods update fields in place, as the Rust methods do.
  - The window is a `seq<Option<u8>>` field.
  - `pull_data`'s destination is an `array<u8>`.

**Errors and panics.**
- A panic, `assert!` or `expect` in the source becomes a precondition.
- The I/O error from `?` is kept distinct from `map_err(map_unexpected_eof)`, which turns end of input into `Decoding`. The payload loop depends on that difference.

**The code and its tests disagree in two places.**
- Empty STREAM data without fin: see "## Findings".
- `PingFrame::decode` on empty input: see "## Findings". The code returns `Io(UnexpectedEof)` through `?`, but its test (src/tests/quic/frames/ping.rs:33-39) expects `Decoding`.
  - `FramePing.DecodeAsWritten` is the code as written; `FramePing.Decode` is the corrected decoder.
  - The two agree on non-empty input. The dispatcher only calls the PING decoder on a non-empty input, so the payload loop is the same under either.

**Which frame files are modelled.**
- CONNECTION_CLOSE, PADDING, RST_STREAM, STOP_WAITING and the reason-phrase helpers are modelled from `src/quic/packets/frames/`.
- The other frames follow the `src/quic/frames/` files, whose layout the frame tests in src/tests/quic/frames/ assert.
- src/quic/frames/mod.rs declares only `Frame::encode`. `Frame::decode` is reconstructed from the frame type constants and the frame tests, in this order:
  - a set top bit means STREAM;
  - otherwise, `type & 0xC0 == 0x40` means ACK;
  - otherwise, the byte is looked up in the table 0x00–0x07;
  - anything else is `Decoding`.
- `Frame::encode` takes the three-argument form (`packet_number_size`, `last_frame`) that the payload encoder and the tests use.

## Model

| member | source | states |
|---|---|---|
| ByteOrder.DecodeEncodeUint | src/quic/frames/stream.rs:50-51 | reading back the `size`-byte big-endian encoding of n gives n |
| ByteOrder.EncodeDecodeUint | src/quic/frames/stream.rs:82-92 | every byte string is the big-endian encoding of the number it decodes to |
| ByteOrder.EncodeUint | src/quic/frames/stream.rs:50-51 | `write_uint::<BigEndian>`: n takes exactly `size` bytes; its meaning is fixed by the two round trips above |
| ByteOrder.DecodeUint | src/quic/frames/stream.rs:82-85 | `read_uint::<BigEndian>`: the number read from s is below 256^|s| |
| ByteOrder.EncodeUintInjective | src/quic/frames/stream.rs:50-51 | two numbers with the same fixed-width encoding are equal |
| ByteOrder.EncodeUintSplit | src/quic/frames/window_update.rs:21-22 | the encoding of hi·256^k + lo is hi's encoding followed by lo's k bytes |
| Cursor.ReadU8 | src/quic/frames/blocked.rs:26 | succeeds exactly when a byte is left; the input is that byte followed by the rest; otherwise it is the EOF io error |
| Cursor.ReadUint | src/quic/frames/stream.rs:82-85 | succeeds exactly when `size` bytes are left; the value is below 256^size and the input is its encoding followed by the rest |
| Cursor.ReadU16 | src/quic/frames/stream.rs:77 | succeeds exactly when 2 bytes are left; the input is the value's 2-byte encoding followed by the rest; otherwise EOF |
| Cursor.ReadU32 | src/quic/frames/blocked.rs:30-32 | succeeds exactly when 4 bytes are left; the input is the value's 4-byte encoding followed by the rest; otherwise EOF |
| Cursor.ReadU64 | src/quic/packets/mod.rs:207 | succeeds exactly when `size` bytes (at most 8) are left; the value fits and the input is its encoding followed by the rest |
| Cursor.ReadExact | src/quic/packets/frames/utils.rs:35 | succeeds exactly when n bytes are left, returning n bytes that the rest follows; otherwise EOF |
| Cursor.ReadToEnd | src/quic/frames/stream.rs:100-104 | always succeeds, returning the whole input and leaving nothing |
| Cursor.ReadUintEncoded | src/quic/frames/stream.rs:82-85 | reading `size` bytes back from an encoding returns the number and the rest untouched |
| Cursor.ReadU32Encoded | src/quic/frames/blocked.rs:30-32 | a u32 written big-endian reads back unchanged |
| Cursor.ReadU64Encoded | src/quic/packets/mod.rs:207 | a u64 written in `size` bytes reads back unchanged |
| Errors.IntoIoError | src/quic/errors/mod.rs:21-51 | `Io(e)` converts to `e` itself; every other error is wrapped with kind InvalidInput exactly for InvalidHandle and InvalidStream, and InvalidData for the rest |
| Errors.FromIoError | src/quic/errors/mod.rs:93-97 | an io error always becomes an `Io` error |
| Errors.IntoFromIoError | src/quic/errors/mod.rs:93-97 | wrapping an io error and converting it back gives the same io error |
| Errors.FromIntoIoError | src/quic/errors/mod.rs:21-51 | converting to an io error and back is the identity exactly for `Io` errors; any other error comes back wrapped in `Io` |
| Errors.Cause | src/quic/errors/mod.rs:80-90 | there is a cause exactly for `Io` errors, and it is the wrapped io error |
| Errors.FromIo | src/quic/errors/mod.rs:93-97 | `?` on an io result keeps the value and wraps the error as `Io` |
| Errors.IsUnexpectedEof | src/quic/packets/mod.rs:49 | the test by which the payload loop recognises the end of its input: an `Io` error of kind UnexpectedEof |
| PacketUtils.TruncateU64 | src/quic/packets/utils.rs:6-12 | the result fits in `byteCount` bytes, and those bytes are the low `byteCount` bytes of the 8-byte encoding of the number |
| PacketUtils.LowBytes | src/quic/packets/utils.rs:10-12 | n mod 256^k is encoded as the last k bytes of n's encoding |
| PacketUtils.TruncateIdentity | src/quic/packets/utils.rs:10-12 | a number that already fits is unchanged by truncation |
| PacketUtils.TruncateIdempotent | src/quic/packets/utils.rs:10-12 | truncating twice is truncating once |
| PacketUtils.MapUnexpectedEof | src/quic/packets/utils.rs:16-22 | UnexpectedEof becomes `Decoding`; every other io error is wrapped unchanged as `Io` |
| PacketUtils.MapEof | src/quic/packets/utils.rs:16-22 | `map_err(map_unexpected_eof)` keeps the value and maps the error |
| FrameUtils.EncodeReasonPhrase | src/quic/packets/frames/utils.rs:10-25 | `None` is `00 00`; `Some(s)` is a 2-byte length followed by the bytes of s |
| FrameUtils.DecodeReasonPhrase | src/quic/packets/frames/utils.rs:27-41 | fails, with `Decoding`, exactly when the length prefix or the text is cut short; never returns `Some("")`; on success the input is the phrase's encoding followed by the rest |
| FrameUtils.DecodeEncodeReasonPhrase | src/quic/packets/frames/utils.rs:10-41 | decode after encode gives the phrase back, except that `Some("")` comes back as `None` |
| FrameUtils.ValidPacketNumberSize | src/quic/packets/frames/utils.rs:44-49 | `check_packet_number_size`: the sizes that do not panic are 1, 2, 4 and 6 |
| FrameUtils.SizeFromCode | src/quic/frames/ack.rs:119-125 | each 2-bit size code gives a valid packet-number size (1, 2, 4 or 6) |
| FrameUtils.CodeOfSize | src/quic/packets/mod.rs:124-130 | each valid size has a 2-bit code that maps back to it |
| FrameUtils.CodeSizeBijection | src/quic/packets/mod.rs:197-203 | code → size → code is the identity |
| FrameBlocked.Encode | src/quic/frames/blocked.rs:17-23 | 5 bytes: 0x05 and the big-endian stream id |
| FrameBlocked.Decode | src/quic/frames/blocked.rs:25-35 | succeeds exactly when 5 bytes are there; otherwise `Decoding`; on success the input is the frame's encoding followed by the rest |
| FrameBlocked.DecodeEncode | src/quic/frames/blocked.rs:17-35 | decode after encode gives the frame and the rest back |
| FrameConnectionClose.Encode | src/quic/packets/frames/connection_close.rs:19-26 | 0x02, the 4-byte error code, then the reason phrase |
| FrameConnectionClose.Decode | src/quic/packets/frames/connection_close.rs:28-41 | empty input is the io EOF; other failures are `Decoding`; fewer than 7 bytes fail; on success the input is the frame's encoding followed by the rest |
| FrameConnectionClose.DecodeEncode | src/quic/packets/frames/connection_close.rs:19-41 | decode after encode gives the frame back (an empty phrase as `None`) |
| FrameConnectionClose.TruncatedVector | src/tests/quic/frames/connection_close.rs:76-87 | the test's frame whose phrase announces 5 bytes but carries 4 gives `Decoding` |
| FrameGoAway.Encode | src/quic/frames/goaway.rs:20-28 | 0x03, the error code, the last good stream id, then the reason phrase |
| FrameGoAway.Decode | src/quic/frames/goaway.rs:30-48 | every failure is `Decoding` and fewer than 11 bytes fail; on success the input is the frame's encoding followed by the rest |
| FrameGoAway.DecodeEncode | src/quic/frames/goaway.rs:20-48 | decode after encode gives the frame back (an empty phrase as `None`) |
| FrameGoAway.TruncatedVector | src/tests/quic/frames/goaway.rs:84-96 | the test's frame whose phrase announces 5 bytes but carries 4 gives `Decoding` |
| FramePadding.Encode | src/quic/packets/frames/padding.rs:14-18 | the single byte 0x00 |
| FramePadding.Decode | src/quic/packets/frames/padding.rs:20-25 | consumes one byte; fails with the io EOF exactly on empty input |
| FramePadding.DecodeEncode | src/quic/packets/frames/padding.rs:14-25 | decode after encode consumes exactly that byte |
| FramePing.Encode | src/quic/frames/ping.rs:14-18 | the single byte 0x07 |
| FramePing.DecodeAsWritten | src/quic/frames/ping.rs:20-25 | the decoder as written: consumes one byte and succeeds exactly on non-empty input; empty input is the io EOF from `?` |
| FramePing.Decode | src/quic/frames/ping.rs:20-25 | the corrected decoder: consumes one byte and succeeds exactly on non-empty input, where it is the decoder as written; empty input is `Decoding`, as src/tests/quic/frames/ping.rs:33-39 expects |
| FramePing.DecodeEncode | src/quic/frames/ping.rs:14-25 | decode after encode consumes exactly that byte, under both decoders |
| FramePing.EmptyInputVector | src/tests/quic/frames/ping.rs:33-39 | on the test's empty input the code gives `Io(UnexpectedEof)` and the corrected decoder `Decoding` |
| FrameRstStream.Encode | src/quic/packets/frames/rst_stream.rs:19-27 | 17 bytes: 0x01, error code, stream id, 8-byte final offset |
| FrameRstStream.Decode | src/quic/packets/frames/rst_stream.rs:29-48 | succeeds exactly with 17 bytes; empty input is the io EOF, a shorter frame is `Decoding` |
| FrameRstStream.DecodeEncode | src/quic/packets/frames/rst_stream.rs:19-48 | decode after encode gives the frame and the rest back |
| FrameStopWaiting.Encode | src/quic/packets/frames/stop_waiting.rs:18-25 | 0x06 followed by the delta in exactly `packetNumberSize` big-endian bytes |
| FrameStopWaiting.Decode | src/quic/packets/frames/stop_waiting.rs:27-36 | succeeds exactly with 1 + n bytes; empty input is the io EOF, a shorter frame `Decoding`; the delta is below 256^n |
| FrameStopWaiting.DecodeEncode | src/quic/packets/frames/stop_waiting.rs:18-36 | decode after encode is exact for a valid size and a delta that fits |
| FrameWindowUpdate.Encode | src/quic/frames/window_update.rs:18-25 | 13 bytes: 0x04, 4-byte stream id, 8-byte offset |
| FrameWindowUpdate.Decode | src/quic/frames/window_update.rs:27-42 | succeeds exactly with 13 bytes; empty input is the io EOF, a shorter frame `Decoding` |
| FrameWindowUpdate.DecodeEncode | src/quic/frames/window_update.rs:18-42 | decode after encode gives the frame and the rest back |
| FrameStream.OffsetSize | src/quic/frames/stream.rs:68-71 | offset bits 0 mean no offset field; otherwise k + 1 bytes (2 to 8) |
| FrameStream.StreamIdSize | src/quic/frames/stream.rs:73 | stream-id bits k mean k + 1 bytes (1 to 4) |
| FrameStream.TypeByte | src/quic/frames/stream.rs:21-41 | the type byte has the stream bit, says fin and last exactly as asked, and declares an 8-byte offset and a 4-byte stream id |
| FrameStream.TypeByteValues | src/quic/packets/frames/tests/stream.rs:8-45 | the four type bytes are 0xBF, 0xFF, 0xDF and 0x9F |
| FrameStream.Encode | src/quic/frames/stream.rs:21-55 | 13 bytes of header for a last frame, 15 otherwise, then the data; it starts with the type byte and ends with the data |
| FrameStream.EncodeIsLayout | src/quic/frames/stream.rs:41-52 | the encoding is the general layout for its type byte: length only when not last, id, offset, data |
| FrameStream.LayoutFields | src/quic/frames/stream.rs:41-52 | where each field sits in the layout, byte range by byte range |
| FrameStream.LayoutInjective | src/quic/frames/stream.rs:57-113 | two frames with the same layout under one type byte are the same frame |
| FrameStream.ReadDataLength | src/quic/frames/stream.rs:76-80 | a non-last frame reads a 2-byte length and fails with `Decoding` without it; a last frame reads nothing |
| FrameStream.ReadOffset | src/quic/frames/stream.rs:87-92 | reads exactly `size` bytes, or fails with `Decoding` |
| FrameStream.ReadData | src/quic/frames/stream.rs:94-105 | a non-last frame reads exactly `length` bytes (else `Decoding`); a last frame takes the whole rest |
| FrameStream.ReadFields | src/quic/frames/stream.rs:82-105 | id, offset and data are read in that order; succeeds exactly when the bytes are there |
| FrameStream.DecodeAsWritten | src/quic/frames/stream.rs:57-113 | the decoder as the source has it. It fails, always with `Decoding`, exactly when the input is cut short. On success the input is the frame's layout for its type byte followed by the rest, and a last frame leaves no rest |
| FrameStream.Decode | src/quic/packets/frames/tests/stream.rs:125-136 | the corrected decoder: the source decoder, but also rejecting empty data without fin |
| FrameStream.DecodeConsumes | src/quic/frames/stream.rs:57-113 | a successful decode consumes at least one byte |
| FrameStream.DecodeEncodeAsWritten | src/quic/frames/stream.rs:21-113 | the source decoder inverts the encoder for every frame that fits; a last frame must end the input |
| FrameStream.DecodeEncode | src/quic/frames/stream.rs:21-113 | the corrected decoder inverts the encoder for every frame with data or fin |
| FrameStream.EmptyFrameWithoutFin | src/quic/packets/frames/tests/stream.rs:125-136 | an empty frame without fin is accepted by the source decoder and rejected, with `Decoding`, by the corrected one |
| FrameStream.EncodeVector | src/quic/packets/frames/tests/stream.rs:8-45 | the encoding test's non-last frame, byte for byte |
| FrameStream.EncodeLastFinVector | src/quic/packets/frames/tests/stream.rs:8-45 | the encoding test's last frame with fin, byte for byte |
| FrameStream.DecodeEmptyLastFinVector | src/quic/packets/frames/tests/stream.rs:88-123 | a last frame with fin and no bytes left decodes to empty data with fin |
| FrameStream.DecodeEmptyFinVector | src/quic/packets/frames/tests/stream.rs:88-123 | an empty non-last frame with fin decodes |
| FrameStream.EmptyWithoutFinVector | src/quic/packets/frames/tests/stream.rs:125-136 | the test's empty frame without fin: accepted as written, `Decoding` when corrected |
| FrameStream.ShortDataVector | src/quic/packets/frames/tests/stream.rs:138-150 | data shorter than the declared length gives `Decoding` |
| FrameAck.LargestAckSize | src/quic/frames/ack.rs:119-125 | bits 2–3 select 1, 2, 4 or 6 bytes |
| FrameAck.AckBlockSize | src/quic/frames/ack.rs:127-133 | bits 0–1 select 1, 2, 4 or 6 bytes |
| FrameAck.TypeByteFields | src/quic/frames/ack.rs:53-67 | the type byte is an ACK type, has the extra-blocks bit exactly when there are blocks, and declares 6-byte fields |
| FrameAck.TypeByteValues | src/quic/frames/ack.rs:53-67 | the type byte is 0x4F, or 0x6F with extra blocks |
| FrameAck.EncodeBlock | src/quic/frames/ack.rs:91-94 | an extra block takes 1 + `size` bytes; its layout is pinned down by the `DecodeBlock` round trip |
| FrameAck.EncodeFirstTimestamp | src/quic/frames/ack.rs:100-103 | 5 bytes when present, nothing otherwise |
| FrameAck.EncodeExtraTimestamps | src/quic/frames/ack.rs:104-107 | 3 bytes per extra timestamp |
| FrameAck.LayoutStartsWithType | src/quic/frames/ack.rs:67 | the layout starts with its type byte |
| FrameAck.Layout | src/quic/frames/ack.rs:112-195 | every byte layout the decoder accepts for a type byte: header, extra blocks in the type's block size, timestamps; `DecodeLayout` proves the decoder reads it back |
| FrameAck.CanEncode | src/quic/frames/ack.rs:71-98 | what `encode` demands: fewer than 256 blocks and timestamps (the `expect`s), 6-byte lengths that fit, and no extra timestamp without a first one (the panic) |
| FrameAck.WireImage | src/quic/frames/ack.rs:83-86 | what is written is the frame with the largest acknowledged cut to 6 bytes; a frame that already fits is unchanged |
| FrameAck.Encode | src/quic/frames/ack.rs:51-110 | the first byte written is the 0x4F or 0x6F type byte, and the fields written fit the sizes it declares |
| FrameAck.DecodeBlock | src/quic/frames/ack.rs:159-164 | a gap byte and a `size`-byte length, or `Decoding`; on success the input is the block's encoding followed by the rest |
| FrameAck.DecodeBlocks | src/quic/frames/ack.rs:157-165 | `count` blocks or `Decoding` |
| FrameAck.DecodeBlocksLayout | src/quic/frames/ack.rs:157-165 | the blocks decoded fit the size, and the input is their encoding followed by the rest |
| FrameAck.DecodeFirstTimestamp | src/quic/frames/ack.rs:168-174 | a first timestamp is read exactly when the count is positive |
| FrameAck.DecodeExtraTimestamp | src/quic/frames/ack.rs:179-181 | the input is the extra timestamp's 3-byte encoding followed by the rest, or `Decoding` |
| FrameAck.DecodeExtraTimestamps | src/quic/frames/ack.rs:176-183 | `count` extra timestamps or `Decoding` |
| FrameAck.DecodeExtraTimestampsLayout | src/quic/frames/ack.rs:176-183 | the input is the encoding of the timestamps decoded, followed by the rest |
| FrameAck.DecodeCounts | src/quic/frames/ack.rs:136-142 | the block count is read only when the type says there are blocks (0 otherwise); then the timestamp count |
| FrameAck.DecodeFixedFields | src/quic/frames/ack.rs:144-155 | largest acknowledged, ack delay and first block length, in the widths the type byte declares |
| FrameAck.DecodeHeaderFields | src/quic/frames/ack.rs:136-155 | header fields decoded fit their widths, and the input is their encoding followed by the rest |
| FrameAck.ExtraTimestampCount | src/quic/frames/ack.rs:177-178 | one fewer than the timestamp count when positive, 0 otherwise |
| FrameAck.Decode | src/quic/frames/ack.rs:112-195 | empty input is the io EOF; every other failure is `Decoding`; on success the frame fits the type byte and the input is its layout followed by the rest |
| FrameAck.ReadBlocksEncoded | src/quic/frames/ack.rs:157-165 | encoded blocks decode back |
| FrameAck.ReadExtraTimestampsEncoded | src/quic/frames/ack.rs:176-183 | encoded extra timestamps decode back |
| FrameAck.ReadHeaderFieldsEncoded | src/quic/frames/ack.rs:136-155 | encoded header fields decode back |
| FrameAck.DecodeLayout | src/quic/frames/ack.rs:112-195 | any frame laid out under a type byte it fits decodes back exactly |
| FrameAck.DecodeEncode | src/quic/frames/ack.rs:51-195 | decode after encode gives the frame with its largest acknowledged cut to 6 bytes |
| FrameAck.DecodeEncodeExact | src/quic/frames/ack.rs:51-195 | the round trip is exact when the largest acknowledged fits in 6 bytes |
| FrameAck.ReadExtraAckBlocks | src/quic/frames/ack.rs:157-165 | the `for` loop that pushes blocks computes `DecodeBlocks` |
| FrameAck.ReadExtraTimestamps | src/quic/frames/ack.rs:176-183 | the loop over extra timestamps computes `DecodeExtraTimestamps` |
| FrameAck.WriteExtraAckBlocks | src/quic/frames/ack.rs:91-94 | the writing loop produces `EncodeBlocks` |
| FrameAck.WriteExtraTimestamps | src/quic/frames/ack.rs:104-107 | the writing loop produces `EncodeExtraTimestamps` |
| FrameAck.ReadAck | src/quic/frames/ack.rs:112-195 | the decoder with its loops computes `Decode` |
| FrameAck.WriteAck | src/quic/frames/ack.rs:51-110 | the encoder with its loops computes `Encode` |
| FrameAck.EncodeSimpleVector | src/tests/quic/frames/ack.rs:8-71 | the test's frame without blocks or timestamps, byte for byte |
| FrameAck.EncodeFullVector | src/tests/quic/frames/ack.rs:8-71 | the test's frame with two blocks and two timestamps, byte for byte |
| FrameAck.DecodeSimpleVector | src/tests/quic/frames/ack.rs:74-164 | the simple test bytes decode to the simple frame |
| FrameAck.DecodeFullVector | src/tests/quic/frames/ack.rs:74-164 | the full test bytes decode to the full frame |
| FrameAck.DecodeTruncatedVector | src/tests/quic/frames/ack.rs:140-163 | the test's frame cut inside its last timestamp gives `Decoding` |
| Frames.TypeKind | src/tests/quic/packets/frames/mod.rs:344-353 | a type byte names a frame kind exactly when it is not in 0x08–0x3F |
| Frames.Encode | src/quic/frames/mod.rs:28-42 | the first byte written names the frame's own kind |
| Frames.DecodeStream | src/quic/frames/stream.rs:57-113 | dispatch to STREAM: a STREAM frame that consumes input, or `Decoding` |
| Frames.DecodeAck | src/quic/frames/ack.rs:112-195 | dispatch to ACK: an ACK frame that consumes input, or `Decoding` |
| Frames.DecodePadding | src/quic/packets/frames/padding.rs:20-25 | dispatch to PADDING: a PADDING frame that consumes input, or `Decoding` |
| Frames.DecodeRstStream | src/quic/packets/frames/rst_stream.rs:29-48 | dispatch to RST_STREAM: a RST_STREAM frame that consumes input, or `Decoding` |
| Frames.DecodeConnectionClose | src/quic/packets/frames/connection_close.rs:28-41 | dispatch to CONNECTION_CLOSE: a CONNECTION_CLOSE frame that consumes input, or `Decoding` |
| Frames.DecodeGoAway | src/quic/frames/goaway.rs:30-48 | dispatch to GOAWAY: a GOAWAY frame that consumes input, or `Decoding` |
| Frames.DecodeWindowUpdate | src/quic/frames/window_update.rs:27-42 | dispatch to WINDOW_UPDATE: a WINDOW_UPDATE frame that consumes input, or `Decoding` |
| Frames.DecodeBlocked | src/quic/frames/blocked.rs:25-35 | dispatch to BLOCKED: a BLOCKED frame that consumes input, or `Decoding` |
| Frames.DecodeStopWaiting | src/quic/packets/frames/stop_waiting.rs:27-36 | dispatch to STOP_WAITING with the packet-number size: a STOP_WAITING frame that consumes input, or `Decoding` |
| Frames.DecodePing | src/quic/frames/ping.rs:20-25 | dispatch to PING: a PING frame that consumes input, or `Decoding` |
| Frames.Decode | src/tests/quic/packets/frames/mod.rs:160-354 | empty input is the io EOF (no more frames). An unknown type is `Decoding`, and so is every other failure. A decoded frame consumes input and is of the kind its type byte names |
| Frames.DecodeEncode | src/tests/quic/packets/frames/mod.rs:18-329 | any encodable frame decodes back to its wire image with the rest untouched |
| Frames.DecodeEncodeAck | src/quic/frames/mod.rs:31 | the ACK round trip through the dispatcher |
| Frames.DecodeEncodeBlocked | src/quic/frames/mod.rs:32 | the BLOCKED round trip through the dispatcher |
| Frames.DecodeEncodeConnectionClose | src/quic/frames/mod.rs:33 | the CONNECTION_CLOSE round trip through the dispatcher |
| Frames.DecodeEncodeGoAway | src/quic/frames/mod.rs:34 | the GOAWAY round trip through the dispatcher |
| Frames.DecodeEncodePadding | src/quic/frames/mod.rs:35 | the PADDING round trip through the dispatcher |
| Frames.DecodeEncodePing | src/quic/frames/mod.rs:36 | the PING round trip through the dispatcher |
| Frames.DecodeEncodeRstStream | src/quic/frames/mod.rs:37 | the RST_STREAM round trip through the dispatcher |
| Frames.DecodeEncodeStopWaiting | src/quic/frames/mod.rs:38 | the STOP_WAITING round trip, the only one that uses the packet-number size |
| Frames.DecodeEncodeStream | src/quic/frames/mod.rs:39 | the STREAM round trip, the only one that uses `last` |
| Frames.DecodeEncodeWindowUpdate | src/quic/frames/mod.rs:40 | the WINDOW_UPDATE round trip through the dispatcher |
| Frames.CanEncode | src/quic/frames/mod.rs:29-42 | what each variant encoder demands; only STOP_WAITING depends on the packet-number size and only STREAM on `last` |
| Frames.WireImage | src/quic/frames/ack.rs:83-86 | the frame the decoder gives back: the ACK frame with its largest acknowledged cut to 6 bytes, an empty reason phrase as none, every other frame unchanged; `DecodeEncode` is stated with it |
| Frames.UnknownTypeVector | src/tests/quic/packets/frames/mod.rs:344-353 | type byte 0x20 gives `Decoding` |
| Frames.TruncatedWindowUpdateVector | src/tests/quic/packets/frames/mod.rs:331-342 | a WINDOW_UPDATE cut one byte short gives `Decoding` |
| Packets.DecodeFlags | src/quic/packets/mod.rs:192-204 | every flags byte gives a valid packet-number size |
| Packets.DecodeEncodeFlags | src/quic/packets/mod.rs:111-134 | the flags byte built by `encode_header` reads back as the same flags |
| Packets.EncodeDecodeFlags | src/quic/packets/mod.rs:192-204 | every byte below 0x80 is the flags byte of the flags it decodes to |
| Packets.DecodeHeader | src/quic/packets/mod.rs:191-218 | empty input fails; every failure is `Decoding`; the packet-number size is valid |
| Packets.DecodeConnectionId | src/quic/packets/mod.rs:206-210 | an 8-byte id exactly when the flag is set, else nothing is read |
| Packets.DecodeEncodeHeader | src/quic/packets/mod.rs:108-142 | the header, version bit and public-reset bit that `encode_header` writes (flags byte and connection id) read back unchanged, with the rest untouched |
| Packets.EncodeDecodeHeader | src/quic/packets/mod.rs:191-218 | for a flags byte below 0x80, a decoded header re-encodes to the bytes it came from |
| Packets.EncodeHeader | src/quic/packets/mod.rs:108-142 | the flags byte, then the connection id in 8 bytes when there is one; its properties are stated by `EncodeHeaderLayout` and `DecodeEncodeHeader` |
| Packets.EncodeHeaderLayout | src/quic/packets/mod.rs:110-139 | the header is 1 byte, plus 8 with a connection id, and its first byte carries exactly the header's version, public reset, key phase, connection id, size and multipath flags |
| Packets.DecodeFrames | src/quic/packets/mod.rs:42-56 | frames up to the end of the input; the list is empty exactly for empty input; every failure is `Decoding` |
| Packets.DecodePayload | src/quic/packets/mod.rs:42-63 | empty input is "At least one frame expected"; a payload has at least one frame |
| Packets.DecodeEncodeFrames | src/quic/packets/mod.rs:31-63 | any run of encodable frames (none of them an empty STREAM frame without fin) decodes back to their wire images |
| Packets.DecodeEncodePayload | src/quic/packets/mod.rs:31-63 | decode after encode gives the payload's wire image |
| Packets.EncodePayload | src/quic/packets/mod.rs:31-40 | the frames one after the other, none marked last; its properties are stated by `PayloadStartsWithFirstFrame`, `WritePayload` and `DecodeEncodePayload` |
| Packets.PayloadStartsWithFirstFrame | src/quic/packets/mod.rs:31-40 | an encoded payload is not empty and starts with the type byte of its first frame's kind |
| Packets.WritePayload | src/quic/packets/mod.rs:31-40 | the loop writes `EncodePayload`, each frame as not last |
| Packets.ReadPayload | src/quic/packets/mod.rs:42-63 | the decode loop computes `DecodePayload` |
| Packets.EncodeVersions | src/quic/packets/mod.rs:174-176 | 4 bytes per version |
| Packets.DecodeVersions | src/quic/packets/mod.rs:259-273 | one version per whole 4 bytes; a trailing partial version is dropped at EOF |
| Packets.DecodeEncodeVersions | src/quic/packets/mod.rs:259-273 | encoded versions, with fewer than 4 extra bytes, decode back |
| Packets.EncodeDecodeVersions | src/quic/packets/mod.rs:259-273 | versions decoded from s re-encode to s without its trailing partial word |
| Packets.WriteVersions | src/quic/packets/mod.rs:174-176 | the `for` loop writes `EncodeVersions` |
| Packets.ReadVersions | src/quic/packets/mod.rs:259-273 | the read loop computes `DecodeVersions` |
| Packets.DecodeVersion | src/quic/packets/mod.rs:227-236 | only QUIC_VERSION is accepted; any other version is `UnsupportedVersion` of that version |
| Packets.DecodeRegular | src/quic/packets/mod.rs:225-256 | a regular packet with the given header, a non-empty payload, a packet number that fits its size, and a version that is QUIC_VERSION or none |
| Packets.CanEncode | src/quic/packets/mod.rs:124-130 | what `encode` demands: a packet-number size of 1, 2, 4 or 6 (it panics otherwise) and, for a regular packet, a payload with at least one encodable frame (the assert at line 32) |
| Packets.Encode | src/quic/packets/mod.rs:144-189 | header, then the version and truncated packet number and payload, or the versions, or nothing; its properties are stated by `EncodeFlagsByte`, `WritePacket` and the round trips below |
| Packets.EncodeFlagsByte | src/quic/packets/mod.rs:144-189 | an encoded packet starts with its header's flags byte; the version flag is set for version negotiation and for a regular packet with a version, the public reset flag for a public reset only |
| Packets.Decode | src/quic/packets/mod.rs:191-282 | empty input is `Decoding`; failures are `Decoding` or `UnsupportedVersion`; regular packets have a payload, a fitting number and a good version |
| Packets.DecodeVariant | src/quic/packets/mod.rs:220-257 | a decoded packet is a public reset exactly when the first byte has the public reset flag, and a version negotiation packet exactly when it has the version flag but not the public reset flag and a client reads it |
| Packets.WritePacket | src/quic/packets/mod.rs:144-189 | the encoder with its loops computes `Encode` |
| Packets.ReadPacket | src/quic/packets/mod.rs:191-282 | the decoder with its loops computes `Decode` |
| Packets.DecodeAfterHeader | src/quic/packets/mod.rs:220-282 | once the header is read: the public reset bit gives a public reset with that header; otherwise the version bit at a client gives version negotiation with the versions read from the rest; everything else is the regular packet read from the rest |
| Packets.DecodeEncodeRegular | src/quic/packets/mod.rs:144-256 | a regular packet round-trips, with its number cut to the header's size and its payload as its wire image; a version packet needs QUIC_VERSION at a server |
| Packets.DecodeEncodeVersionNegotiation | src/quic/packets/mod.rs:257-280 | a version negotiation packet read by a client round-trips exactly |
| Packets.DecodeEncodePublicReset | src/quic/packets/mod.rs:220-224 | a public reset round-trips exactly, at either end, whatever follows |
| Packets.UnsupportedVersionFirst | src/quic/packets/mod.rs:227-231 | a wrong version is reported before anything after it is read |
| Packets.VersionNegotiationAtServer | src/quic/packets/mod.rs:225-231 | a server reads a version negotiation packet as a regular one and rejects its first version |
| Packets.EncodeVectorPacket | src/tests/quic/packets/mod.rs:82-120 | the test's regular packet encodes to the expected 19 bytes |
| Packets.VectorFlags | src/tests/quic/packets/mod.rs:107-110 | its flags byte is 0x6D |
| StreamBuffers.Padded | src/quic/engine/stream_buffer.rs:120-124 | the window grows with empty slots up to n and keeps its slots |
| StreamBuffers.Overlay | src/quic/engine/stream_buffer.rs:43-76 | the slots of the data's range hold the data, the others are unchanged, and the window grows to cover the range |
| StreamBuffers.FirstConflict | src/quic/engine/stream_buffer.rs:50-63 | the first arriving byte that differs from a stored one |
| StreamBuffers.ReadyCount | src/quic/engine/stream_buffer.rs:84-92 | the length of the run of filled slots at the front |
| StreamBuffers.StreamBuffer.constructor | src/quic/engine/stream_buffer.rs:15-21 | an empty window at offset 0 |
| StreamBuffers.StreamBuffer.MaximumAcceptedOffset | src/quic/engine/stream_buffer.rs:116-118 | one below `next_index + capacity` |
| StreamBuffers.StreamBuffer.AddData | src/quic/engine/stream_buffer.rs:23-79 | in order: overflow, state unchanged; already delivered, unchanged; data agreeing with stored bytes is overlaid; otherwise `InvalidData` with the bytes before the first conflict already merged. The window stays within capacity |
| StreamBuffers.StreamBuffer.Merge | src/quic/engine/stream_buffer.rs:43-78 | the overlap loop and extend: the overlay on success, the overlay of the prefix before the first conflict on mismatch |
| StreamBuffers.StreamBuffer.ExtendBuffer | src/quic/engine/stream_buffer.rs:120-124 | the window padded with empty slots up to the start index |
| StreamBuffers.StreamBuffer.PullData | src/quic/engine/stream_buffer.rs:81-98 | copies min(\|buf\|, ready run) bytes to the front of buf, leaves the rest of buf, drops those slots and advances `next_index` by the count |
| StreamBuffers.StreamBuffer.IsReadable | src/quic/engine/stream_buffer.rs:100-102 | true exactly when the front slot is filled |
| StreamBuffers.StreamBuffer.IsEmpty | src/quic/engine/stream_buffer.rs:104-114 | true exactly when no slot is filled |
| StreamBuffers.OverlayRest | src/quic/engine/stream_buffer.rs:46-76 | checking only the overlapping slots decides agreement, and appending the rest completes the overlay |
| StreamBuffers.ReAddStored | src/quic/engine/stream_buffer.rs:50-76 | re-adding bytes already stored is accepted and changes nothing |
| StreamBuffers.AddIdempotent | src/quic/engine/stream_buffer.rs:23-79 | adding the same data twice: the second add is accepted and changes nothing |
| StreamBuffers.AddCommute | src/quic/engine/tests/stream_buffer.rs:19-32 | two agreeing adds over disjoint ranges give the same window in either order |
| StreamBuffers.AddInOrder | src/quic/engine/tests/stream_buffer.rs:19-32 | adjacent ranges added in either order give the data in ascending order, all ready |
| StreamBuffers.FilledReady | src/quic/engine/stream_buffer.rs:84-92 | a window of filled slots is all ready |
| StreamBufferScenarios.AddDataScenario | src/quic/engine/tests/stream_buffer.rs:5-39 | the test's reads return 2, 1, 0, 2, 2, 0, 0 bytes and end with [6, 7] |
| StreamBufferScenarios.OverflowScenario | src/quic/engine/tests/stream_buffer.rs:42-53 | two bytes at offset 2 of a three-slot window overflow |
| StreamBufferScenarios.MismatchScenario | src/quic/engine/tests/stream_buffer.rs:56-67 | different bytes over stored ones give `InvalidData` |
| Streams.Stream.constructor | src/quic/engine/stream.rs:25-32 | idle, offset 0, nothing buffered |
| Streams.Stream.ExtendBuf | src/quic/engine/stream.rs:34-37 | appends the bytes and opens the stream whatever its state; id and offset unchanged |
| Streams.Stream.DrainOutgoingBuffer | src/quic/engine/stream.rs:39-44 | returns the old offset and every buffered byte, empties the buffer and moves the offset by the count; everything drained so far is everything written |
| Streams.WriteDrainTwice | src/quic/engine/stream.rs:34-44 | successive drains have contiguous offsets, and their chunks are the writes in order |
| Handles.HandleGenerator.constructor | src/quic/threaded/handle.rs:3-11 | the last handle starts at 0 |
| Handles.HandleGenerator.Generate | src/quic/threaded/handle.rs:13-16 | the last handle plus one, which becomes the last handle; never 0 and never handed out before |
| Handles.FirstHandles | src/quic/threaded/handle.rs:13-16 | a new generator hands out 1, 2, 3 |

## Left out

- I/O: writers and readers are byte sequences. An encoder never fails, because write errors of the underlying `io::Write` are not modelled. A read error other than end of input cannot arise from a byte sequence, so it appears only through `MapUnexpectedEof`'s contract.
- Logging (`error!` and `warn!` in `add_data`) is not modelled.
- StreamBuffers.StreamBuffer.AddData: does not model the u64 arithmetic. It requires `1 <= offset + |data| < 2^64`, because the source computes `offset + len - 1` in u64: empty data at offset 0 underflows, and a sum of 2^64 or more overflows.
- StreamBuffers.StreamBuffer.MaximumAcceptedOffset: requires `next_index + capacity >= 1`, because `next_index + capacity - 1` underflows in u64 for a zero-capacity buffer at offset 0.
- StreamBuffers.StreamBuffer.PullData: `next_index` is a `nat`, so its u64 wrap-around after 2^64 delivered bytes is not modelled.
- Streams.Stream.DrainOutgoingBuffer: `sent_offset` is a `nat`, so its u64 wrap-around is not modelled.
- Streams.Stream.ExtendBuf: the `VecDeque` and `Vec` capacities are not modelled.
- PacketUtils.TruncateU64: requires `byteCount < 8`. The source shifts 1 left by `byte_count * 8` bits in u64, which overflows for 8 or more; the codec calls it only with packet-number sizes of at most 6.
- Handles.HandleGenerator.Generate: requires `last_handle < 2^64 - 1`. The u64 increment panics or wraps at 2^64 - 1, and wrapping would hand out 0 again.
- Reason phrases are byte strings. `String::from_utf8_lossy` is a foreign call, so replacement characters for invalid UTF-8 are not modelled, and the round trips are stated for raw bytes.
- The ten-frame test sequence of src/tests/quic/packets/frames/mod.rs:18-329 is not replayed byte for byte. Its content is covered by the general lemmas: every frame's round trip (Frames.DecodeEncode) and the payload round trip over any run of frames (Packets.DecodeEncodeFrames).
- Of the packet tests in src/tests/quic/packets/mod.rs, only the first packet encoding is replayed byte for byte. The general round-trip and error lemmas cover what the other vectors check.
- The concurrency bridge, timers, DNS and socket resolution, and the engine and connection modules are not part of this model:
  - the concurrency bridge is src/quic/threaded/worker.rs and src/quic/threaded/mod.rs (threads, a mutex, a condition variable and UDP);
  - the timers (src/quic/threaded/timer.rs) read the wall clock;
  - DNS and socket resolution is src/quic/threaded/utils.rs;
  - the engine and connection modules draw random numbers, leave operations unimplemented, or call methods that do not exist.
- The demo programs, benchmarks and binaries are command-line I/O and are not part of this model.
- Stale or duplicate files are not modelled: src/quic/packets.rs, src/quic/frames.rs, src/quic/errors.rs and src/quic/utils.rs. Neither are the `src/quic/frames/` copies of CONNECTION_CLOSE, PADDING, RST_STREAM, STOP_WAITING and utils, which have the same layout as the modelled `src/quic/packets/frames/` files.
- `fmt::Display` and `description` of the error type produce messages; only the error kinds and wrapped errors are modelled, not the texts.

## Findings

| source | as written | input that shows it | evidently intended | confidence | as-written member | corrected member |
|---|---|---|---|---|---|---|
| src/quic/frames/stream.rs:57-113 | `StreamFrame::decode` accepts a non-last frame whose data length is 0 and whose fin bit is clear | `BF 00 00 00 00 00 2A 00 00 00 00 00 00 00 20` decodes to an empty frame without fin | such a frame is rejected with `Decoding`, as src/quic/packets/frames/tests/stream.rs:125-136 asserts | not executed | FrameStream.DecodeAsWritten, FrameStream.EmptyWithoutFinVector | FrameStream.Decode, FrameStream.DecodeEncode |
| src/quic/frames/ping.rs:20-25 | `PingFrame::decode` reads the type byte with `?`, so empty input is reported as `Io(UnexpectedEof)` | the empty input | `Decoding`, as src/tests/quic/frames/ping.rs:33-39 asserts | not executed | FramePing.DecodeAsWritten, FramePing.EmptyInputVector | FramePing.Decode, FramePing.DecodeEncode |
