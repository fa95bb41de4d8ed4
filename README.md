# pcapng generic block framing

A model of the generic block layer of the pcap-file crate's pcapng reader and
writer. Every pcapng block has the same envelope: a 32-bit block type, a
32-bit total length, the body, and the total length again as a trailer. The
model covers:

- the block-type tag and its 32-bit wire code, in both directions;
- the slice decoder `Block::from_slice`;
- the stream decoder `Block::from_reader`, including the Section Header
  Block special case (the byte order comes from the magic number, and a
  length read in the wrong order is byte-swapped);
- `Block::write_to` and the `PcapNgBlock::write_block_to` framing helper;
- the typed dispatcher `ParsedBlock::from_slice`, `Block::parsed`, and the
  eight narrowing accessors `into_*`.

Files:

- `byte_order.dfy`: `byte` and `u32` values, and 32-bit big- and
  little-endian encoding, decoding and byte swapping.
- `errors.dfy`: the error type `PcapError` and the `Result` and `Option`
  wrappers.
- `block_type.dfy`: `BlockType` and its `From<u32>` / `Into<u32>`
  conversions.
- `streams.dfy`: a reader (the stream bytes plus a cursor), the 32-bit write
  into a fixed body buffer, and an appending writer.
- `block.dfy`: `Block`, the reference decoders `SliceDecode` and
  `StreamDecode`, the serializer `Serialize`, and the imperative decoders and
  writers proved equal to them.
- `parsed_block.dfy`: `ParsedBlock`, `UnknownBlock`, the dispatcher and the
  accessors. The per-type body decoders are a parameter.
- `framing_properties.dfy`: what the framer promises across calls. This
  covers the length rules, exact shortfalls, the section-header byte order,
  the agreement of the stream and slice decoders, and the write-then-read
  round trips.
- `dispatch_properties.dfy`: what the dispatcher promises across calls.

The stream decoder differs from the slice decoder in one case. For a Section
Header Block whose total length is exactly 12, `from_reader` fails with an
I/O error, because the four-byte magic cannot be written into an empty body
buffer. `from_slice` reads the trailer over the magic and fails with a length
mismatch instead. The two branches otherwise apply the same checks, and the model follows the
code in this case too. `FramingProperties.StreamAgreesWithSlice` proves that,
apart from how a short input is reported, this is the only case where they
differ.

## Model

| member | source | states |
|---|---|---|
| BlockTypes.FromCode | src/pcapng/blocks/block_common.rs:262-276 | the tag of a code converts back to the same code, and the tag is `Unknown` exactly when the code is not one of the eight assigned codes |
| BlockTypes.ToCode | src/pcapng/blocks/block_common.rs:278-292 | a known tag always maps to one of the eight assigned codes |
| BlockTypes.CodeRoundTrip | src/pcapng/blocks/block_common.rs:262-292 | converting a code to a tag and back gives the same code, for every `u32` |
| BlockTypes.TagRoundTrip | src/pcapng/blocks/block_common.rs:262-292 | converting a tag to a code and back gives the same tag exactly when the tag is canonical, i.e. it is not an `Unknown` wrapping an assigned code |
| BlockTypes.ToCodeInjective | src/pcapng/blocks/block_common.rs:278-292 | two canonical tags with the same code are equal |
| BlockTypes.SectionHeaderCodeIsPalindrome | src/pcapng/blocks/block_common.rs:41-44 | the section header code reads as a section header whichever byte order it was written in and whichever order it is read in |
| ByteOrder.DecodeEncode | src/pcapng/blocks/block_common.rs:240-243 | reading a `u32` written in the same byte order gives the value back |
| ByteOrder.EncodeU32 | src/pcapng/blocks/block_common.rs:240-243 | `write_u32` emits exactly four bytes; `DecodeEncode` proves they read back as the value |
| ByteOrder.DecodeU32 | src/pcapng/blocks/block_common.rs:45-46 | `read_u32` takes four bytes to the value whose encoding in the same order is exactly those four bytes, which is why the magic rewrite at line 69 restores the bytes read |
| ByteOrder.SwapBytes | src/pcapng/blocks/block_common.rs:54-56 | `swap_bytes` reverses the bytes: the big-endian bytes of the result are the little-endian bytes of the argument |
| ByteOrder.SwapReadsOtherOrder | src/pcapng/blocks/block_common.rs:147-149 | swapping the bytes of a value read in one order gives the value read in the other order |
| ByteOrder.SwapBytesInvolutive | src/pcapng/blocks/block_common.rs:54-56 | swapping bytes twice restores the value |
| Streams.Reader.ReadU32 | src/pcapng/blocks/block_common.rs:94 | reads four bytes in the given order and advances by four, or fails with end of stream |
| Streams.Reader.ReadExact | src/pcapng/blocks/block_common.rs:105 | fills the rest of the buffer with the next stream bytes and advances by that many, or fails with end of stream and leaves the buffer as it was |
| Streams.WriteU32ToBuffer | src/pcapng/blocks/block_common.rs:69 | writes the four bytes at the start of the buffer; a buffer shorter than four bytes fails with a write-zero error |
| Streams.Writer.WriteU32 | src/pcapng/blocks/block_common.rs:240 | appends the four bytes of the value in the given order |
| Streams.Writer.Write | src/pcapng/blocks/block_common.rs:242 | appends the bytes verbatim and reports their count |
| Blocks.SectionOrder | src/pcapng/blocks/block_common.rs:141-145 | the magic 0x1A2B3C4D means big-endian, 0x4D3C2B1A means little-endian, and any other value is rejected |
| Blocks.LengthError | src/pcapng/blocks/block_common.rs:151-157 | a length is accepted exactly when it is a multiple of 4 and at least 12; otherwise the error is the misalignment error, checked first, or the too-short error |
| Blocks.Serialize | src/pcapng/blocks/block_common.rs:238-246 | a written block is 12 bytes longer than its body |
| Blocks.Frame | src/pcapng/blocks/block_common.rs:417-422 | both length fields are the body length plus 12, truncated to 32 bits |
| Blocks.Header | src/pcapng/blocks/block_common.rs:131-149 | the tag is the code read in the caller's order; a section header's order comes from its magic and any other block's from the caller; the header fails exactly when a section header has a bad magic, with the bad-magic error |
| Blocks.SliceEnvelope | src/pcapng/blocks/block_common.rs:151-176 | a success has a valid length within the input, leaves the bytes after the block, and has both length fields equal to the body length plus 12; a shortfall is positive and equal to the length minus the bytes present |
| Blocks.SliceDecode | src/pcapng/blocks/block_common.rs:125-228 | the reference for `from_slice`: a success leaves a suffix of the input at least 12 bytes shorter than it, and every shortfall is positive |
| Blocks.StreamDecode | src/pcapng/blocks/block_common.rs:39-122 | the reference for `from_reader`: it never consumes more than the stream holds, a success consumes exactly the block's total length, and an end-of-stream failure consumes the rest of the stream |
| Blocks.StreamSectionHeader | src/pcapng/blocks/block_common.rs:44-90 | the same bounds as `StreamDecode`; a decoded section header's body starts with the four magic bytes read from the stream |
| Blocks.StreamCommon | src/pcapng/blocks/block_common.rs:91-121 | the same bounds as `StreamDecode`; a decoded block has the tag read and the caller's byte order |
| Blocks.StreamEnvelope | src/pcapng/blocks/block_common.rs:103-110 | fails only with end of stream, exactly when the stream is shorter than the block and then consuming the rest, or with a length mismatch; a success consumes the total length, keeps the body bytes already in hand, and has both length fields equal to the body length plus 12 |
| Blocks.ReadU32FromSlice | src/pcapng/blocks/block_common.rs:212 | `read_u32` on a slice of at least four bytes gives the first four decoded and advances the slice past them |
| Blocks.FromSlice | src/pcapng/blocks/block_common.rs:125-228 | the cursor-based decoder returns exactly the reference slice decoding: the same block, the same remaining bytes, and the same error in every failure case |
| Blocks.SplitEnvelope | src/pcapng/blocks/block_common.rs:189-227 | after the header, applies the length checks, the shortfall check and the trailer check, and splits off body and rest as the reference decoder does |
| Blocks.SplitBody | src/pcapng/blocks/block_common.rs:207-216 | for a length that passed its checks, the body is the bytes between header and trailer, the trailer is read in the block's order, and a trailer that differs from the length is rejected |
| Blocks.FromReader | src/pcapng/blocks/block_common.rs:39-122 | the stream decoder returns exactly the reference stream decoding, and consumes exactly the bytes it accounts for |
| Blocks.ReadSectionHeader | src/pcapng/blocks/block_common.rs:44-90 | reads the length and magic big-endian, takes the order from the magic, swaps a little-endian length, rewrites the magic into the body, then reads the rest of the body and the trailer in that order |
| Blocks.ReadSectionBody | src/pcapng/blocks/block_common.rs:66-90 | once the order and a valid length are known, a body too short for the magic is the write-zero error after 12 bytes; otherwise the result and the bytes consumed are those of reading the rest of the body and the trailer after the re-encoded magic |
| Blocks.ReadCommon | src/pcapng/blocks/block_common.rs:91-121 | reads the length, body and trailer in the caller's order and records that order on the block |
| Blocks.ReadEnvelope | src/pcapng/blocks/block_common.rs:103-110 | fills the body from the stream, reads the trailer, and rejects a trailer that differs from the length |
| Blocks.ReadTrailer | src/pcapng/blocks/block_common.rs:107-110 | after a complete body, reads the trailer or fails with end of stream, and rejects a trailer that differs from the length |
| Blocks.WriteTo | src/pcapng/blocks/block_common.rs:238-246 | the writer receives exactly the serialized block, and the count returned is 12 plus the body length |
| Blocks.WriteBlockTo | src/pcapng/blocks/block_common.rs:415-425 | the writer receives the framed block (type, length, body, length) and the count returned is the body length plus 12 |
| FramingProperties.HeaderLength | src/pcapng/blocks/block_common.rs:134-149 | a section header's length is read big-endian and swapped for a little-endian magic; any other block's length is read in the caller's order |
| FramingProperties.SliceDecodeOk | src/pcapng/blocks/block_common.rs:207-226 | a successful decode has a length that is aligned, at least 12 and within the input; the body is the bytes between header and trailer, the trailer equals the length, and the rest is everything after the block |
| FramingProperties.LengthRule | src/pcapng/blocks/block_common.rs:194-200 | both decoders reject a misaligned or too-short length with the same error |
| FramingProperties.TrailerMismatch | src/pcapng/blocks/block_common.rs:214-216 | a trailer that differs from the length is a length-mismatch error on the slice path; on the stream path it is the same error, except for a 12-byte section header, which is the write-zero error |
| FramingProperties.MagicReadsInItsOrder | src/pcapng/blocks/block_common.rs:169-176 | a valid magic read in the order it announces is 0x1A2B3C4D, so it never equals a trailer 12 |
| FramingProperties.SectionHeaderOrder | src/pcapng/blocks/block_common.rs:134-187 | a section header with a bad magic is rejected on both paths; a decoded one gets its order from the magic, and its body starts with the magic bytes |
| FramingProperties.ShortSectionHeaderRejected | src/pcapng/blocks/block_common.rs:66-70 | a section header of total length 12 is a length mismatch for the slice decoder and a write-zero I/O error for the stream decoder, which consumes 12 bytes |
| FramingProperties.IncompleteIsShortfall | src/pcapng/blocks/block_common.rs:127-128 | an incomplete-buffer error asks for exactly the bytes missing: up to the 12-byte header, or up to the block's total length |
| FramingProperties.HeaderShortfallIsExact | src/pcapng/blocks/block_common.rs:127-128 | on an input shorter than the header, appending fewer bytes than the shortfall leaves a shortfall of exactly the difference |
| FramingProperties.ShortfallIsExact | src/pcapng/blocks/block_common.rs:202-205 | appending fewer than the reported bytes leaves a shortfall of exactly the difference; appending at least that many gets past the check; appending exactly that many leaves nothing after the block |
| FramingProperties.StreamAgreesWithSlice | src/pcapng/blocks/block_common.rs:39-122 | the stream decoder succeeds exactly when the slice decoder does, with the same block, consuming the block's bytes; where the slice decoder reports a shortfall, the stream decoder reports end of stream, or the misaligned or too-short length error on an input under 12 bytes; the stream decoder's write-zero error happens only for a 12-byte section header, against the slice decoder's length mismatch, and every other invalid-field error is the same on both paths |
| FramingProperties.CommonPathsAgree | src/pcapng/blocks/block_common.rs:91-121 | the case of the stream/slice agreement for every block type but the section header: a bad length, a truncated block, a trailer mismatch and a complete block come out as stated there |
| FramingProperties.SectionHeaderPathsAgree | src/pcapng/blocks/block_common.rs:44-90 | the section-header case of the stream/slice agreement: a bad magic, a bad length, a short section header and a truncated block each fail on both paths as stated there |
| FramingProperties.WholeSectionHeaderAgrees | src/pcapng/blocks/block_common.rs:66-70 | a complete section header yields the same body on both paths: the stream path's rewritten magic is the magic the slice path keeps in place |
| FramingProperties.RoundTrip | src/pcapng/blocks/block_common.rs:238-246 | decoding a written well-formed block gives back the block and the bytes after it; a section header does so whatever order the reader assumes |
| FramingProperties.StreamRoundTrip | src/pcapng/blocks/block_common.rs:238-246 | reading a written well-formed block from a stream gives back the block and consumes exactly its bytes |
| FramingProperties.WriteBlockRoundTrip | src/pcapng/blocks/block_common.rs:415-425 | a block framed by `write_block_to` decodes to the type, body and length that were written |
| FramingProperties.TwoBlockBuffer | src/pcapng/blocks/block_common.rs:125-228 | a big-endian section header followed by an interface description decodes to the section header with the interface description as the rest, and the rest decodes in turn to the interface description with nothing left |
| FramingProperties.ExampleSectionDecodes | src/pcapng/blocks/block_common.rs:134-187 | a 28-byte big-endian section header decodes in either caller order, leaving whatever follows it |
| FramingProperties.ExampleInterfaceDecodes | src/pcapng/blocks/block_common.rs:189-227 | a 20-byte big-endian interface description decodes, leaving whatever follows it |
| ParsedBlocks.UnknownLength | src/pcapng/blocks/block_common.rs:347 | the length recorded for an unknown block is the body length plus 12 whenever that fits in 32 bits |
| ParsedBlocks.BodyOrder | src/pcapng/blocks/block_common.rs:315-320 | a section header body is decoded big-endian whatever the caller's order; every other body in the caller's order |
| ParsedBlocks.DispatchSlice | src/pcapng/blocks/block_common.rs:311-349 | a known type succeeds exactly when its decoder does, with the decoder's rest and value in the variant for that type; section headers are decoded big-endian; decoder errors propagate unchanged; an unknown type yields an `Unknown` record of the whole slice with nothing left over |
| ParsedBlocks.Parsed | src/pcapng/blocks/block_common.rs:230-236 | the body is dispatched in the order recorded on the block, and the decoder's leftover bytes are dropped |
| ParsedBlocks.IntoSectionHeader | src/pcapng/blocks/block_common.rs:386-391 | returns the value exactly when the block is a section header |
| ParsedBlocks.IntoInterfaceDescription | src/pcapng/blocks/block_common.rs:358-363 | returns the value exactly when the block is an interface description |
| ParsedBlocks.IntoPacket | src/pcapng/blocks/block_common.rs:379-384 | returns the value exactly when the block is an obsolete packet block |
| ParsedBlocks.IntoSimplePacket | src/pcapng/blocks/block_common.rs:393-398 | returns the value exactly when the block is a simple packet |
| ParsedBlocks.IntoNameResolution | src/pcapng/blocks/block_common.rs:372-377 | returns the value exactly when the block is a name resolution block |
| ParsedBlocks.IntoInterfaceStatistics | src/pcapng/blocks/block_common.rs:365-370 | returns the value exactly when the block is an interface statistics block |
| ParsedBlocks.IntoEnhancedPacket | src/pcapng/blocks/block_common.rs:351-356 | returns the value exactly when the block is an enhanced packet |
| ParsedBlocks.IntoSystemdJournalExport | src/pcapng/blocks/block_common.rs:400-405 | returns the value exactly when the block is a systemd journal export |
| DispatchProperties.SectionHeaderDispatchIgnoresOrder | src/pcapng/blocks/block_common.rs:315-318 | dispatching a section header body gives the same result whichever order the caller asserts |
| DispatchProperties.ParsedSectionHeaderIgnoresEndianness | src/pcapng/blocks/block_common.rs:230-236 | interpreting a section header does not depend on the order recorded on it |
| DispatchProperties.ParsedUsesRecordedOrder | src/pcapng/blocks/block_common.rs:232-235 | any other known block succeeds exactly when its decoder succeeds in the block's recorded order |
| DispatchProperties.UnknownKeepsWireLength | src/pcapng/blocks/block_common.rs:347 | a framed block of unknown type is interpreted as an `Unknown` record whose length equals the block's total length on the wire |
| DispatchProperties.NarrowingIsExclusive | src/pcapng/blocks/block_common.rs:351-405 | exactly one accessor returns a value for a known variant, and it is the one for that variant's type; none returns a value for an unknown block |

## Left out

- Per-type body decoders and encoders (`SectionHeaderBlock::from_slice` and the other seven) live outside this file. The dispatcher takes them as the function parameter `decode`. `write_block_to` takes the body bytes that the block's `write_to` would produce.
- `into_parsed` and the per-impl `BLOCK_TYPE` constant: the block type is a parameter of `WriteBlockTo` and `Frame`.
- The `byteorder` crate and `std::io` are replaced by the byte-order functions and the reader and writer of `streams.dfy`. The Rust generic parameter `B` is a value of type `Endianness`.
- I/O error kinds are reduced to end of stream and write-zero, the two the framer can give rise to. Other errors of an arbitrary reader are not modelled.
- A failed read leaves the model's reader at the end of the stream, as a slice reader does. The position after a failed read of an arbitrary `Read` is unspecified in Rust and is not modelled.
- Blocks.WriteTo: the writer never fails, so the `?` error exits of `write_to` and `write_block_to` are not modelled. `Write::write` is taken to accept the whole body, so a partial write, which `write_to` would silently accept, is not modelled either.
- Blocks.WriteBlockTo: the first `write_to` into `io::sink()` only measures the body. It is modelled as the body length, because a sink never fails.
- ParsedBlocks.UnknownLength: `slice.len() as u32 + 12` wraps, as in a release build. A debug build panics on that overflow; the panic is not modelled.
- `Cow` borrowing versus owning, lifetimes and `IntoOwned`: the model has only values, so the body is a sequence in both cases.
- The derived `Clone`, `Debug`, `Eq` and `PartialEq` traits: datatype equality stands in for them.
- How a file reader threads the byte order from one section header to the blocks after it is not part of this model.
