# hide: a verified model of the steganographic core

hide conceals a file inside an image. This project models, in Dafny, the
parts of hide that decide where the hidden bits go and how they come back.

**The pixel engine.** `process_file` and `will_fit` exist in four copies:
src/hide.c, src/imagine.c, src/main.c and main.c. Every pixel of the carrier
raster stores one byte of the message. The byte is split 3/2/3 over the low
bits of the pixel's first three channels. The message is the file's size,
eight bytes in network order, followed by the file itself. The four copies
run the same loop. src/hide.c ends the program on a failure; the other three
return errno. A `Variant` value selects one of the four.

**The byte-order helpers.** `__bswap_64`, `htonll` and `ntohll` from main.h.
The host's byte order is a parameter.

**The JPEG bridge.** src/jpeg.c provides `is_jpeg`, `read_jpeg` and
`write_jpeg`. It presents the message hidden in a JPEG file to the pixel
engine as a one-row, three-channel image, one pixel per message byte.

**The JPEG baseline entropy layer.** The decoder is src/jpeg-load.c. This
covers:
- the JFIF segment parser;
- the Huffman tables it builds;
- the bit reservoir;
- the decoding of each data unit;
- the extraction of one message bit from the least significant bit of every
  quantised coefficient above 1.

The encoder is src/jpeg-save.c. This covers:
- the header segments;
- the quantisation and Huffman tables;
- the zig-zag scatter;
- the embedding of the message in the coefficients;
- the DC and AC coding of `process_DU`;
- the bit writer with its 0xFF stuffing;
- the EOI alignment.

The entropy code follows ITU-T T.81: Annex C for the Huffman codes, section
F.1.2 for coding, section F.2.2 for decoding, and Annex K for the standard
tables.

The main results:
- `LsbEngine.HideThenRecover`: a payload of 1 to CAPACITY bytes, hidden in a
  raster at least eight pixels wide, is recovered exactly.
- `BlockCode.BlockRoundTrip`: the decoder reads back every data unit the
  encoder codes whose AC coefficients lie in magnitude categories 0 to 10,
  together with the DC predictor.
- `HeaderRoundTrip.EncodedHeaderParses`: the decoder's header parser accepts
  the header the encoder writes and builds the encoder's tables from it.
- `HuffmanBuild.TablesAgree`: the encoder's and the decoder's Huffman
  constructions agree.
- `Stego.StegoRoundTrip`: extraction returns the message that embedding put
  into the coefficients.
- `JpegBridge.ReceivedEmbedded` and `JpegBridge.SentReceived`: the bridge
  carries that message to the pixel engine and back without loss.

Some entities are updated in place in C. These are classes with `modifies`
clauses, proved against functions of their inputs:
- the bit reservoir `BitReader.Reservoir`;
- the bit writer `BitWriter.Writer`;
- the decoder's `stJpegData` (`JpegParse.JpegData`);
- the extraction statics (`JpegLoad.Extractor`);
- the embedding statics (`JpegSave.Encoder`);
- `data_info` (`LsbEngine.DataInfo`).

The raster is an `array3` indexed `[row, pixel, channel]`.

File contents, the outcomes of `open`, `mmap` and `fopen`, and the host's
byte order are parameters.

## Model

| member | source | states |
|---|---|---|
| ByteOrder.BswapReversesBytes | main.h:13-23 | `__bswap_64` moves byte k of its argument to byte 7 - k |
| ByteOrder.BswapInvolution | main.h:13-23 | swapping twice gives the original value |
| ByteOrder.NtohllHtonll | main.h:25-30 | on either host, ntohll and htonll undo each other |
| ByteOrder.HtonllInMemory | main.h:25-30 | the memory bytes of htonll(x), lowest address first, are x's bytes most significant first |
| ByteOrder.NtohllReadsNetworkOrder | main.h:25-30 | ntohll reads a value's memory bytes as network order |
| ByteOrder.NtohllValue | main.h:25-30 | ntohll of eight bytes read from memory is their big-endian value, on either host |
| ByteOrder.FromBigEndianBytes | main.h:25-30 | reading eight network-order bytes and writing them back gives the same bytes |
| ByteOrder.BigEndianRoundTrip | main.h:25-30 | writing a u64 in network order and reading it back gives the value |
| ByteOrder.MemoryOfFromMemory | main.h:25-30 | storing a u64 that was read from memory writes the same eight bytes back |
| LsbEngine.Fatal | src/hide.c:54-57 | a failure is fatal in src/hide.c and only there; the other copies return it as errno |
| LsbEngine.EmbedChannelBits | src/hide.c:70-73 | embedding byte c changes only the low 3/2/3 bits of channels 0/1/2, and sets them to bits 7-5, 4-3 and 2-0 of c |
| LsbEngine.ExtractByteBits | src/hide.c:77-79 | extraction reads exactly the low 3/2/3 bits of the three channels |
| LsbEngine.ExtractInvertsEmbed | src/hide.c:70-79 | extraction returns the byte last embedded in a pixel, whatever the pixel held before |
| LsbEngine.BeforeMonotone | src/hide.c:95-96 | the payload counter i never decreases along the row-major order |
| LsbEngine.BeforeStep | src/hide.c:95-96 | i advances on pixels outside the first eight of row 0, and only on those |
| LsbEngine.RowEnd | src/hide.c:61-64 | the counter at the end of row y is the counter at the start of row y + 1 |
| LsbEngine.StopPoint | src/hide.c:97-98 | when the stop test fires at (y, x), the processed pixels are exactly those up to (y, x) |
| LsbEngine.LaterRowsUntouched | src/hide.c:97-98 | once a row has completed the payload, no pixel of a later row is processed |
| LsbEngine.AllProcessed | src/hide.c:61-100 | when the loop runs to the end without stopping, every pixel was processed |
| LsbEngine.PayloadPlacement | src/hide.c:66-96 | in a raster at least eight pixels wide, the prefix is the first eight pixels and payload byte i lands in row-major pixel 8 + i |
| LsbEngine.PayloadPixelCount | src/hide.c:95-96 | an h-row raster of width w >= 8 has w*h - 8 payload pixels |
| LsbEngine.PayloadPixel | src/hide.c:95-96 | every payload index below the payload pixel count belongs to a pixel |
| LsbEngine.PayloadPixelOf | src/hide.c:92 | the payload counter of a non-prefix pixel names that pixel back |
| LsbEngine.RowOfIndex | src/hide.c:61-64 | pixel k of an h-row raster, counted in row-major order, lies in row k / w < h |
| LsbEngine.ByteForWide | src/hide.c:59-70 | in a wide raster, the bytes written are the big-endian length followed by the payload, by row-major index |
| LsbEngine.Capacity | src/hide.c:45 | CAPACITY is below 2^64, and it is width*height - 8 whenever that fits in a uint64_t |
| LsbEngine.CapacityWrapsForTinyImages | src/hide.c:45 | an image of fewer than eight pixels reports 2^64 - 8 + w*h bytes of room |
| LsbEngine.CapacityIsPayloadPixels | src/hide.c:45 | on a raster at least eight pixels wide, CAPACITY is exactly the number of payload pixels |
| LsbEngine.DataInfo.constructor | src/hide.c:114 | data_info starts unhidden with size 0 and the file's size |
| LsbEngine.DataInfo.WillFit | src/hide.c:108-123 | the file fits iff its size is at most CAPACITY; then size holds htonll(st_size) and hiding is on; otherwise ENOSPC and nothing changes |
| LsbEngine.EmbedPixel | src/hide.c:66-73 | one pixel gets the low bits of c and nothing else changes |
| LsbEngine.RowEndEmbedded | src/hide.c:61-64 | the embedding state at the end of row y is the state at the start of row y + 1 |
| LsbEngine.StoppedEmbedded | src/hide.c:97-98 | when the stop test fires, exactly the processed pixels carry their bytes |
| LsbEngine.FinishedEmbedded | src/hide.c:61-100 | when the hiding loop runs off the last row, every pixel carries its byte |
| LsbEngine.EmbedRow | src/hide.c:64-99 | one row of the hiding loop keeps the embedding invariant and reports whether the payload ended in it |
| LsbEngine.EmbedMessage | src/hide.c:54-100 | hiding: an open or map failure leaves the raster unchanged; otherwise each processed pixel carries the size byte or payload byte for its position, and all other pixels are unchanged |
| LsbEngine.PrefixBytes | src/hide.c:81-83 | the prefix is the eight bytes carried by pixels 0..7 of row 0 |
| LsbEngine.Truncated | src/hide.c:86 | ftruncate cuts the output file, or zero-extends it, to exactly n bytes |
| LsbEngine.RecoveryRowEnd | src/hide.c:61-64 | the recovery invariant at the end of row y is the invariant at the start of row y + 1 |
| LsbEngine.RecoveryEnd | src/hide.c:61-106 | running off the last row ends recovery with Done |
| LsbEngine.PrefixByteStored | src/hide.c:81-83 | a prefix pixel before the last stores its byte into the size field |
| LsbEngine.PrefixComplete | src/hide.c:81-86 | after the eighth prefix pixel the size field holds the prefix bytes, and ntohll of it is the declared length |
| LsbEngine.MappedStart | src/hide.c:84-89 | mapping the truncated output starts the payload part of the loop |
| LsbEngine.StorePayloadWritten | src/hide.c:91-96 | after a payload pixel is stored, every map entry so far holds the byte of its payload pixel |
| LsbEngine.StorePayloadContinues | src/hide.c:91-98 | a payload pixel below the declared length keeps the loop running with its invariant |
| LsbEngine.StorePayloadStops | src/hide.c:97-98 | the payload pixel that reaches the declared length ends recovery with Done |
| LsbEngine.RecoverPrefixPixel | src/hide.c:81-90 | the loop body for a prefix pixel: one more size byte; the eighth maps the output, and a map failure ends the loop |
| LsbEngine.MapOutput | src/hide.c:84-89 | after the eighth prefix pixel, the output is truncated to the decoded length and mapped; a zero length ends the loop at once |
| LsbEngine.RecoverPayloadPixel | src/hide.c:91-98 | the loop body for a payload pixel: store it at map[i], and stop once i reaches the length |
| LsbEngine.RecoverPixel | src/hide.c:75-98 | one pixel of the recovering loop keeps the recovery invariant, or ends recovery as specified |
| LsbEngine.RecoverRow | src/hide.c:64-99 | one row of the recovering loop keeps the invariant or ends recovery as specified |
| LsbEngine.RecoverRows | src/hide.c:61-100 | the recovering loop ends as recovery from the raster specifies: the status and the output contents |
| LsbEngine.ExtractMessage | src/hide.c:47-106 | recovery: an open failure is fatal and leaves the output as it was; otherwise the status and output contents are those recovery from the raster specifies |
| LsbEngine.ProcessFile | src/hide.c:47-106 | process_file hides when will_fit has switched hiding on and recovers otherwise. Hiding leaves the file unchanged; with open and mmap succeeding, every processed pixel is the old pixel with the 3-2-3 split of its prefix or payload byte and every other pixel is unchanged. Recovery leaves the raster unchanged and writes the output file Recovered describes. A failed open or mmap dies with its message |
| LsbEngine.Store | src/hide.c:227-235 | the hiding path of main: a file larger than CAPACITY is refused with ENOSPC before any pixel changes; otherwise size is htonll of the length and process_file hides, so each processed pixel carries the byte of htonll(length) or of the file and every other pixel is unchanged |
| LsbEngine.StoreThenRecover | src/hide.c:227-235 | a file of 1..CAPACITY bytes stored by main's hiding path in a raster at least eight pixels wide is recovered exactly, whatever the output file held |
| LsbEngine.EmbeddedPixelBytes | src/hide.c:70-79 | each processed pixel of the hidden raster reads back as the byte written into it |
| LsbEngine.EmbeddedDeclaresLength | src/hide.c:59 | a raster whose prefix pixels carry htonll(L) declares the length L |
| LsbEngine.EmbeddedPayload | src/hide.c:70 | every payload byte of a hidden raster is recovered from pixel 8 + j |
| LsbEngine.RecoveredPayload | src/hide.c:75-98 | what recovery writes from a raster carrying the length prefix and the payload is the payload |
| LsbEngine.HideThenRecover | src/hide.c:61-100 | hiding a payload of 1..CAPACITY bytes in a raster at least eight pixels wide, then recovering from it, gives back exactly the payload, whatever the output file held |
| JpegBridge.ParsedIsJpeg | src/jpeg.c:35-48 | every file the decoder's header parser accepts begins FF D8 FF, so is_jpeg recognises it |
| JpegBridge.SegmentOnMarker | src/jpeg-load.c:510 | a segment pass that succeeds starts on a 0xFF byte |
| JpegBridge.FileIsJpeg | src/jpeg-save.c:832-850 | the encoder's header followed by any scan and EOI begins FF D8 FF |
| JpegBridge.EncodedIsJpeg | src/jpeg-save.c:804-852 | every file jpeg_encode_data writes is recognised by is_jpeg |
| JpegBridge.SentIsJpeg | src/jpeg.c:97-129 | every file write_jpeg writes is recognised by is_jpeg |
| JpegBridge.UnpackBounds | src/jpeg.c:81-83 | the unpacked channels of a message byte hold at most 7, 3 and 7 |
| JpegBridge.RepackUnpack | src/jpeg.c:114-116 | write_jpeg's repacking of read_jpeg's pixel gives the byte back |
| JpegBridge.UnpackRepack | src/jpeg.c:114-116 | unpacking a repacked pixel keeps exactly the low 3/2/3 bits that repacking reads |
| JpegBridge.UnpackIsEmbedding | src/jpeg.c:81-83 | the unpacked pixel of b is b embedded by the pixel engine into a black pixel |
| JpegBridge.FindStepDeclares | src/jpeg-load.c:224-229 | once allocated, message->size is the big-endian value of the eight length bytes read, and extraction keeps it so |
| JpegBridge.FindFromDeclares | src/jpeg-load.c:208-236 | the block loop of extraction keeps message->size the value of its length bytes |
| JpegBridge.FindBlocksDeclare | src/jpeg-load.c:208-236 | extraction over the data units keeps message->size the value of its length bytes |
| JpegBridge.ExtractedDeclares | src/jpeg-load.c:224-229 | after jpeg_decode_data in FIND mode, message->size is the big-endian value of the length bytes read, if they were all read |
| JpegBridge.ReceivedMessage | src/jpeg.c:63-74 | in FIND mode the message is image width bytes (at least eight); its first eight declare, big-endian, the length extraction found; it carries the extracted bytes after them; the width is that length plus 8 |
| JpegBridge.ReceivedEmbedded | src/jpeg.c:62-74 | coefficients carrying the first L + 8 bytes of a message that declares L come back through read_jpeg as exactly those L + 8 bytes |
| JpegBridge.CapacityWidth | src/jpeg.c:69-73 | READ mode: the width is the number of eligible coefficients less eight; below eight it wraps round to 2^64 + n - 8; there are no message bytes |
| JpegBridge.LoadCapacity | src/jpeg.c:60-73 | read_jpeg asked for the capacity of a decodable file reports the eligible-coefficient count less eight, with uint64_t wrap-around |
| JpegBridge.CapacityOverstated | src/jpeg.c:69 | with n >= 8 eligible coefficients the reported capacity w is n - 8, while a message of that length needs 8 * (w + 8) > n of them |
| JpegBridge.ByteCapacity | src/jpeg.c:69 | the intended capacity c of n coefficients is the largest length whose message, length bytes included, takes at most n bits: 8 * (c + 8) <= n < 8 * (c + 9) |
| JpegBridge.CapacityFits | src/jpeg-save.c:704-720 | a message no longer than ByteCapacity, embedded in the blocks, is extracted again in full |
| JpegBridge.Prefixed | src/jpeg.c:66 | the memcpy of eight bytes over the first eight of message->data keeps the length and the rest |
| JpegBridge.RestoreLength | src/jpeg.c:63-68 | the FIND fix-up puts the eight length bytes extraction read back in front of the data, and the width is their big-endian value plus 8 as a uint64_t, on either host |
| JpegBridge.UnpackMessage | src/jpeg.c:72-86 | read_jpeg builds a fresh 1 x len(m) x 3 image whose pixel i is the unpacked byte m[i] |
| JpegBridge.Deliver | src/jpeg.c:63-86 | after decoding, read_jpeg fails exactly as the fix-up specifies (no message, or a message shorter than its length field), and otherwise returns a fresh image of the reported width holding the message's pixels |
| JpegBridge.ReadJpeg | src/jpeg.c:50-95 | read_jpeg fails on fopen and on every decoder failure; otherwise it returns the image of the carried message, FIND or READ |
| JpegBridge.Packed | src/jpeg.c:112-119 | the repacked message has one byte per pixel of the first row |
| JpegBridge.PackedUnpacked | src/jpeg.c:112-119 | repacking read_jpeg's image of a message gives the message back |
| JpegBridge.PackMessage | src/jpeg.c:112-119 | write_jpeg's copying loop produces the repacked message |
| JpegBridge.SentReceived | src/jpeg.c:121-125 | a message read_jpeg delivered survives repacking: write_jpeg finds its declared length and embeds the whole message |
| JpegBridge.EncodeMessage | src/jpeg.c:125 | jpeg_encode_data embeds the first message->size + 8 message bytes, and codes the carrier or reports the value it cannot code |
| JpegBridge.WriteJpeg | src/jpeg.c:97-129 | write_jpeg fails on fopen; otherwise it reads the length big-endian from the first eight repacked bytes, refuses a message shorter than eight bytes or than its declared length + 8, and writes the encoded carrier |
| Common.Wrap16 | src/jpeg-save.c:722 | the int16_t conversion lies in range, keeps in-range values, and differs from its argument by a multiple of 2^16 |
| Common.Wrap64 | src/jpeg.c:67 | the uint64_t conversion lies below 2^64 and keeps values below 2^64 |
| ZigZagOrder.ZigZagInverse | src/jpeg-load.c:51-61 | UnZigZag undoes the zig-zag table |
| ZigZagOrder.UnZigZagInverse | src/jpeg-load.c:51-61 | the zig-zag table undoes UnZigZag |
| ZigZagOrder.ZigZagIsPermutation | src/jpeg-save.c:147-157 | the zig-zag order shared by ZigZagArray and zigzag is a permutation of 0..63, and so is its inverse |
| ZigZagOrder.ScatteredAt | src/jpeg-save.c:698-699 | the encoder's scatter puts x[i] at position zigzag[i] |
| ZigZagOrder.ScatteredEntries | src/jpeg-save.c:698-699 | the scatter only moves values: entry k of the coded block is an entry of the input |
| ZigZagOrder.GatheredEntries | src/jpeg-load.c:174-178 | entry i of DeZigZag's result is entry zigzag[i] of the coded block |
| ZigZagOrder.GatherScattered | src/jpeg-load.c:174-178 | DeZigZag undoes the encoder's scatter |
| ZigZagOrder.ScatterGathered | src/jpeg-save.c:698-699 | the encoder's scatter undoes DeZigZag |
| Bits.ShlIsMul | src/jpeg-load.c:126-127 | shifting left multiplies by a power of two |
| Bits.FromToBits | src/jpeg-load.c:629-633 | reading back the n bits of v gives v modulo 2^n |
| Bits.ToFromBits | src/jpeg-load.c:629-633 | a bit string is the bits of the number it spells |
| Bits.TopBits | src/jpeg-load.c:629-633 | the first k of the n bits of v spell v's top k bits |
| Bits.ToBitsSplit | src/jpeg-load.c:615-627 | the m + n bits of v are the bits of its high part, then those of its low part |
| Bits.BytesToBitsAppend | src/jpeg-load.c:601-613 | the bits of a concatenation of byte strings are the concatenated bits |
| Huffman.Lengths | src/jpeg-load.c:286-288 | there are as many code lengths as the histogram's total |
| Huffman.LevelBounds | src/jpeg-load.c:286-288 | every code's length lies in 1..16, between the counts of shorter and of not longer codes |
| Huffman.LengthsSorted | src/jpeg-load.c:286-288 | code lengths are nondecreasing along the table |
| Huffman.LengthsCount | src/jpeg-load.c:286-288 | exactly bits[l] entries have length l |
| Huffman.CodeByLevel | src/jpeg-load.c:122-131 | GenHuffCodes' code for each entry is its level's first code plus its place in the level |
| Huffman.SameLevel | src/jpeg-load.c:122-131 | codes of one length are consecutive increasing integers |
| Huffman.NewLevel | src/jpeg-load.c:126-127 | the first code of a longer length is the previous code plus one, shifted left once per extra bit |
| Huffman.EmptyLevels | src/jpeg-load.c:126-127 | levels with no codes only double the running code |
| Huffman.CodeFits | src/jpeg-load.c:122-131 | for a Kraft-valid histogram every code fits in its length |
| Huffman.PrefixFree | src/jpeg-load.c:122-131 | for a Kraft-valid histogram no code is a prefix of a longer one |
| Huffman.SameLengthDistinct | src/jpeg-load.c:122-131 | codes of one length are distinct |
| Huffman.StoredCode | src/jpeg-load.c:128 | the 16-bit code GenHuffCodes stores is the full canonical code |
| Huffman.BlockAt | src/jpeg-load.c:122-131 | entry j of the table has its canonical length, code and symbol |
| Huffman.LookupSpec | src/jpeg-load.c:644-659 | the search finds nothing iff no block matches both code and length, and otherwise returns a matching block's value |
| Huffman.LookupUnique | src/jpeg-load.c:644-659 | when exactly one block matches, the search returns its value |
| Huffman.FindCode | src/jpeg-load.c:707-713 | a code found has a length between the first length searched and the longest, within the bits available |
| Huffman.FindCodeSound | src/jpeg-load.c:765-771 | the value found at length k is the first match, with none at a shorter length; nothing found means no match up to the longest length; a failure means fewer bits than the longest length remain |
| Huffman.LookupCanonical | src/jpeg-load.c:644-659 | the first k bits of a code match no entry before k reaches its length, and then match exactly that code's entry |
| Huffman.FindCanonical | src/jpeg-load.c:765-774 | reading any code of the table, followed by anything, finds that code's symbol at its length |
| HuffmanBuild.EmptyTable | src/jpeg-load.c:995 | the zero-initialised table holds no codes |
| HuffmanBuild.GenHuffCodes | src/jpeg-load.c:122-131 | GenHuffCodes numbers the first num blocks canonically, sets each value from huffVal, and leaves the rest alone |
| HuffmanBuild.NumberOne | src/jpeg-load.c:124-130 | one pass of GenHuffCodes' outer loop extends the numbering by one entry |
| HuffmanBuild.CodeStep | src/jpeg-load.c:124-130 | the code of one entry is the previous code plus one, widened to the entry's length |
| HuffmanBuild.WidenCode | src/jpeg-load.c:126-127 | the inner loop raises lc to the entry's length and doubles hc once per step |
| HuffmanBuild.EntryAt | src/jpeg-load.c:286-288 | table entry c lies at level i when it is among level i's entries |
| HuffmanBuild.FillLevel | src/jpeg-load.c:286-288 | one level of the length loop gives blocks c .. c + bits[i] - 1 length i and leaves the others alone |
| HuffmanBuild.BuildHuffmanTable | src/jpeg-load.c:273-291 | the histogram is copied, numBlocks is its total and the first numBlocks blocks are the canonical code table; nothing else changes |
| HuffmanBuild.Assigned | src/jpeg-save.c:461-469 | compute_Huffman_table keeps the table's size |
| HuffmanBuild.ComputeHuffmanTable | src/jpeg-save.c:461-469 | compute_Huffman_table writes, level by level, each symbol's canonical code and length |
| HuffmanBuild.ComputeLevel | src/jpeg-save.c:464-468 | the inner loop gives the nrcodes[i] symbols of level i consecutive codes |
| HuffmanBuild.AssignedStep | src/jpeg-save.c:464-468 | writing the next entry of a level extends the assignment by one symbol |
| HuffmanBuild.AssignedAt | src/jpeg-save.c:461-469 | after n entries, the symbol of each entry p < n holds that entry's code |
| HuffmanBuild.AssignedElsewhere | src/jpeg-save.c:461-469 | a symbol no entry names keeps its original entry |
| HuffmanBuild.TablesAgree | src/jpeg-save.c:461-469 | for a Kraft-valid histogram with distinct symbols, the decoder's search reads back every code compute_Huffman_table assigns, as its symbol |
| HuffmanBuild.StoredLevelCode | src/jpeg-save.c:466 | the encoder's uint16_t code keeps the whole canonical code |
| HuffmanBuild.Coverage | src/jpeg-save.c:461-469 | the encoder's table gives each histogram symbol a code of 1..16 bits; every other symbol keeps its entry |
| Tables.StdQuantBounds | src/jpeg-save.c:162-184 | every Annex K.1 quantisation entry lies in 1..149 |
| Tables.DcLuminanceBitsTotal | src/jpeg-save.c:188 | the luminance DC histogram counts 12 codes |
| Tables.DcLuminanceBitsFits | src/jpeg-save.c:188 | the luminance DC histogram is Kraft-valid |
| Tables.DcChrominanceBitsTotal | src/jpeg-save.c:191 | the chrominance DC histogram counts 12 codes |
| Tables.DcChrominanceBitsFits | src/jpeg-save.c:191 | the chrominance DC histogram is Kraft-valid |
| Tables.AcLuminanceBitsTotal | src/jpeg-save.c:194 | the luminance AC histogram counts 162 codes |
| Tables.AcLuminanceBitsFits | src/jpeg-save.c:194 | the luminance AC histogram is Kraft-valid |
| Tables.AcChrominanceBitsTotal | src/jpeg-save.c:221 | the chrominance AC histogram counts 162 codes |
| Tables.AcChrominanceBitsFits | src/jpeg-save.c:221 | the chrominance AC histogram is Kraft-valid |
| Tables.AcValuesRanked | src/jpeg-save.c:196-246 | each AC symbol list holds each of its 162 symbols once, as a byte-sized run/size symbol |
| Tables.AcLuminanceCovers | src/jpeg-save.c:196-219 | every baseline run/size symbol is in the luminance AC list |
| Tables.AcChrominanceCovers | src/jpeg-save.c:223-246 | every baseline run/size symbol is in the chrominance AC list |
| StdTables.ZeroTable | src/jpeg-save.c:262-265 | the static tables start with every code of length 0 |
| StdTables.DcTables | src/jpeg-save.c:471-477 | a Kraft-valid DC histogram of 12 categories with no 16-bit code gives every category a code of 1..15 bits, and the decoder's 15-bit search reads each back |
| StdTables.AcTables | src/jpeg-save.c:471-477 | a Kraft-valid AC histogram over a list holding each symbol once gives every AC symbol a code, and the decoder's 16-bit search reads each back |
| StdTables.LuminanceDc | src/jpeg-save.c:473 | the Y DC table covers every category, and the decoder reads it back |
| StdTables.LuminanceAc | src/jpeg-save.c:475 | the Y AC table covers every AC symbol, and the decoder reads it back |
| StdTables.ChrominanceDc | src/jpeg-save.c:474 | the Cb/Cr DC table covers every category, and the decoder reads it back |
| StdTables.ChrominanceAc | src/jpeg-save.c:476 | the Cb/Cr AC table covers every AC symbol, and the decoder reads it back |
| StdTables.StdBlockRoundTrip | src/jpeg-save.c:722-756 | every block process_DU codes with the standard luminance or chrominance tables, its AC coefficients in categories 0 to 10, decodes back to itself with the tables the decoder builds from DHT |
| Coding.MagnitudeBounds | src/jpeg-save.c:487-505 | a magnitude of category c lies in [2^(c-1), 2^c) |
| Coding.MagnitudeUnique | src/jpeg-save.c:487-505 | the category is the only c with 2^(c-1) <= m < 2^c |
| Coding.CategoryZero | src/jpeg-save.c:727-728 | category 0 is exactly the number 0 |
| Coding.BitcodeRange | src/jpeg-save.c:487-505 | Table F.1 of ITU-T T.81: for n != 0, 2^(c-1) <= abs(n) < 2^c; the extra bits fit in c bits, at least 2^(c-1) for positive n and below it for negative n |
| Coding.ExtendBitcode | src/jpeg-load.c:672 | DetermineSign (EXTEND, section F.2.2.1 of ITU-T T.81) maps the encoder's extra bits back to n |
| Coding.BitcodeExtend | src/jpeg-load.c:672 | every t-bit value v is the extra bits of DetermineSign(v, t), which has category t |
| Coding.CategoryBound | src/jpeg-save.c:487 | numbers the 16-bit tables cover have category at most 15 |
| Coding.SetNumbersCategoryAndBitcode | src/jpeg-save.c:479-506 | afterwards entry n holds the category of n and its bitcode for every n in -32767..32767 except 0; entry 0 keeps its zero |
| Coding.FillPositive | src/jpeg-save.c:490-495 | the positive numbers of category cat get their category and value nr |
| Coding.FillNegative | src/jpeg-save.c:497-502 | the negative numbers of category cat get their category and value nrupper - 1 + nr |
| BitReader.Destuff | src/jpeg-load.c:601-613 | the reader delivers at most the bytes it is given |
| BitReader.DestuffStep | src/jpeg-load.c:605-609 | taking one byte, and the 0x00 stuffed after a 0xFF, peels one byte off the destuffed stream |
| BitReader.LoadByte | src/jpeg-load.c:606-610 | loading a byte moves its bits, most significant first, from the buffer into the reservoir |
| BitReader.Reservoir.constructor | src/jpeg-load.c:924-925 | the reset reservoir's view is the destuffed bits of the scan |
| BitReader.Reservoir.Fill | src/jpeg-load.c:601-613 | FillNBits keeps the bit stream, holds at least n bits afterwards, and fails exactly when fewer than n bits remain |
| BitReader.Reservoir.LoadOne | src/jpeg-load.c:604-611 | one load moves eight more bits into the reservoir without changing the stream |
| BitReader.Reservoir.Shift | src/jpeg-load.c:615-619 | shift_bits drops the first n bits held and keeps the reservoir below 2^nbits |
| BitReader.Reservoir.Look | src/jpeg-load.c:629-633 | LookNBits returns the next n bits, most significant first, without consuming them |
| BitReader.Reservoir.Get | src/jpeg-load.c:621-627 | GetNBits returns the same value as LookNBits and consumes those n bits |
| BitReader.Reservoir.Skip | src/jpeg-load.c:636-640 | SkipNBits consumes the next n bits |
| BitWriter.StuffAppend | src/jpeg-save.c:448-454 | each completed byte is written as itself, or as 0xFF 0x00 when it is 0xFF |
| BitWriter.DestuffStuff | src/jpeg-save.c:448-454 | the decoder's destuffing undoes the encoder's stuffing, whatever follows |
| BitWriter.StuffHasNoMarker | src/jpeg-save.c:448-454 | stuffed data never holds a marker: every 0xFF is followed by 0x00 |
| BitWriter.OnesBits | src/jpeg-save.c:846-847 | the fill value (1 << n) - 1 in n bits is n one bits |
| BitWriter.PackBytes | src/jpeg-save.c:437-459 | the completed bytes of a run are its bits packed eight at a time |
| BitWriter.CompletingBit | src/jpeg-save.c:446-456 | the eighth bit completes bytenew, which is written stuffed, and a new byte begins at bytepos 7 |
| BitWriter.PendingBit | src/jpeg-save.c:442-445 | any other bit is set in bytenew at bytepos, and bytepos decreases |
| BitWriter.Writer.constructor | src/jpeg-save.c:256-257 | an empty file with bytenew 0 and bytepos 7 |
| BitWriter.Writer.WriteByte | src/jpeg-save.c:143 | writebyte appends one byte and leaves the bit state alone |
| BitWriter.Writer.WriteWord | src/jpeg-save.c:144 | writeword appends its high byte, then its low byte |
| BitWriter.Writer.StartRun | src/jpeg-save.c:840-841 | bytenew = 0 and bytepos = 7 start a new run of bits |
| BitWriter.Writer.WriteBits | src/jpeg-save.c:437-459 | writebits appends the length low bits of value, most significant first, with bytepos kept in 0..7 |
| BitWriter.Writer.PutBit | src/jpeg-save.c:442-456 | one pass of writebits' loop appends one bit |
| BitWriter.Writer.Align | src/jpeg-save.c:844-849 | the EOI alignment appends bytepos + 1 one bits, after which the run is complete bytes |
| BlockCode.DcCodes | src/jpeg-save.c:722-731 | the DC codes exist iff the difference is 0, or neither -32768 nor of category 12 or more; they start with the category's code |
| BlockCode.End0 | src/jpeg-save.c:733 | end0pos is the last nonzero index in 1..63, or 0 |
| BlockCode.NextNonzero | src/jpeg-save.c:743 | the zero-skipping loop stops at the first nonzero coefficient |
| BlockCode.AcCodes | src/jpeg-save.c:741-754 | coding of the AC runs fails only on a coefficient -32768 |
| BlockCode.AcPass | src/jpeg-save.c:733-756 | the AC part fails only on a coefficient -32768 |
| BlockCode.EncodeBlockOk | src/jpeg-save.c:722-756 | a block codes iff its DC difference and every AC coefficient have codes |
| BlockCode.AcCodesFrom | src/jpeg-save.c:741-754 | every code written is a table entry or a coefficient's bitcode |
| BlockCode.EncodeBlockLengths | src/jpeg-save.c:722-756 | every code written is at most 16 bits long when the tables' are, as writebits' mask requires |
| BlockCode.DecodeDc | src/jpeg-load.c:707-743 | the DC part of the decoder consumes at least one bit |
| BlockCode.DcExtra | src/jpeg-load.c:721-738 | the DC extra bits consume no more than the bits given |
| BlockCode.AcSize | src/jpeg-load.c:780 | size_val is the low nibble of the symbol |
| BlockCode.AcRun | src/jpeg-load.c:781 | count_0 is the high nibble, as a uint8_t |
| BlockCode.DecodeAc | src/jpeg-load.c:755-818 | the AC loop yields 64 coefficients and consumes no more than the bits given |
| BlockCode.DecodeBlock | src/jpeg-load.c:676-822 | ProcessHuffmanDataUnit yields 64 coefficients and consumes at least one bit |
| BlockCode.ExtendFits | src/jpeg-load.c:807-809 | every decoded value fits an int16_t |
| BlockCode.Wrap16Inverse | src/jpeg-save.c:722-723 | the int16_t difference plus the predictor gives the coefficient back |
| BlockCode.ExtraBits | src/jpeg-load.c:807-808 | the extra bits of n read back, through DetermineSign, as n |
| BlockCode.DcRoundTrip | src/jpeg-save.c:722-731 | the DC codes decode to the block's first coefficient, which becomes the predictor |
| BlockCode.RunSizeParts | src/jpeg-save.c:752 | a run/size symbol splits back into its run and its category |
| BlockCode.ZrlRoundTrip | src/jpeg-save.c:746-750 | m ZRL codes move the decoder 16 m coefficients on and store nothing |
| BlockCode.ValueRoundTrip | src/jpeg-save.c:742-753 | the codes of one nonzero coefficient after its zero run decode to it, at its position |
| BlockCode.AcRoundTrip | src/jpeg-save.c:741-754 | the AC codes of coefficients i..end0pos decode to those coefficients |
| BlockCode.EndRoundTrip | src/jpeg-save.c:755-756 | EOB, or nothing when coefficient 63 is nonzero, ends the block with every coefficient in place |
| BlockCode.AcPassRoundTrip | src/jpeg-save.c:733-756 | the AC pass decodes to the whole block from coefficient 1 on |
| BlockCode.DecodeBlockSteps | src/jpeg-load.c:676-822 | ProcessHuffmanDataUnit is its DC part followed by its AC part |
| BlockCode.BlockRoundTrip | src/jpeg-save.c:722-756 | decoding what process_DU wrote for a block whose AC coefficients are in categories 0 to 10, whatever follows, gives back the block, moves the predictor exactly as the encoder's *DC, and leaves what follows |
| JpegParse.Zeroed | src/jpeg-load.c:995 | `stJpegData jdec = { 0x0 }` is a well-formed decoder state |
| JpegParse.Be16 | src/jpeg-load.c:37 | BYTE_TO_WORD reads a 16-bit big-endian word |
| JpegParse.ParseSof | src/jpeg-load.c:295-332 | ParseSOF leaves a well-formed state with height and width read big-endian at offsets 3 and 5 and H the high, V the low nibble |
| JpegParse.ParseDqt | src/jpeg-load.c:345-384 | ParseDQT fails on precision != 0 or index >= 4, and otherwise leaves a well-formed state |
| JpegParse.UsedBuilt | src/jpeg-load.c:273-291 | the blocks in use of a built table are the canonical blocks of its histogram and symbols |
| JpegParse.BuiltTable | src/jpeg-load.c:273-291 | what BuildHuffmanTable promises determines its table |
| JpegParse.Histogram | src/jpeg-load.c:460-466 | huff_bits[0] is 0, followed by the 16 counts |
| JpegParse.DhtTable | src/jpeg-load.c:457-493 | one DHT table: fails on a count over 256 or an index >= 4, otherwise leaves well-formed tables and takes at least 17 bytes |
| JpegParse.ParseDht | src/jpeg-load.c:437-496 | ParseDHT leaves a well-formed state |
| JpegParse.ParseSos | src/jpeg-load.c:388-433 | ParseSOS fails unless there are exactly three components with table selectors below 4, binding DC tables to the high nibble and AC tables to the low nibble |
| JpegParse.FillEnd | src/jpeg-load.c:514-515 | the fill-byte skip stops at the first byte other than 0xFF |
| JpegParse.SegmentPass | src/jpeg-load.c:510-563 | one segment: not starting with 0xFF is fatal; a pass that goes on moves forward |
| JpegParse.Segments | src/jpeg-load.c:508-571 | ParseJFIF stops after SOS and fails unless a DHT was seen |
| JpegParse.ParseHeader | src/jpeg-load.c:583-593 | JpegParseHeader fails unless the file starts FF D8, and leaves a well-formed state |
| JpegParse.JpegData.constructor | src/jpeg-load.c:995 | the decoder state starts zeroed |
| JpegParse.JpegData.ParseSOF | src/jpeg-load.c:295-332 | the method's outcome and new state are those of ParseSof |
| JpegParse.JpegData.ParseDQT | src/jpeg-load.c:345-384 | the method's outcome and new state are those of ParseDqt |
| JpegParse.JpegData.ParseDHT | src/jpeg-load.c:437-496 | the method's outcome and new state are those of ParseDht |
| JpegParse.JpegData.ParseSOS | src/jpeg-load.c:388-433 | the method's outcome and new state are those of ParseSos |
| JpegParse.JpegData.ParseSegment | src/jpeg-load.c:510-563 | one pass of ParseJFIF's loop does what SegmentPass specifies |
| JpegParse.JpegData.ParseJFIF | src/jpeg-load.c:500-579 | the method's outcome and new state are those of Segments |
| JpegParse.JpegData.JpegParseHeader | src/jpeg-load.c:583-593 | the method's outcome and new state are those of ParseHeader |
| JpegParse.ReadSofComponents | src/jpeg-load.c:317-327 | ParseSOF's component loop computes SofComponents |
| JpegParse.ReadDqtTables | src/jpeg-load.c:353-382 | ParseDQT's table loop computes DqtTables |
| JpegParse.ReadDhtTables | src/jpeg-load.c:456-494 | ParseDHT's table loop computes DhtTables |
| JpegParse.ReadDhtTable | src/jpeg-load.c:457-493 | one pass of ParseDHT's loop computes DhtTable |
| JpegParse.NextDhtTable | src/jpeg-load.c:456-494 | one pass of ParseDHT's loop either ends it with the failure DhtTables gives, or shortens the segment and leaves DhtTables of the rest equal to that of the whole |
| JpegParse.ReadSosBindings | src/jpeg-load.c:412-429 | ParseSOS's component loop computes SosBindings |
| JpegParse.SkipFill | src/jpeg-load.c:514-515 | the fill loop stops at FillEnd |
| JpegParse.BuildQuantizationTable | src/jpeg-load.c:336-341 | the 64 entries are copied in the order they are stored |
| JpegParse.HuffBits | src/jpeg-load.c:460-466 | the counts loop reads the histogram and its total |
| JpegParse.CopyValues | src/jpeg-load.c:479-481 | the symbol loop copies count symbols into the front of m_hufVal |
| JpegParse.FillTable | src/jpeg-load.c:482 | BuildHuffmanTable on the histogram just read builds the specified table |
| JpegLoad.IsInHuffmanCodes | src/jpeg-load.c:644-659 | true iff some block among the first numBlocks matches both code and length, returning the first such block's value |
| JpegLoad.SearchCode | src/jpeg-load.c:707-713 | the decoder's code search does what FindCode specifies, consuming exactly the code's bits |
| JpegLoad.DecodeDcPart | src/jpeg-load.c:707-750 | the DC half does what DecodeDc specifies: DCT_tcoeff[0] is previousDC plus the extended difference, with previousDC unchanged for category 0 |
| JpegLoad.DecodeAcPart | src/jpeg-load.c:755-818 | the AC half does what DecodeAc specifies: EOB ends, ZRL skips 16, other symbols skip their run and store an extended value, a position past 63 is fatal |
| JpegLoad.ProcessHuffmanDataUnit | src/jpeg-load.c:676-822 | ProcessHuffmanDataUnit does what DecodeBlock specifies, on the reservoir's bits |
| JpegLoad.Extractor.constructor | src/jpeg.c:58 | the message and the extraction statics start as `{ 0x00, NULL }`, offset 0, bit 1, aloc false |
| JpegLoad.Extractor.Step | src/jpeg-load.c:214-230 | one eligible coefficient ORs its lowest bit into the current byte and moves on, allocating once the length is complete |
| JpegLoad.Extractor.Allocate | src/jpeg-load.c:224-229 | message->size becomes ntohll of the length bytes, and message->size + 8 zeroed bytes are allocated |
| JpegLoad.Extractor.Extract | src/jpeg-load.c:208-236 | FIND: the loop reads the block's eligible bits until offset reaches size + 8; READ: it adds the number of coefficients above 1 to message->size |
| JpegLoad.DeZigZag | src/jpeg-load.c:174-178 | DeZigZag computes Gathered |
| JpegLoad.TransformArray | src/jpeg-load.c:182-187 | the 64 entries go row by row into the 8x8 array |
| Stego.LowBitsStep | src/jpeg-load.c:216-217 | ORing bit k into a byte's low k bits gives its low k + 1 bits |
| Stego.StreamAt | src/jpeg-save.c:707 | message bit n is `data[n / 8] & (1 << n % 8)`: least significant bit first |
| Stego.StreamPrefix | src/jpeg-save.c:704 | the stream of the first n bytes is the first 8 n bits of the stream |
| Stego.SetLsb | src/jpeg-save.c:708-711 | setting the lowest bit of a coefficient above 1 keeps it above 1, and keeps it an int16_t |
| Stego.EmbedFrom | src/jpeg-save.c:704-720 | the embedding keeps the block's size and never moves the bit count back |
| Stego.EmbedKeeps | src/jpeg-save.c:704-720 | embedding changes only the lowest bit of coefficients above 1, which stay above 1, so the decoder's `data[i] > 1` picks the same coefficients |
| Stego.EmbedLsbs | src/jpeg-save.c:704-720 | the embedded block carries the next message bits, then what it carried before; it stops short of the block only when the message is exhausted |
| Stego.EligibleHead | src/jpeg-load.c:208-209 | a coefficient above 1 carries its lowest bit |
| Stego.EligibleSkip | src/jpeg-load.c:208-209 | a coefficient of at most 1 carries nothing |
| Stego.EmbedBlocks | src/jpeg-save.c:704-720 | embedding block after block keeps every block's size |
| Stego.EmbedBlocksLsbs | src/jpeg-save.c:704-720 | after embedding a run of blocks from message bit pos, their eligible coefficients carry the message bits from pos on and then their own remaining bits; fewer bits than coefficients are used only once the message is exhausted |
| Stego.EmbedBlocksEligible | src/jpeg-save.c:704-720 | embedding leaves every block's eligible coefficients where they were |
| Stego.FinderStart | src/jpeg-load.c:204-206 | the extraction starts valid and not done |
| Stego.Advance | src/jpeg-load.c:218-223 | one bit moves bit on, and offset when bit wraps, without touching the rest |
| Stego.Allocate | src/jpeg-load.c:224-229 | the allocation keeps the extraction state valid |
| Stego.FindBitsDone | src/jpeg-load.c:208 | once offset reaches size + 8, extraction reads nothing more |
| Stego.FindBitsAppend | src/jpeg-load.c:208-236 | extraction over two runs of bits is extraction over the first, then the second |
| Stego.FindFromBits | src/jpeg-load.c:208-236 | the block loop reads exactly the bits the block's eligible coefficients carry |
| Stego.FindBlocksBits | src/jpeg-load.c:208-236 | extraction block after block reads the concatenated eligible bits |
| Stego.FindOneAlloc | src/jpeg-load.c:224-229 | the last length bit completes message->size and allocates L + 8 zeroed bytes |
| Stego.FindPrefix | src/jpeg-load.c:208-236 | after the first 8 q + k message bits, the decoder holds exactly the bytes built so far |
| Stego.FindMessage | src/jpeg-load.c:208-236 | from bits starting with a whole message, the decoder reads the big-endian length L, allocates L + 8 bytes, fills them and then stops, whatever follows |
| Stego.StegoRoundTrip | src/jpeg-save.c:704-720 | with at least 8 (L + 8) eligible coefficients for a message declaring L, extraction after embedding gives back exactly the message's L + 8 bytes |
| Stego.CountFrom | src/jpeg-load.c:232-234 | READ mode counts exactly the coefficients above 1 |
| JpegDecoder.ScanBits | src/jpeg-load.c:431 | the scan's bits are the destuffed bytes from m_stream on |
| JpegDecoder.UnitTables | src/jpeg-load.c:428-429 | a component's tables are those its SOS selectors named; a component no selector named is refused |
| JpegDecoder.DecodeUnit | src/jpeg-load.c:676-822 | a data unit that decodes leaves a well-formed state |
| JpegDecoder.ResetDC | src/jpeg-load.c:940-943 | JpegDecode resets every m_previousDC to 0 and changes nothing else |
| JpegDecoder.DecodeUnitGrows | src/jpeg-load.c:676-822 | a data unit changes only its component's m_previousDC and adds one block of 64 coefficients |
| JpegDecoder.DecodeScanGrows | src/jpeg-load.c:953-967 | a scan of y rows of cols MCUs adds y * cols * (hFactor * vFactor + 2) blocks and changes only the m_previousDC values |
| JpegDecoder.DecodeGrows | src/jpeg-load.c:922-970 | a decoded image is McuCount MCUs of hFactor * vFactor + 2 blocks of 64 coefficients |
| JpegDecoder.DecodeDataShape | src/jpeg-load.c:982-1023 | what jpeg_decode_data reports is the header's width and height, and its blocks are as many as the MCUs require |
| JpegDecoder.McuRowStopped | src/jpeg-load.c:955-966 | an MCU that fails ends the row with that failure |
| JpegDecoder.ScanStopped | src/jpeg-load.c:953-967 | a row of MCUs that fails ends the scan with that failure |
| JpegDecoder.StridesBelow | src/jpeg-load.c:953-955 | the loop `v < a; v += s` runs Strides(a, s) times |
| JpegDecoder.ExtractedSnoc | src/jpeg-load.c:208-236 | extraction after one more unit is the extraction loop run on that unit |
| JpegDecoder.DecodeDataUnit | src/jpeg-load.c:907-908 | ProcessHuffmanDataUnit, then DecodeSingleBlock's extraction, as DecodeUnit and Extracted specify |
| JpegDecoder.DecodeLumaUnits | src/jpeg-load.c:902-909 | the w units of Y of one MCU row, as specified |
| JpegDecoder.DecodeMcu | src/jpeg-load.c:899-918 | DecodeMCU decodes h rows of w units of Y, then one of Cb and one of Cr |
| JpegDecoder.NextMcu | src/jpeg-load.c:955-960 | one pass of the inner loop decodes the next MCU of the row, or stops with its failure |
| JpegDecoder.DecodeRow | src/jpeg-load.c:955-966 | the inner loop of JpegDecode decodes Across(width, hFactor) MCUs |
| JpegDecoder.NextRow | src/jpeg-load.c:953-967 | one pass of the outer loop decodes the next row of MCUs, or stops with its failure |
| JpegDecoder.DecodeRows | src/jpeg-load.c:953-967 | the outer loop of JpegDecode decodes Across(height, vFactor) rows of MCUs |
| JpegDecoder.JpegDecode | src/jpeg-load.c:922-970 | JpegDecode resets the reservoir and the predictors, decodes the scan and extracts the message as Decode specifies; a zero sampling factor of Y is the division by zero of the output array's sizing |
| JpegDecoder.JpegDecodeData | src/jpeg-load.c:982-1023 | jpeg_decode_data does what DecodeData specifies, and the extraction ends as Extracted specifies for the decoded units |
| JpegSave.ByteLimit | src/jpeg-save.c:352 | byte_limit clamps into lo..255 |
| JpegSave.QuantEntryRange | src/jpeg-save.c:352 | each entry fits a byte, and with scalefactor 1 every Annex K.1 entry gives 1 |
| JpegSave.SetQuantTable | src/jpeg-save.c:350-352 | entry zigzag[i] is byte_limit((base[i] * scale + 50) / 100, 1) |
| JpegSave.UnitQt | src/jpeg-save.c:354-366 | the scalefactor-1 table is 1 everywhere |
| JpegSave.UnitTable | src/jpeg-save.c:350-352 | a zig-zag ordered scalefactor-1 table over an Annex K.1 base is all ones |
| JpegSave.SetDQTinfo | src/jpeg-save.c:354-366 | with scalefactor 1 both tables hold 1 in every entry |
| JpegSave.DcShort | src/jpeg-save.c:471-477 | the DC tables' codes are at most 16 bits |
| JpegSave.AcShort | src/jpeg-save.c:471-477 | the AC tables' codes are at most 16 bits |
| JpegSave.ComputeDcTable | src/jpeg-save.c:461-469 | compute_Huffman_table on a zeroed DC table computes DcTable |
| JpegSave.ComputeAcTable | src/jpeg-save.c:461-469 | compute_Huffman_table on a zeroed AC table computes AcTable |
| JpegSave.EncoderSources | src/jpeg-save.c:188-246 | the standard histograms count 12 DC and 162 AC codes over byte-sized symbols |
| JpegSave.InitHuffmanTables | src/jpeg-save.c:471-477 | init_Huffman_tables computes the four standard tables |
| JpegSave.StdSpecs | src/jpeg-save.c:394-418 | DHTinfo holds four tables |
| JpegSave.CopyCounts | src/jpeg-save.c:399-400 | nrcodes[i] = std_nrcodes[i + 1] for i below 16 |
| JpegSave.CopyValues | src/jpeg-save.c:401-402 | values[i] = std_values[i] for every symbol |
| JpegSave.SetDHTinfo | src/jpeg-save.c:394-418 | the four standard tables with their class and number: Y DC 0, Y AC 0x10, Cb DC 1, Cb AC 0x11 |
| JpegSave.App0Length | src/jpeg-save.c:44 | APP0 is 18 bytes and its length field counts the bytes after the marker |
| JpegSave.Sof0Length | src/jpeg-save.c:65 | SOF0 is 19 bytes and its length field 17 is right |
| JpegSave.DqtLength | src/jpeg-save.c:354-366 | DQT is 134 bytes and its length field 132 is right |
| JpegSave.DhtLength | src/jpeg-save.c:394-418 | DHT is 420 bytes and its length field 0x1A2 is right |
| JpegSave.SosLength | src/jpeg-save.c:124 | SOS is 14 bytes and its length field 12 is right |
| JpegSave.ScatteredBlock | src/jpeg-save.c:698-699 | the scatter of a natural-order int16_t block is a block process_DU codes |
| JpegSave.EmbeddedBlock | src/jpeg-save.c:704-720 | the embedding keeps every coefficient an int16_t and keeps its category |
| JpegSave.SameCategory | src/jpeg-save.c:708-711 | two coefficients above 1 that differ only in their lowest bit have one category |
| JpegSave.CodeUnit | src/jpeg-save.c:690-757 | process_DU yields a codable block and never moves the message position back |
| JpegSave.StdHuffTables | src/jpeg-save.c:262-265 | the encoder's four tables have 12 and 256 entries |
| JpegSave.McuCode | src/jpeg-save.c:787-789 | the three process_DU calls of one MCU yield three blocks and keep the state well-formed |
| JpegSave.Scan | src/jpeg-save.c:780-791 | main_encoder yields three blocks per MCU and never moves the message position back |
| JpegSave.ScanNext | src/jpeg-save.c:782-789 | the scan of k + 1 MCUs is the scan of the first k, then MCU k's blocks |
| JpegSave.ScanStopped | src/jpeg-save.c:780-791 | once a prefix of the MCUs fails to code, the whole scan fails |
| JpegSave.InitAll | src/jpeg-save.c:793-801 | init_all yields the all-ones quantisation tables, DHTinfo and the four standard Huffman tables |
| JpegSave.Scatter | src/jpeg-save.c:698-699 | the zig-zag reorder computes Scattered |
| JpegSave.Encoder.constructor | src/jpeg-save.c:702-703 | the message statics start at offset 0 and bit 1 |
| JpegSave.Encoder.EmbedDU | src/jpeg-save.c:702-720 | the embedding loop does what EmbedFrom specifies, block and message position |
| JpegSave.EmbedTakes | src/jpeg-save.c:705-716 | a coefficient above 1 takes the next message bit |
| JpegSave.EmbedSkips | src/jpeg-save.c:705 | a coefficient of 1 or less is passed over |
| JpegSave.CodeDc | src/jpeg-save.c:722-731 | the DC coding writes what DcCodes specifies, and fails iff it has no code |
| JpegSave.CodeAc | src/jpeg-save.c:733-756 | the AC coding writes what AcPass specifies, and fails iff it has no code |
| JpegSave.CodeRuns | src/jpeg-save.c:741-754 | the AC loop up to end0pos writes the codes AcCodes specifies, and fails iff AcCodes does |
| JpegSave.CodeRunStep | src/jpeg-save.c:743-753 | one pass of the AC loop moves i past the next nonzero coefficient and extends the written bits by its codes, or fails only where AcCodes fails |
| JpegSave.CodeRun | src/jpeg-save.c:741-754 | one pass of the AC loop writes the ZRLs, the run/size code and the extra bits of the next nonzero coefficient |
| JpegSave.WritePair | src/jpeg-save.c:729-730 | two writebits calls append a code and the extra bits after it |
| JpegSave.Zrls | src/jpeg-save.c:746-750 | the ZRL loop appends n M16zeroes codes |
| JpegSave.ProcessDU | src/jpeg-save.c:690-757 | process_DU writes what CodeUnit specifies and moves the predictor to DU[0], or reports the value it cannot code |
| JpegSave.CodeUnitParts | src/jpeg-save.c:698-731 | process_DU codes the embedded block, and the embedding moves the message position |
| JpegSave.EncodeBlockSplit | src/jpeg-save.c:722-756 | a block codes when its DC and AC parts code, to the DC codes then the AC codes |
| JpegSave.EncodeMcu | src/jpeg-save.c:787-789 | the three process_DU calls with DCY, DCCb and DCCr write what McuCode specifies |
| JpegSave.NextMcu | src/jpeg-save.c:784-789 | one pass of the inner loop extends the scan by one MCU, or stops it |
| JpegSave.EncodeRow | src/jpeg-save.c:784-789 | one row of MCUs extends the scan by cols MCUs, or stops it |
| JpegSave.MainEncoder | src/jpeg-save.c:780-791 | main_encoder writes the scan of every MCU in raster order with all predictors starting at 0, or reports the failure |
| JpegSave.RunAdvance | src/jpeg-save.c:741-754 | after one pass of the AC loop, the codes still to come are those from the next coefficient on |
| JpegSave.Pad8Least | src/jpeg-save.c:813-814 | the padded dimension is the least multiple of 8 not below x, except that the uint32_t sum wraps to 0 above 0xFFFFFFF8 |
| JpegSave.Aligned | src/jpeg-save.c:844-849 | the scan's bits are followed by one bits up to the next byte boundary, with at least one fill bit |
| JpegSave.WriteBytes | src/jpeg-save.c:340-346 | every byte of a table goes out through writebyte |
| JpegSave.WriteApp0 | src/jpeg-save.c:301-315 | write_APP0info appends APP0 |
| JpegSave.WriteSof0 | src/jpeg-save.c:317-335 | write_SOF0info appends SOF0 with the width and height as uint16_t |
| JpegSave.WriteDqt | src/jpeg-save.c:337-347 | write_DQTinfo appends DQT |
| JpegSave.WriteSpec | src/jpeg-save.c:372-376 | one table of write_DHTinfo appends class and number, counts and symbols |
| JpegSave.WriteDht | src/jpeg-save.c:368-392 | write_DHTinfo appends DHT |
| JpegSave.WriteSos | src/jpeg-save.c:420-435 | write_SOSinfo appends SOS |
| JpegSave.WriteHeader | src/jpeg-save.c:832-839 | the header is SOI, APP0, DQT, SOF0, DHT, SOS in that order |
| JpegSave.JpegEncodeData | src/jpeg-save.c:804-852 | the file is the header, the stuffed bytes of the scan with its alignment, and EOI; failure means some value has no code |
| JpegSave.StartFile | src/jpeg-save.c:828-839 | up to the scan, the file holds exactly the header |
| JpegSave.EncodeScan | src/jpeg-save.c:840-850 | the scan with every predictor at 0 and the message from its start, its alignment, stuffed, and EOI |
| JpegSave.AlignedLength | src/jpeg-save.c:844-849 | before the alignment, bytepos + 1 bits are missing from the last byte |
| HeaderRoundTrip.Be16Word | src/jpeg-load.c:37 | BYTE_TO_WORD reads back what writeword wrote |
| HeaderRoundTrip.MarkerWord | src/jpeg-save.c:144 | a marker written as a word is 0xFF, then its code |
| HeaderRoundTrip.SegmentStart | src/jpeg-load.c:510-518 | a segment written with marker m and length len is found by ParseJFIF, which reads that length |
| HeaderRoundTrip.App0Pass | src/jpeg-load.c:557-558 | ParseJFIF skips the encoder's APP0 |
| HeaderRoundTrip.DqtPass | src/jpeg-load.c:345-384 | ParseDQT on the encoder's DQT loads tables 0 and 1 |
| HeaderRoundTrip.SofComponentsStd | src/jpeg-load.c:317-327 | ParseSOF reads the encoder's three components' sampling factors |
| HeaderRoundTrip.SosBindingsStd | src/jpeg-load.c:412-429 | ParseSOS binds the encoder's three components to its tables |
| HeaderRoundTrip.Sof0Pass | src/jpeg-load.c:295-332 | ParseSOF on the encoder's SOF0 reads back the width and height |
| HeaderRoundTrip.SosPass | src/jpeg-load.c:388-433 | ParseSOS on the encoder's SOS binds the components and starts the scan after it |
| HeaderRoundTrip.HistogramOfCounts | src/jpeg-save.c:399-400 | the counts a DHT table carries read back as its histogram |
| HeaderRoundTrip.IntsOfValueBytes | src/jpeg-save.c:401-402 | the symbols a DHT table carries read back as its list |
| HeaderRoundTrip.UsedLoaded | src/jpeg-load.c:479-482 | the table ParseDHT builds decodes with the canonical blocks of its histogram and symbols |
| HeaderRoundTrip.SpecTable | src/jpeg-load.c:457-493 | one table as write_DHTinfo lays it out is read back by ParseDHT into the slot its class and number name |
| HeaderRoundTrip.DhtPieces | src/jpeg-load.c:456-494 | ParseDHT's table loop reads back any run of tables laid out as write_DHTinfo does |
| HeaderRoundTrip.StdLoaded | src/jpeg-save.c:394-418 | after DHTinfo, the decoder's tables 0 and 1 decode with the Annex K luminance and chrominance tables |
| HeaderRoundTrip.DhtPass | src/jpeg-load.c:437-496 | a DHT segment of tables loads them |
| HeaderRoundTrip.HeaderLayout | src/jpeg-save.c:832-839 | where the header puts each segment, 607 bytes in all |
| HeaderRoundTrip.EncodedHeaderParses | src/jpeg-load.c:583-593 | JpegParseHeader on a file that starts with the encoder's header succeeds, reads back width and height, binds Y to tables 0 and Cb, Cr to tables 1, loads the DHT tables, and starts the scan right after the header |

## Left out

- Floating-point numerics are not modelled. This covers the IDCT, the dequantisation, the YCbCr to RGB conversion, the FDCT with its fdtbl tables, the colour tables and `load_data_units_from_RGB_buffer`. The decoder's result is the sequence of decoded zig-zag blocks. The encoder takes the quantised natural-order blocks of each MCU as the input `mcus`.
- JpegBridge.WriteJpeg and JpegSave.JpegEncodeData: the carrier picture enters as `mcus`, not as the pixels `read_jpeg` decoded, because the numerics between them are not modelled. No lemma composes a whole encoded file with the whole decoder either. Header, block and steganography round trips are each proved separately.
- JpegLoad.Extractor.Allocate, Stego.Allocate: the `calloc(message->size + 8, 1)` of src/jpeg-load.c:226 always succeeds in the model. In C it returns NULL for a large declared length, and the next eligible bit then writes through that NULL pointer; the length bytes come from the file, so any length can occur.
- BlockCode.BlockRoundTrip, StdTables.StdBlockRoundTrip: they require every AC coefficient to be in magnitude category 10 or below. For 8-bit samples the FDCT gives AC coefficients of category 10 at most (table F.2 of ITU-T T.81), and quantisation only shrinks them; the FDCT is not modelled, so the bound is a precondition. For a larger coefficient the standard AC table has no code: the encoder writes its zero-length entry, and the decoder does not read the block back.
- Output array: the RGB output buffer of the decoder, its sizing in JpegDecode (src/jpeg-load.c:933-937) and the per-row copies in `jpeg_decode_data` are not modelled. Only the division of that sizing is: a zero sampling factor of Y is the error DivisionByZero.
- File and memory-map I/O are parameters: the contents of the files, and whether `open`, `mmap`, `fopen` and `fread` succeed. The output file of a recovery is taken to hold `file` before `ftruncate`.
- The restart-interval resync of ProcessHuffmanDataUnit (src/jpeg-load.c:691-703, 727-733) is not modelled. DRI is parsed and its interval stored only.
- JpegDecoder.UnitTables: a component no SOS selector named has a NULL table pointer in C, which ProcessHuffmanDataUnit would dereference; that is the error Unsupported.
- Where C reads past the end of the file buffer on a short segment or scan, the model returns the error Truncated. Where C reads outside its own tables, the model returns Unsupported. The cases are `category[-32768]`, `HTDC[12..15]` and a component identifier of 4 or more.
- BlockCode.DecodeDc: through DcExtra, refuses a DC category over 15 with Unsupported. C's GetNBits (src/jpeg-load.c:621-627) reads that many bits from its 32-bit reservoir and truncates them to int16_t before DetermineSign, and the model does not reproduce that truncation.
- JpegDecoder.JpegDecodeData: jpeg_decode_data ends the process on every failure, so only its successful result is returned; failures are the `Died` errors of `read_jpeg`.
- The capacity query `info_jpeg` (src/jpeg.c:131-137) is not modelled; it returns `CAPACITY`, which src/jpeg.c does not define. Its READ-mode call of `read_jpeg` is modelled as JpegBridge.LoadCapacity.
- Progress callbacks (`progress_update`) have no effect on the data and are left out.
- JpegBridge.IsJpeg: on a file shorter than three bytes `is_jpeg` compares bytes `fread` did not set; the model answers false.
- JpegBridge.Deliver: in READ mode `read_jpeg` mallocs the raster and never writes its pixels; the model states only the image's dimensions then.
- JpegBridge.WriteJpeg: the product `width * bpp` of the copy loop is taken without its uint64_t overflow.
- JpegBridge.Sent: a declared length beyond the message's pixels makes the model report Overrun. In C, `process_DU` would read past `message->data` only if the carrier has enough eligible coefficients to reach that far.
- JpegSave.ByteLimit: `byte_limit` comes from common/common.h, which is not part of this model; it is defined as a clamp into lo..255.
- LsbEngine.ExtractMessage: in a raster narrower than eight pixels C writes through a NULL mapping. The model reports NullMapWrite and does not model the crash. Whether `mmap` succeeds is the free parameter mapOk, so the model also admits the successful mapping of 0 bytes that Linux refuses.
- Plugin discovery and dispatch (`scandir`, `dlopen`, `dlsym`) and the argument handling of each `main` are not modelled. The exception is the capacity check before hiding, modelled as LsbEngine.Store and LsbEngine.DataInfo.WillFit.
- The image wrappers src/png.c, png.c, src/tiff.c, tiff.c, src/webp.c and src/bmp.c, the root jpeg.c scanner and src/common/cli.c are not part of this model.

## Findings

| source | as written | input that shows it | evidently intended | confidence | as-written member | corrected member |
|---|---|---|---|---|---|---|
| src/jpeg.c:69 | READ mode reports `msg.size - 8` as the capacity in bytes, where msg.size counts eligible coefficients | a carrier with n = 1000 eligible coefficients reports 992 bytes, but write_jpeg spends 8 coefficients per message byte, so a message of 992 bytes plus its 8 length bytes needs 8000 | the capacity n / 8 - 8 | not executed | JpegBridge.CapacityOverstated | JpegBridge.ByteCapacity |
