# A verified model of the bitstream parser and the window resampler

This project models two parts of the repository and proves what they promise.

- The coded-bitstream parser under `cbs/`: the bit reader and its variable-length codes; NAL unit splitting and
  de-escaping for H.264 and H.265; SEI message framing; and for AV1 the OBU splitter, reference selection, tile
  geometry, skip mode, and the state machine of frame headers and tile groups.
- The window resampler of `av/sample_window.go`: which samples are written, the filter spans, the two-pass
  separable filter, its threads, and the point and area kernels. Doubles are modelled as reals.

Code that changes state step by step is modelled by classes and methods with loops, each proved against a
specification function or relation; what the code promises is then proved about that specification. Parsing
errors, which the program raises as panics and recovers per unit, are results; the state reached so far is kept.

## Modules

| module | subject |
|---|---|
| Common, Powers, Bits, Fields | fixed-width integers, shifts, bit strings, plain header fields |
| BitReading, ExpGolomb, Av1Codes, Subexp, Leb128 | the bit reader and every variable-length code, each with a writer |
| Rbsp, Escape, NalSplit, AnnexB | de-escaping, the NAL splitter, and round trips through it |
| Sei, SeiWrite | SEI messages, their list, and round trips up to a whole byte stream |
| ObuSplit, ObuWrite, Trailing | the OBU splitter, its inverse, trailing bits and padding |
| OrderHints, FrameRefs, SkipMode, TileInfo, TileWrite | order hints, section 7.8, skip mode and section 5.9.15 of AV1 |
| Av1State, Av1Header, Av1Context, Av1Units | the state kept between OBUs, what the bits of headers say, the class that reads them, and whole units and packets |
| HeaderWrite, FrameWrite | writers of frame headers, tile groups and frame OBUs, and their round trips |
| Kernels, Spans, Coverage, Direct, Separable, Threads, Area | the resampler |

## Reading notes

- Each entry of the escape list is the index of the second of two zero bytes (`cbs/h2645.go:34-35`, `:72`). The
  comment at `cbs/unit.go:52-54` says otherwise; the model follows the code.
- The fast scan does not stop at 00 00 02 and the slow loop does. `Rbsp.ConsumedIsFirstStartCode` states exactly
  on which inputs this matters: when a 00 00 02 lies between the first 00 00 03 and the first start code.
- `readNs` asks for the long code word even when the short one follows (`cbs/av1.go:100`); `Av1Codes.ReadNs` and
  `Subexp.ReadSubexp` fail exactly then.
- `peek` is bounded by the data and not by the end of a sub-reader; only the callers look at the end.
- A bitwise or of disjoint bit ranges is written as a sum, and a mask of low bits as a remainder;
  `OrderHints.MaskBits` proves the correspondence for the masks of order hints.
- Runs of AV1 frame-header fields that change nothing in the model are read by a `Gap`: an arbitrary function that
  fails or moves the position forward inside the data. The results hold for every such function.
- Some lemmas start with a `hide` statement. It only keeps definitions the proof does not need away from the
  verifier.

## Model

| member | source | states |
|---|---|---|
| BitReading.BitReader.Peek | cbs/bitreader.go:34-53 | peek returns the big-endian value of the n bits at a position, with zeros past the end of the data |
| BitReading.BitReader.GetBits | cbs/bitreader.go:56-60 | reads that value and moves on by n bits, whatever the end says |
| BitReading.BitReader.GetSBits | cbs/bitreader.go:66-70 | the same bits as a two's complement number of n bits |
| ExpGolomb.ReadUnsigned | cbs/reader.go:140-154 | fails without reading when fewer bits are left than asked for; otherwise consumes them, and fails again when the value is out of range |
| ExpGolomb.ReadSigned | cbs/reader.go:157-171 | the same for signed fields |
| ExpGolomb.ReadUEGolomb | cbs/reader.go:174-203 | succeeds exactly when a code word of section 9.1 of H.264 is there, and returns its number and end position |
| ExpGolomb.ReadSEGolomb | cbs/reader.go:206-241 | returns the signed value that section 9.1.1 gives to that code number |
| ExpGolomb.ReadUvlc | cbs/av1.go:19-65 | counting zeros bit by bit parses the same code words, and refuses 32 zeros |
| ExpGolomb.FastAndSlowReadersAgree | cbs/reader.go:174-203 | on every reader state the peek-and-logarithm reader and the bit-by-bit reader return the same result and position; they succeed exactly when the code word of a number in range is there |
| ExpGolomb.ParseGolombExact | cbs/reader.go:174-203 | the code is a bijection: number v is read exactly when the code word of v, for v up to 2^32-2, stands at the position and ends before the end |
| ExpGolomb.SignedMappingBijective | cbs/reader.go:206-241 | the signed mapping and its inverse determine each other |
| Av1Codes.ReadIncrement | cbs/av1.go:126-145 | adds the number of leading ones, at most to the maximum, and fails only when the bits end first |
| Av1Codes.IncrementExact | cbs/av1.go:126-145 | k is counted exactly when its code word, written by a writer, is there |
| Av1Codes.ReadNs | cbs/av1.go:94-123 | fails exactly when fewer bits are left than the long code word has; otherwise returns the value whose code word is there and consumes just that word |
| Av1Codes.NsPrefixCode | cbs/av1.go:94-123 | ns(n) is a complete prefix code onto 0..n-1: at every position exactly one code word is shown |
| Av1Codes.NsInverts | cbs/av1.go:94-123 | reading inverts the writer of section 4.10.7 of AV1 |
| Av1Codes.ShortWordExample | cbs/av1.go:100-103 | a short code word on the last two bits, which readNs refuses |
| Subexp.ReadSubexp | cbs/av1.go:148-180 | returns the value and end position of the loop of section 5.9.28 of AV1, and succeeds exactly when enough bits are left |
| Subexp.SourceIsLoop | cbs/av1.go:148-173 | for every range of nine values and more, on every input, counting flags up to a logarithm and reading once is what the loop does, although the two split the word differently from 17 to 24 values |
| Subexp.BelowNine | cbs/av1.go:149 | below nine values it is not: the wrapped limit makes the reader take at least one bit more after a zero flag |
| Subexp.NeedsLittleMore | cbs/av1.go:148-180 | enough bits means the bits of the loop, or one more |
| Subexp.SubexpExact | cbs/av1.go:148-180 | one-to-one onto 0..n-1: v is decoded exactly when its code word is there |
| Subexp.DecodeInvertsCode | cbs/av1.go:148-180 | reading inverts a writer, value and length |
| Leb128.ReadLeb128 | cbs/av1.go:68-91 | at most eight groups of seven bits, the least significant first; refuses ended data and numbers above 32 bits |
| Leb128.LebInverts | cbs/av1.go:68-91 | reading inverts writing, for every number of groups from one to eight that holds the value |
| Leb128.LebShows | cbs/av1.go:68-91 | conversely, whatever was read is what some writer wrote, unless the eighth byte still announces another |
| Rbsp.FastScan | cbs/h2645.go:36-54 | the stride-two scan with its step back finds the first 00 00 01 or 00 00 03 and misses none |
| Rbsp.RemoveEscapes | cbs/h2645.go:56-86 | the loop that copies two bytes at a time drops exactly the 03 bytes after two zeros, records where, and stops at the first 00 00 01 or 00 00 02 |
| Rbsp.ExtractRBSP | cbs/h2645.go:36-87 | on every input: how many bytes are consumed, which stay, and which indices are recorded |
| Rbsp.ConsumedIsFirstStartCode | cbs/h2645.go:36-87 | the unit ends at the first 00 00 01 or at the end of the input if and only if no 00 00 02 lies between the first 00 00 03 and that start code |
| Rbsp.StrayExample | cbs/h2645.go:68-76 | an input with a 00 00 02 and no start code, of which only three bytes are consumed |
| Rbsp.ReinsertRebuilds | cbs/h2645.go:56-86 | on every input, putting a 03 back after each recorded index rebuilds the consumed bytes |
| Rbsp.EpbsMarkZeroPairs | cbs/h2645.go:56-86 | the indices ascend, each is the second of two zeros, and result plus indices are as many as the bytes consumed |
| Rbsp.ExtractionIsLossless | cbs/h2645.go:36-87 | both together, for what one call consumes |
| Escape.UnescapeInvertsEscape | cbs/h2645.go:56-86 | removing emulation prevention undoes inserting it |
| Escape.ExtractInvertsEscape | cbs/h2645.go:36-87 | from an escaped payload, any zeros and a start code or the end, extraction takes exactly payload and zeros |
| NalSplit.FindNextStartCode | cbs/h2645.go:92-104 | skips to the byte behind the first start code, or over everything when none is followed by another byte |
| NalSplit.GetNALSize | cbs/h2645.go:108-125 | the big-endian length, refused when it is zero or does not fit |
| NalSplit.ParseNALHeader | cbs/h2645.go:196-240 | the header fields of both codecs, and the reason why a unit is skipped |
| NalSplit.H264HeaderOnBytes | cbs/h2645.go:236-251 | the H.264 header as arithmetic on its byte: type and reference idc, or a bad header when the first bit is set |
| NalSplit.H265HeaderOnBytes | cbs/h2645.go:211-235 | the H.265 header as arithmetic on its two bytes: type, layer and temporal id, and which headers are bad or of layer 63 |
| NalSplit.PacketSplit | cbs/h2645.go:132-259 | terminates on every buffer in both modes, never passes the end of a length-prefixed unit, so the re-syncing warning is unreachable, and returns the records of the specification |
| NalSplit.AddNALs | cbs/h2645.go:265-303 | one unit per record, in order: filtered, empty, or with its trailing zeros removed |
| NalSplit.LayersFiltered | cbs/h2645.go:281-303 | H.265 units of a higher layer other than types 32 to 34 are marked and kept, an all-zero unit is marked empty, and any other loses exactly its trailing zeros; everything else is as in the record |
| NalSplit.SplitIsFaithful | cbs/h2645.go:132-259 | on every buffer the records do not overlap, come in order, and each rebuilds its own bytes of the buffer |
| AnnexB.H264Listed | cbs/h2645.go:223-240 | an H.264 payload that can be carried is listed exactly when its first bit is zero |
| AnnexB.H265Listed | cbs/h2645.go:211-285 | an H.265 payload that can be carried is listed exactly when its two header bytes have a clear first bit and a temporal id, and it is of layer 0 or a parameter set of a layer below 63 |
| AnnexB.ParameterSetExample | cbs/h2645.go:211-235 | the bytes 40 01 0c are a listed parameter set of type 32 and layer 0 |
| AnnexB.ByteStreamRoundTrip | cbs/h2645.go:36-303 | Annex B: escape any payloads, put start codes and any zeros around them; splitting and adding the units returns exactly those payloads, in order, none skipped |
| AnnexB.LengthPrefixedRoundTrip | cbs/h2645.go:108-303 | length-prefixed joining returns all payloads if and only if the last record has at least four bytes; otherwise all but the last |
| AnnexB.ShortRecordExample | cbs/h2645.go:147 | a payload of one byte behind a length of one byte, which is dropped |
| Sei.MoreRBSPData | cbs/reader.go:115-124 | what the test answers, bit by bit |
| Sei.MoreMeansBeforeLastOne | cbs/reader.go:115-124 | on data ending in a nonzero byte it holds exactly when a one bit follows the position |
| Sei.ReadPayloadTrailer | cbs/sei.go:50-84 | succeeds exactly when one of the last eight bits left is set, and then reads the extension bits, the one bit and the zeros up to the end of the payload |
| Sei.SeiMessage | cbs/sei.go:30-95 | for any payload reader that stays within its payload: what is accepted, and that a message that succeeds consumes exactly the bits its size announces |
| Sei.ReadFfCoded | cbs/sei.go:102-117 | bytes of ff count 255 each, in 32 bits, and a last byte below ff ends the number |
| Sei.SeiMessageList | cbs/sei.go:98-140 | the messages of the specification; the loop stops where no more data follows |
| Sei.RbspTrailingBits | cbs/h264_syntax.go:22-27 | from any position, succeeds exactly on a one followed by zeros up to the end of the byte, all present |
| SeiWrite.ReadSei | cbs/h264_syntax.go:722-730 | on data ending in a nonzero byte a successful SEI unit ends exactly at the last bit |
| SeiWrite.SeiRoundTrip | cbs/sei.go:98-140 | any nonempty list of messages without a syntax of their own, written as a NAL unit of type 6, is read back |
| SeiWrite.SeiThroughByteStream | cbs/h2645.go:36-303 | end to end: lists of messages written, escaped and put into a byte stream come back from splitting, de-escaping and parsing |
| ObuSplit.ReadObuHeader | cbs/av1_syntax.go:27-49 | the OBU header, refused when a reserved bit is set or it is cut short |
| ObuSplit.HeaderOnBytes | cbs/av1_syntax.go:27-49 | the OBU header as arithmetic on its one or two bytes, and exactly when it is refused |
| ObuSplit.MeasureObu | cbs/av1.go:346-384 | header and length of the OBU that starts the data, or a refusal |
| ObuSplit.SplitFragment | cbs/av1.go:305-403 | the units of the specification, the size limit, and the four cases of a configuration record |
| ObuSplit.RefusedAtOnce | cbs/av1.go:310-332 | packets of 2^28 bytes and more, and configuration records of another version or cut short, give no units and an error |
| ObuSplit.ObuAlone | cbs/av1.go:346-398 | the bytes of a unit, cut out of the packet, parse as the same OBU and are filled by it |
| ObuSplit.SplitTiles | cbs/av1.go:305-403 | on success the units tile the packet from its first OBU to its last byte, nonempty and consecutive; on an error they tile what came before |
| ObuWrite.SplitInverts | cbs/av1.go:305-403 | OBUs written one behind the other, with sizes in one to eight groups, bare or behind a configuration record, come back as exactly those OBUs |
| Trailing.TrailingBits | cbs/av1_syntax.go:51-59 | succeeds exactly on a one followed by zeros, all of them present |
| Trailing.PayloadBytesLeft | cbs/av1.go:240-249 | the index of the last whole byte left that is not zero |
| Trailing.ReadPayload | cbs/av1_syntax.go:1871-1884 | takes the bytes up to that one |
| Trailing.PaddingRecovered | cbs/av1_syntax.go:1871-1884 | a padding payload is recovered however many zero bytes follow its trailing one bit |
| Trailing.PaddedOnlyThen | cbs/av1_syntax.go:1871-1884 | the trailing bits behind it are right only for content of that form |
| OrderHints.MaskBits | cbs/av1.go:229-237 | masking with one bit and with all bits below it |
| OrderHints.RelativeDistIsCentred | cbs/av1.go:229-237 | for all 32-bit arguments the distance is the residue of a-b modulo 2^OrderHintBits that lies from -m up to m; without order hints it is zero |
| OrderHints.CentredDifference | cbs/av1.go:229-237 | comparing two hints directly is the difference of their distances to a third, wrapped once |
| FrameRefs.SetFrameRefs | cbs/av1_syntax.go:316-424 | the loops meet section 7.8 of AV1 stated as a relation: latest and earliest slots with their ties, backward choices, forward choices, final fill |
| FrameRefs.Section78Unique | cbs/av1_syntax.go:316-424 | that relation leaves no choice |
| FrameRefs.Roles | cbs/av1_syntax.go:336-424 | name by name, with the positions in the header written out: which slot each of the seven references takes, ties included, from the slots before the frame and those that are not |
| FrameRefs.BackwardIsHalfCycle | cbs/av1_syntax.go:339-344 | a slot is not before the frame exactly when its hint lies in the half cycle from the hint of the frame on |
| FrameRefs.ChosenOnce | cbs/av1_syntax.go:316-424 | no slot is chosen twice before the final fill, except LAST and GOLDEN signalled alike |
| FrameRefs.ForwardPicksDescend | cbs/av1_syntax.go:394-409 | forward slots are taken once each, in non-increasing order of their hints |
| FrameRefs.ReferencesInRange | cbs/av1_syntax.go:411-424 | seven slots in 0..7, LAST and GOLDEN as signalled, and no name left for the final fill while a forward slot is unused |
| SkipMode.SkipModeParams | cbs/av1_syntax.go:955-1020 | the references found on either side, and exactly when skip mode is allowed |
| SkipMode.FindNearest | cbs/av1_syntax.go:969-992 | the first of the nearest references before and after the frame |
| SkipMode.AllowedExactly | cbs/av1_syntax.go:955-1020 | allowed exactly when one reference lies before and another after or strictly further before, or in one clash of half a cycle; outside the clash the second reference is the nearest further one |
| SkipMode.ClashExample | cbs/av1_syntax.go:1000-1016 | a concrete frame in that clash, with no second reference before it |
| TileInfo.GridFits | cbs/av1_syntax.go:532-545 | for every frame size up to 65536 the superblock counts stay in the ranges the arithmetic needs |
| TileInfo.GridIs | cbs/av1_syntax.go:532-545 | superblocks of 64 or 128 pixels that just cover the frame, and limits of 4096 pixels for the width of a tile and 4096 by 2304 for its area |
| TileInfo.BoundsExactly | cbs/av1_syntax.go:547-571 | every bound of the two increments is the least logarithm that is large enough: for the width limit, the area limit, and the number of superblocks up to 64 |
| TileInfo.ColumnBounds | cbs/av1_syntax.go:547-548 | the least number of columns never exceeds the largest |
| TileInfo.RowBounds | cbs/av1_syntax.go:549-576 | the same for rows, whatever number of columns was chosen |
| TileInfo.NarrowColumns | cbs/av1_syntax.go:556-562 | a legal column is never wider than 64 superblocks |
| TileInfo.UniformExactly | cbs/av1_syntax.go:556-603 | stored starts and sizes of uniform tiles tile the frame if and only if no tile exceeds 256 superblocks |
| TileInfo.TallRowIsLegal | cbs/av1_syntax.go:571-585 | a frame of 64x65536 pixels may be one row of 1024 superblocks |
| TileInfo.TallRowExample | cbs/av1_syntax.go:594-603 | that row is stored as 256 superblocks |
| TileInfo.TileLayout.ReadUniformColumns | cbs/av1_syntax.go:556-569 | at most 2^TileColsLog2 columns that tile the frame exactly; no index leaves 0..63 |
| TileInfo.TileLayout.ReadUniformRows | cbs/av1_syntax.go:571-603 | at most 2^TileRowsLog2 rows, exact if and only if none exceeds 256 superblocks |
| TileInfo.ReadOneTile | cbs/av1_syntax.go:611-619 | one coded tile: its start modulo 256, its size as decoded and truncated, never past the frame |
| TileInfo.ReadTileList | cbs/av1_syntax.go:611-619 | the sizes are those that the bits code one after the other, and it fails exactly when the bits end first; explicit tiles never pass the frame and reach its end unless there are 64; also the widest of them |
| TileInfo.MaxTileHeightIs | cbs/av1_syntax.go:614-619 | the height limit is the largest height at which tiles as wide as the widest fit 2^(m+1) times into the frame, m being the least logarithm of the number of tiles; or one |
| TileInfo.TileLayout.ReadTileInfo | cbs/av1_syntax.go:527-644 | every field of tile_info() is what the bits say, in either mode, and it fails exactly when they end first; what it leaves in the header describes tiles of the frame |
| TileInfo.TileLayout.DescribesFew | cbs/av1_syntax.go:556-619 | there are never more tiles than superblocks, in either direction |
| TileWrite.TileInfoRoundTrip | cbs/av1_syntax.go:527-644 | tile_info() reads back whatever a writer wrote, in both modes: every tiling that can be coded and the fields behind it |
| Av1Header.SuperresBounds | cbs/av1_syntax.go:436-446 | superres never widens a frame and never yields width 0 |
| Av1Header.SuperresRounds | cbs/av1_syntax.go:436-446 | the width after superres is 8/denominator of the width, rounded to the nearest number, a half upwards |
| Av1Context.AV1Context.SuperresParams | cbs/av1_syntax.go:426-446 | the denominator is what the bits say, and both widths follow from it; it fails exactly when the bits end |
| Av1Context.AV1Context.FrameSize | cbs/av1_syntax.go:448-463 | coded or inherited frame size, then superres; it fails exactly when the bits end |
| Av1Context.AV1Context.RenderSize | cbs/av1_syntax.go:465-478 | coded render size, or the frame size; it fails exactly when the bits end |
| Av1Context.AV1Context.FrameSizeWithRefs | cbs/av1_syntax.go:480-513 | the first reference found gives the sizes, with superres applied anew and no uint16 inference wrapping; if none is found the size is coded. It fails exactly when the bits end or the slot found is not valid |
| Av1Context.AV1Context.UpdateRefs | cbs/av1_syntax.go:1202-1238 | exactly the slots named by the flags hold the frame |
| Av1Context.AV1Context.ForgetReferences | cbs/av1_syntax.go:1340-1348 | a shown key frame leaves no slot valid, and clears the order hints |
| Av1Context.AV1Context.ForgetOldIds | cbs/av1_syntax.go:1369-1390 | which slots frame id numbering invalidates |
| Av1Header.IdDistance | cbs/av1_syntax.go:1373-1387 | the two comparisons amount to one on a circle: an id is too old when it lies further behind the current one than 2^diffLen, modulo 2^idLen |
| Av1Header.StaysIdentified | cbs/av1_syntax.go:1369-1390 | a slot stays valid under frame id numbering exactly when its id is close enough behind the current one, and nothing else of it changes |
| Av1Context.AV1Context.CheckOrderHints | cbs/av1_syntax.go:1440-1454 | a slot becomes invalid exactly when a coded hint differs from its own |
| Av1Context.AV1Context.LoadShown | cbs/av1_syntax.go:1283-1311 | showing a key frame again copies its slot to all slots; any other frame changes none |
| Av1Context.AV1Context.DeriveRefs | cbs/av1_syntax.go:1470-1477 | short signaling derives the references of section 7.8 from the slots and the order hint |
| Av1Context.AV1Context.ReadRefs | cbs/av1_syntax.go:1468-1488 | the references of an inter frame are those of section 7.8 or those coded one by one, at the places that the bits and the gaps before them determine; it fails exactly when these end |
| Av1Context.AV1Context.ReadSkipMode | cbs/av1_syntax.go:955-1028 | skip_mode_present is read exactly when reference_select is set and the order hints of the references allow skip mode |
| Av1Context.AV1Context.UncompressedHeader | cbs/av1_syntax.go:1240-1607 | it succeeds exactly when OpeningAt, a function of bits, gaps and state, yields a header; then position, fields and the whole new state are those of that header: ids, order hints, refresh flags, slots, references, sizes, tiles and skip mode. Otherwise it changes only what a header given up half way may |
| HeaderWrite.HeaderRoundTrip | cbs/av1_syntax.go:1240-1607 | the whole frame header reads back: for every sequence and every content of the slots, whatever header a writer of section 5.9.2 puts down, with the condition of each field written out, every field, the references, sizes, tiles and the end are those written |
| HeaderWrite.StartReads | cbs/av1_syntax.go:1338-1454 | and the slots are those left valid by what was written: emptied by a shown key frame, too old by their ids, or contradicted by a coded hint |
| FrameWrite.FieldsAsWritten | cbs/av1_syntax.go:1240-1607 | so a header object that holds the header read has, field by field, what was written |
| HeaderWrite.HeaderLeads | cbs/av1_syntax.go:1202-1238 | the state after a header that was written: its sizes, order hint and tile grid, and the frame in the slots whose bit of refresh_frame_flags is set |
| HeaderWrite.AgainRoundTrip | cbs/av1_syntax.go:1257-1311 | a header that shows a slot again names it; a key frame is loaded into every slot, any other frame changes nothing |
| HeaderWrite.SmallHeaderExample | cbs/av1_syntax.go:1240-1607 | the header of a key frame of 64x64 pixels, which has eight bits |
| Av1Header.StartWeakens | cbs/av1_syntax.go:1338-1454 | the fields before the sizes only take references away |
| Av1Header.DerivedUnique | cbs/av1_syntax.go:1470-1477 | slots, order hint and the two slots signalled determine the references of section 7.8 |
| Av1Context.AV1Context.CompareHeader | cbs/av1_syntax.go:1617-1630 | a copy is accepted exactly when enough bits are left and they equal the stored ones |
| Av1Context.AV1Context.FrameHeaderOBU | cbs/av1_syntax.go:1609-1657 | the step taken is HeaderEvent, a function of the bits and the state: a new header with its own bits, a failure, or a comparison of the bits offered with those stored; it is accepted exactly when that step says so, and ends behind the bits it names |
| Av1Context.AV1Context.ReadTileBounds | cbs/av1_syntax.go:1659-1682 | explicit bounds are the two numbers coded; it fails exactly when the bits end or the bounds do not continue after the last tile counted and stay in the grid |
| Av1Context.AV1Context.TileGroupOBU | cbs/av1_syntax.go:1659-1693 | the step taken is TileEvent, a function of the bits and the state, with the bounds coded; it succeeds exactly when these are accepted and only zero bits follow up to the next byte; the count of tiles is kept even when the alignment fails |
| Av1Header.TileIndexBitsAre | cbs/av1_syntax.go:1675-1676 | a tile number has the fewest bits that can name every column and every row |
| FrameWrite.GroupRoundTrip | cbs/av1_syntax.go:1659-1693 | a tile group header reads back, with or without bounds, up to the byte its tile data start at |
| Av1Context.AV1Context.FlushContext | cbs/av1.go:549-558 | a flush is one step of the protocol |
| Av1State.RunKeeps | cbs/av1.go:253-292 | the invariant holds in every state of every run, failures and flushes included |
| Av1State.ReachableReferences | cbs/av1_syntax.go:497-500 | in every reachable state a valid slot has 1 <= FrameWidth <= UpscaledWidth <= 65536 and proper heights and render sizes |
| Av1State.OnlyTheseReopen | cbs/av1_syntax.go:1609-1693 | in every run, the frame that a header opened stays open exactly until a tile group ends at the last tile, a temporal delimiter or a flush |
| Av1State.RedundantRepeats | cbs/av1_syntax.go:1609-1657 | in every run a redundant header is accepted exactly when it repeats, bit for bit, the header that opened the frame |
| Av1State.TileRangesAscend | cbs/av1_syntax.go:1659-1693 | in every run, explicit tile groups of an open frame cover ascending and disjoint ranges |
| Av1State.ExplicitRangesAscend | cbs/av1_syntax.go:1659-1682 | they do so in any state, also after a frame that ended early or a header that failed, as long as nothing between them starts the count of tiles afresh |
| Av1State.RangesAscendExactly | cbs/av1_syntax.go:1670-1685 | in every run, every explicit group that can come next lies behind an earlier one if and only if the count of tiles, a function of the events so far, is still above its end, or no explicit group can come next at all |
| Av1State.RangesMayRepeat | cbs/av1_syntax.go:1670-1682 | a concrete run without that, at 1920x1080: headers that fail behind tile_info() leave other tile grids behind, a group without bounds sets the count back, and the same range comes twice |
| Av1State.UniformGrids | cbs/av1_syntax.go:532-585 | in a frame of 1920x1080 pixels tile_info() may code the two grids of that run |
| Av1Units.ReadUnit | cbs/av1.go:417-524 | by OBU type, which steps the unit takes and which of its bits name them, and exactly when it is skipped, unsupported, decomposed or failed; a unit with trailing bits that is decomposed ends at its last bit; a padding unit yields the bytes before its trailing bits |
| FrameWrite.FrameUnitRoundTrip | cbs/av1.go:417-524 | from first byte to tile data: whatever frame header and tile group are put into an OBU of type 6 that is not skipped, readUnit opens the frame with exactly the bits of that header, reaches the state it names, counts exactly the tiles of that group, and decomposes the unit |
| Av1Units.FrameUnitSays | cbs/av1.go:476-489 | a unit whose first byte says type 6: the step of a frame header, then of a tile group on the next byte in the state reached; when it is decomposed |
| Av1Units.TileUnitSays | cbs/av1.go:476-489 | type 4: the step of a tile group |
| Av1Units.HeaderUnitSays | cbs/av1.go:472-474 | types 3 and 7: the step of a frame header and of a redundant one, and trailing bits behind it |
| Av1Units.OtherUnitSays | cbs/av1.go:453-514 | types 1 and 2 take the step of a sequence header and a temporal delimiter, types 5, 8 and 15 none, the rest are unsupported; and when each is decomposed |
| Av1Units.SkippedByBytes | cbs/av1.go:439-450 | a unit is skipped exactly when its two header bytes name a layer that the operating point lacks, and its type is neither 1 nor 2 |
| Av1Units.ReadFragment | cbs/av1.go:526-546 | the run of a whole packet or of extradata is made of the runs of its units, one after the other, each with the outcome and steps that its own bits name in the state reached; the invariant is kept |
| Av1Units.NoStep | cbs/av1.go:499-514 | tile lists, metadata, padding, and skipped and unsupported units leave the state alone |
| Av1Units.RedundantUnit | cbs/av1_syntax.go:1609-1631 | a redundant header OBU in an open frame is decomposed exactly when its content is the stored bits and then trailing bits |
| Av1Units.RedundantRepeatsBytes | cbs/av1_syntax.go:1609-1657 | in a packet, that is exactly when it repeats the bits of the frame header OBU that opened the frame |
| Av1Units.CodedRangesAscend | cbs/av1_syntax.go:1659-1693 | in a packet, an explicit range coded by a tile group OBU of an open frame starts behind the range of every earlier one |
| Av1Units.UnitsAreWhole | cbs/av1.go:305-403 | every unit of a packet split without error is one whole OBU |
| Av1Units.PaddingRoundTrip | cbs/av1_syntax.go:1871-1884 | a written padding OBU yields exactly its payload |
| Kernels.CubicInterpolates | av/sample_window.go:258-268 | Catmull-Rom is one at zero and zero at every other integer |
| Kernels.TentReproduces | av/sample_window.go:250-256 | the tent reproduces constants and ramps |
| Kernels.CubicReproduces | av/sample_window.go:258-268 | Catmull-Rom reproduces constants, ramps and parabolas |
| Kernels.BsplineBlurs | av/sample_window.go:270-284 | the B-spline is not interpolating |
| Kernels.BsplineReproduces | av/sample_window.go:270-284 | the B-spline reproduces constants and ramps, and raises a parabola by a third |
| Kernels.Stretches | av/sample_window.go:317-321 | a sample f times as far away weighs as much at a stretch of f, and no kernel is narrowed |
| Kernels.ScaledVanishes | av/sample_window.go:317-321 | a stretched kernel vanishes beyond its stretched support |
| Coverage.KeepPixel | av/sample_window.go:327-353 | a plane sample is kept exactly when some luma pixel it covers has its centre inside the source |
| Coverage.CoveredIsKept | av/sample_window.go:432-444 | when the window is covered, every sample of every plane is kept, chroma included |
| Coverage.CoversAllExactly | av/sample_window.go:432-444 | for luma the converse holds too |
| Spans.TapsFit | av/sample_window.go:446-453 | no span needs more taps than mm_max_taps |
| Spans.CentresSpread | av/sample_window.go:367-370 | output samples lie evenly over the window and evenly about its middle |
| Spans.PlaneSiting | av/sample_window.go:367-370 | a sample of a subsampled plane sits in the middle of the luma samples it covers |
| Spans.Footprint | av/sample_window.go:373-374 | the bilinear kernel gives weight to exactly the source samples within its stretch |
| Spans.NothingSkipped | av/sample_window.go:373-374 | so however much it shrinks, no source sample under the window is left out |
| Spans.OutsideSpan | av/sample_window.go:471-482 | a sample outside the span has no weight |
| Spans.BuildSpans | av/sample_window.go:455-486 | never fails, and tabulates the weights and norms of all spans |
| Direct.RoundCompNear | av/sample_window.go:180-186 | the rounded value stays in range and is the nearest integer up to the bias |
| Direct.RoundCompClamps | av/sample_window.go:180-186 | values out of range become the nearer bound, and rounding keeps the order |
| Direct.RowWithoutWeight | av/sample_window.go:705-720 | a source row outside row0..row1 has no weight in any output row |
| Direct.TwoPassIsDirect | av/sample_window.go:677-784 | the two passes give the rounded direct two-dimensional weighted sum with black outside the picture, for every kernel that vanishes beyond its support |
| Direct.DirectOverAny | av/sample_window.go:455-486 | that sum is the same over any rectangle of taps that takes in both spans |
| Separable.EnlargedNorm | av/sample_window.go:471-482 | where nothing is shrunk the weights of every sample add up to one, for each of the three kernels |
| Separable.SupportTight | av/sample_window.go:309-315 | the support of a kernel is no larger than it must be |
| Separable.OnlySplineBlurs | av/sample_window.go:299-307 | of the kernels but Lanczos only the spline does not copy at integer coordinates |
| Separable.KeepsBySample | av/sample_window.go:340-351 | what decides whether a luma pixel is kept is the coordinate its sample is taken at |
| Direct.IntegerCoordinatesCopy | av/sample_window.go:366-374 | where both coordinates fall on a source sample and nothing is stretched, an interpolating kernel copies it |
| Separable.HorizSample | av/sample_window.go:517-535 | one sample of the first pass |
| Separable.HorizThread | av/sample_window.go:517-535 | a thread finishes exactly its own rows of the first pass and leaves the others alone |
| Separable.VertSample | av/sample_window.go:555-589 | one sample of the second pass |
| Separable.VertThread | av/sample_window.go:555-589 | a thread stores exactly the kept samples of its own rows |
| Separable.FilterSeparable | av/sample_window.go:677-784 | refuses a stretch of 4096 or more; otherwise every kept sample is the direct sum and every other one is untouched, for any thread counts. Up to 999993000 source rows what is kept is decided by mm_keep_pixel alone; beyond, rows farther away than 10^9 are skipped |
| Separable.KeptIsNear | av/sample_window.go:464-469 | a kept row is never so far away that its span is skipped, up to that many source rows |
| Separable.KeptColumnIsNear | av/sample_window.go:464-469 | nor is a kept column, up to that many source columns |
| Separable.WrittenIsDirect | av/sample_window.go:555-589 | so what is stored is the rounded quotient of sums over any rectangle of taps that takes in both spans |
| Separable.CoveredColumnIsNear | av/sample_window.go:432-444 | when the window is covered no column is skipped, up to 10^9 source columns |
| Separable.IdentityCopies | av/sample_window.go:366-374 | a window as large as the output, from the origin on and of a size divisible by the subsampling of the plane, is copied unchanged by the bilinear and the bicubic kernel |
| Threads.AnySchedule | av/sample_window.go:636-662 | for any number of threads and any interleaving the result is the same, and each sample is stored exactly once or not at all |
| Threads.CoveredStoredOnce | av/sample_window.go:636-662 | when the window is covered and the source has at most 10^9 rows, each sample is stored exactly once with the direct sum |
| Threads.BothPassesAnySchedule | av/sample_window.go:636-784 | any schedule of the first pass on any threads, a join, and any schedule of the second pass leave the direct sum in each sample to be written, stored exactly once, and nothing elsewhere; the first pass reads rows of the picture only |
| Area.VisitedAddUp | av/sample_window.go:361-365 | the overlaps with the pixels visited add up to the part inside the picture |
| Area.AreaSample | av/sample_window.go:839-878 | the loops compute the pixels by their shares and black for the rest of the cell |
| Area.CoveredIs | av/sample_window.go:861-877 | the covered weight is the area of the cell inside the picture over the area of the cell |
| Area.CoveredBounds | av/sample_window.go:861-877 | it is at most 1, and it is 1 if and only if the cell lies inside the picture |
| Area.CellsTile | av/sample_window.go:839-845 | the cells lie side by side from the first edge of the window to its last, each about its centre |
| Area.SharedOut | av/sample_window.go:361-365 | the cells together take of every source pixel what lies in the window, and nothing twice |
| Area.StoredBetween | av/sample_window.go:839-879 | what is stored lies between the smallest and the largest of the samples touched and black |
| Area.NearestIs | av/sample_window.go:825-837 | the point kernel takes a sample of the picture, and it is half a pixel away at most exactly when the centre is inside |
| Area.ResamplePlane | av/sample_window.go:786-884 | exactly the kept samples are stored, with the value of the kernel |

## Left out

- Subexp.ReadSubexp: ranges below nine values are left out. The limit wraps there, and the reader would go on to ask
  for more bits than a read may have; every caller passes at least 513.
- Av1Context.AV1Context.UncompressedHeader: quantiser, segmentation, loop filter, CDEF, restoration, film grain,
  global motion and timing fields are gaps. They change nothing in the modelled state.
- Av1Context.AV1Context.UpdateRefs: a slot keeps frame id, sizes, frame type and order hint; saved order hints,
  subsampling, bit depth and filter parameters of a slot are not part of this model.
- Av1Units.ReadUnit: the fields of sequence header OBUs and metadata payloads are read by arbitrary functions; the
  parsed OBU is not stored in the unit, and tile data is not modelled beyond its presence.
- HeaderWrite.HeaderRoundTrip: one more bit must follow the header, since `readNs` may ask for a long code word at its
  end. Trailing bits or tile data always follow.
- Separable.FilterSeparable: over the reals, so finiteness checks always pass and rounding of doubles is not modelled;
  the reuse of scratch buffers between passes and frames, and allocation failures, are not modelled.
- Threads.AnySchedule: a step stores one sample. That storing is atomic, as for disjoint bytes, is taken for granted;
  components packed into one word are not modelled.
- The Lanczos formula, which needs a sine: any function that vanishes from 3 on stands for it.
- Pixel-format descriptors and byte packing: component samples are given as planes.
- H.264 and H.265 parameter sets, slice headers and SEI payload bodies: long runs of fields with little state.
- Extradata of H.264 and H.265 (avcC and hvcC boxes) in front of the NAL splitter.
- Tracing and diagnostics, which produce text only.
- Everything in `av/` that binds foreign libraries.
