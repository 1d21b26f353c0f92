# Verified models of the media codecs and state machines

This project models the parts of the emulator whose correctness is hard to see from the code, and proves what
they are for. The code modelled is the image codecs of the bundled stb libraries (`externals/stb`), the block
texture compressor and decoder (`externals/stb/stb_dxt.cpp`, `externals/bc_decoder`), the command-line scanner
(`externals/getopt`), the registry of performance-hint sessions (`src/common/adpf.cpp`), the register allocator
of the system-call generator (`tools/svc_generator.py`) and the ring of audio session ids (`src/audio_core`).

Each format has a definition of its own, independent of reader and writer: tokens, blocks and streams for
DEFLATE (RFC 1951) and zlib (RFC 1950), a plain decoder without acceleration tables for the entropy-coded
segments of JPEG (sections F.1.2 and F.2.2 of ITU-T T.81), the filter definitions of the PNG specification, a
decoder that stores whole strings for GIF, packets and chunks for Targa and Radiance HDR. Readers are classes
or methods with the fields and loops of the source, proved sound and, where the source promises it, complete
against the definition; writers are proved to produce what the definition asks for and to choose what they
choose; the round trips put the two together. Where the source only reads (dynamic DEFLATE blocks, GIF frames,
JPEG restart intervals, command lines) the model has a writer of its own, made from the format, so that the
definition is tied to something other than the reader.

| files | subject |
|---|---|
| `Wrappers`, `BitStrings`, `Canonical` | options, bit strings, the numbers they denote, canonical Huffman codes |
| `ZHuffman`, `DeflateFormat`, `DeflateStream`, `FixedCode`, `Unambiguity`, `Buffering`, `Reading`, `Inflate` | the zlib reader |
| `DynamicBlock` | dynamic blocks written by a run-length coder, and the reader on them |
| `Adler32`, `Deflate`, `ZlibRoundTrip` | the zlib writer and the round trip |
| `PngFilter`, `PngImage` | PNG filters, and whole images through zlib |
| `GifRaster`, `GifLzw`, `GifEncoder` | the drawing order of GIF images, the decoder that draws them, and a textbook encoder |
| `JpegBits`, `JpegHuffman`, `JpegZigZag`, `JpegFormat`, `JpegBlock`, `JpegTables`, `JpegEnding`, `JpegFrame`, `JpegReader`, `JpegWriter`, `JpegRoundTrip`, `JpegRestart`, `JpegStandard` | JPEG entropy coding |
| `TgaFormat`, `Tga`, `Hdr` | run-length coded images |
| `AlphaBlock`, `ColorFormat`, `ColorBlock` | BC3 alpha and BC1 colour blocks |
| `GetoptSpec`, `Getopt`, `GetoptRender` | the command-line scanner, and command lines written as meant |
| `Adpf`, `SvcRegisters`, `SessionIds` | state machines |

`dafny verify dfyconfig.toml` checks everything.

Six properties turned out not to hold as one would expect; each has a witness and a
statement of when the code does meet it:

- The zlib writer emits no block for empty data, so nothing can be read back (`ZlibRoundTrip.EmptyUnreadable`,
  `ZlibRoundTrip.RoundTrip`).
- In a JPEG table of 256 symbols the last one cannot be looked up when its code has at most nine bits, because
  its index is the flag for "not in the fast table" (`JpegHuffman.LookupExact`, `JpegHuffman.FlagClash`). The
  reader's other contracts assume tables without such a symbol.
- The test whether a product of two shorts fits compares the wrong way when both are negative
  (`JpegFormat.MulValidExact`, `JpegFormat.MulValidWrong`); what follows for DC coefficients is stated in
  `JpegRoundTrip.DcAcceptance` and `JpegRoundTrip.DcTestRight`.
- A complete DEFLATE stream at the end of the input can be refused (`Inflate.RefusesTwoZeros`): the reader fails
  when it wants to decode a symbol, holds fewer than 16 bits and has no input left, although those bits may hold
  the symbol. How many bytes it has buffered is a function of the bits taken (`Buffering.Run`), which gives the
  exact condition (`Inflate.ZlibDecode`); two more bytes of input are always enough (`Reading.TwoBytesAfter`).
- With "W;" in the option string and no long options, the command-line scan need not end
  (`Getopt.Scanner.ExtensionRepeats`, `Getopt.EndlessScan`); without "W;" it always does (`Getopt.Scan`).
- In BC1 blocks with transparency, pixels near the second endpoint are given the index of the first
  (`ColorBlock.Match3Nearest`, `ColorBlock.Match3Wrong`).

Conventions: 32-bit registers are natural numbers with the wrap-around written out; `|`, `&` and shifts appear
as the arithmetic they amount to, after a proof that the bits combined are disjoint; reading past the end of an
input gives zero bytes, as in the source. Tests of the source that can never succeed appear as assertions that
they do not.

## Model

| member | source | states |
|---|---|---|
| `Canonical.PrefixFree` | externals/stb/stb_image.h:4122-4147 | Under the Kraft inequality no canonical code is a prefix of another, so at most one symbol matches any stream. |
| `Canonical.KraftSumIsUsed` | externals/stb/stb_image.h:4134-4147 | What the code assignment uses up at the longest length is the Kraft sum of the lengths. |
| `Canonical.PrefixIffMatches` | externals/stb/stb_image.h:4221-4238 | Sixteen bits begin with a code exactly when the comparison of their leading bits with the code value says so. |
| `ZHuffman.BuildHuffman` | externals/stb/stb_image.h:4122-4167 | Accepts a list of code lengths exactly when it satisfies the Kraft inequality, and then the fast table, the per-length tables and the symbol slots hold the canonical code. |
| `ZHuffman.AssignCodes` | externals/stb/stb_image.h:4131-4148 | First codes, code ends and first slots of every length; the two over-subscription tests together refuse exactly the lists that break the Kraft inequality, and the 16-bit tables truncate nothing. |
| `ZHuffman.FillFast` | externals/stb/stb_image.h:4156-4161 | Replicating the bit-reversed code fills exactly the nine-bit indices that begin with it and disturbs no other symbol. |
| `ZHuffman.FastLookup` | externals/stb/stb_image.h:4249-4255 | A fast entry is the one symbol whose code begins the index bits; an empty entry means that no code of at most nine bits does. |
| `ZHuffman.SlowLookup` | externals/stb/stb_image.h:4221-4238 | The slow path lands on the slot of the matching symbol, so its two sanity tests never fail. |
| `ZHuffman.NoLookup` | externals/stb/stb_image.h:4226-4231 | When the slow path runs off the table, no code at all matches. |
| `FixedCode.FixedCodes` | externals/stb/stb_image_write.h:884-889 | The writer's four ranges of code values are the canonical code of the fixed literal lengths. |
| `DeflateFormat.TokenUnique` | externals/stb/stb_image.h:4295-4336 | At a bit position at most one literal or match can be read. |
| `DeflateFormat.NextToken` | externals/stb/stb_image.h:4295-4336 | Where a literal or match stands, any block body that stands there goes on with it; the end of the block cannot stand there as well. |
| `DeflateFormat.BodyUnique` | externals/stb/stb_image.h:4295-4336 | The token sequence of a compressed block is determined by the bits. |
| `Unambiguity.HeaderUnique` | externals/stb/stb_image.h:4338-4386 | The header of a dynamic block is determined by the bits. |
| `Unambiguity.BlockUnique` | externals/stb/stb_image.h:4388-4415 | At a bit position at most one block of any type stands. |
| `Unambiguity.DeflateUnique` | externals/stb/stb_image.h:4460-4486 | A stream of blocks is determined by the bits, so decoding is a function of the input. |
| `Inflate.ZBuf.FillBits` | externals/stb/stb_image.h:4199-4209 | In every reachable state the buffer is exactly the next bits of the input as a number, so the corruption test never succeeds and the 32-bit buffer never overflows. |
| `Inflate.ZBuf.Receive` | externals/stb/stb_image.h:4211-4219 | Returns the next n bits as a number and advances by n bits; how many bytes are then buffered is stated exactly. |
| `Inflate.ZBuf.Decode` | externals/stb/stb_image.h:4240-4257 | Returns the symbol whose code stands at the current bit and advances by its length; it fails exactly when no code stands there, or fewer than 16 bits are buffered and no input is left. |
| `Inflate.ZBuf.DecodeSlow` | externals/stb/stb_image.h:4221-4238 | The same for codes of more than nine bits. |
| `Inflate.ZBuf.ExpandOutput` | externals/stb/stb_image.h:4259-4279 | Makes room by doubling, which ends because the buffer is not empty; fails exactly when the output would not fit the size to which it can grow. |
| `Inflate.ZBuf.CopyMatch` | externals/stb/stb_image.h:4328-4334 | An overlapping copy, byte by byte or as a run, appends exactly what the distance and length mean. |
| `Inflate.ZBuf.ReadMatch` | externals/stb/stb_image.h:4314-4334 | Reads the length and distance of a match and appends it; a failure means that no match stands there that the output can take and that the reader does not starve in. |
| `Inflate.ZBuf.ReadToken` | externals/stb/stb_image.h:4298-4335 | One turn of the block loop reads the token that stands there; a failure means that none does that the output can take and that the reader does not starve in. |
| `Inflate.ZBuf.ParseHuffmanBlock` | externals/stb/stb_image.h:4295-4336 | Expands exactly the token sequence that stands in the input; a failure means that none does whose output fits and in which the reader does not starve. |
| `Inflate.ZBuf.ReadLens` | externals/stb/stb_image.h:4357-4382 | The run-length coded code lengths, with repeats of the previous length and of zero, are the ones that stand in the input; a failure means that none do in which the reader does not starve. |
| `Inflate.ZBuf.ComputeHuffmanCodes` | externals/stb/stb_image.h:4338-4386 | Reads the header of a dynamic block and builds both tables from it; a failure means that no valid header stands there in which the reader does not starve. |
| `Inflate.ZBuf.DrainHeader` | externals/stb/stb_image.h:4388-4401 | Before a stored block at most 3 whole bytes are left in the buffer; they are the next bytes of the input, so nothing is lost. |
| `Inflate.ZBuf.ParseUncompressedBlock` | externals/stb/stb_image.h:4388-4415 | Appends exactly the stored bytes; a failure means that no stored block stands there that lies in the input and whose content fits. |
| `Inflate.ZBuf.ParseBlock` | externals/stb/stb_image.h:4467-4485 | One block of any type; a failure means that none stands there whose output fits and in which the reader does not starve. |
| `Inflate.ZBuf.ParseZlibHeader` | externals/stb/stb_image.h:4417-4430 | Succeeds exactly on a two-byte zlib header that is not at the end of the input. |
| `Reading.HeaderFields` | externals/stb/stb_image.h:4417-4430 | In the bits of the header: compression method 8, no preset dictionary, and a multiple of 31. |
| `Inflate.ZBuf.ParseZlib` | externals/stb/stb_image.h:4460-4486 | Succeeds exactly when the header is good and a complete stream stands after it whose output fits and in which the reader does not starve, and then with what the stream stands for. |
| `Inflate.ZlibDecode` | externals/stb/stb_image.h:4498-4545 | For every input: a result is what the stream stands for under RFC 1951, dynamic blocks included, and there is one if and only if the header is good and a complete stream stands after it whose output fits and in which the reader does not starve. |
| `DynamicBlock.StepMeans` | externals/stb/stb_image.h:4357-4382 | A step of the list of code lengths appends one length, 3 to 6 copies of the length before it, 3 to 10 zeros or 11 to 138 zeros, and changes nothing else. |
| `DynamicBlock.RunLengthRoundTrip` | externals/stb/stb_image.h:4357-4382 | The steps that a run-length coder with all four kinds of steps makes for a list of lengths list exactly these lengths. |
| `DynamicBlock.HeaderDeclares` | externals/stb/stb_image.h:4338-4386 | For any two codes that satisfy the Kraft inequality the header built by that coder is valid and declares exactly these codes. |
| `DynamicBlock.DynamicRoundTrip` | externals/stb/stb_image.h:4338-4386 | Any data, written as tokens in a dynamic block under any two codes that have codes for what is used, are given back by the reader. |
| `Reading.LengthsFollow` | externals/stb/stb_image.h:4281-4293 | The lengths of the length symbols follow each other without gap or overlap from 3 to 258. |
| `Reading.DistancesFollow` | externals/stb/stb_image.h:4281-4293 | So do the distances, from 1 to 32768. |
| `Reading.LengthsAlternate` | externals/stb/stb_image.h:4340-4340 | The order of the code length codes: the run symbols, 0, 8, and then alternately the next shorter and the next longer length. |
| `Buffering.EnoughInput` | externals/stb/stb_image.h:4199-4257 | With two more bytes of input after the last bit the reader starves nowhere. |
| `Reading.TwoBytesAfter` | externals/stb/stb_image.h:4240-4257 | So every complete stream with two more bytes after it, and room for its output, is decoded. |
| `Inflate.ZerosComplete` | externals/stb/stb_image.h:4295-4336 | The four bytes 63 60 00 00 hold a complete stream of two zero bytes. |
| `Inflate.RefusesTwoZeros` | externals/stb/stb_image.h:4240-4257 | The reader refuses that stream, because no byte follows it. |
| `Deflate.Countm` | externals/stb/stb_image_write.h:859-865 | The length of the longest common prefix, at most 258. |
| `Deflate.FindMatch` | externals/stb/stb_image_write.h:924-934 | Finds the longest match in the chain within the window, and of several the latest entered; none exactly when the chain holds no match of three bytes. |
| `Deflate.BetterNext` | externals/stb/stb_image_write.h:941-954 | The lazy-matching test says exactly whether the chain of the next byte holds a longer match. |
| `Deflate.ChainIsLatest` | externals/stb/stb_image_write.h:934-939 | A chain is the latest positions with its hash, in order: all of them, or more than the quality says and at most twice as many. |
| `Deflate.Writer.Enter` | externals/stb/stb_image_write.h:934-939 | After a position has joined its chain, every chain of the table is that of the positions visited so far. |
| `Deflate.ZhashSample` | externals/stb/stb_image_write.h:867-877 | The hash of the bytes 1, 0, 0 and the chain that it selects. |
| `Deflate.CopyIsSame` | externals/stb/stb_image_write.h:957-966 | Copying from where the data repeat reproduces the data, also when source and target overlap. |
| `Deflate.Writer.Add` | externals/stb/stb_image_write.h:839-847 | Appends the bits of a number to the bits written so far; the bit buffer never overflows. |
| `Deflate.Writer.Huff` | externals/stb/stb_image_write.h:882-889 | Appends the fixed code of a symbol. |
| `Deflate.Writer.WriteMatch` | externals/stb/stb_image_write.h:957-966 | Appends the bits of a length and distance token of the fixed code. |
| `Deflate.Writer.FindLength` | externals/stb/stb_image_write.h:960-960 | The table search finds the length symbol whose range holds the length. |
| `Deflate.Writer.FindDistance` | externals/stb/stb_image_write.h:963-963 | The table search finds the distance symbol whose range holds the distance. |
| `Deflate.Writer.CompressStep` | externals/stb/stb_image_write.h:922-971 | The token written next is the longest match in the chain of this position, unless there is none or the chain of the next position holds a longer one, and then a literal; it emits the next bytes of the data, and the chains stay those of the positions visited. |
| `Deflate.Writer.WriteFixed` | externals/stb/stb_image_write.h:911-978 | The output is one fixed block whose tokens expand to the data, padded to a byte; every token is the one that the hash chains, built from the positions visited before it, and lazy matching choose. |
| `Deflate.Writer.AppendRaw` | externals/stb/stb_image_write.h:995-996 | The unchecked copy stays within the allocated buffer. |
| `Deflate.Writer.StoreInstead` | externals/stb/stb_image_write.h:985-998 | The fallback writes stored blocks that hold the data, within the capacity that the compressed form had needed. |
| `Deflate.StoredFormLength` | externals/stb/stb_image_write.h:985-998 | The stored form is never longer than the bound that triggers it. |
| `Adler32.ComputeAdler` | externals/stb/stb_image_write.h:1001-1011 | The sums reduced once per 5552 bytes are the Adler-32 checksum of section 8.2 of RFC 1950 for every length, also when the first part is empty. |
| `Adler32.AdlerClosed` | externals/stb/stb_image_write.h:1001-1011 | The checksum in closed form: one plus the sum of the bytes, and their number plus the sum weighted by the distance from the end, modulo 65521. |
| `Adler32.TrailerValue` | externals/stb/stb_image_write.h:1012-1016 | The four trailer bytes, most significant first, are those two numbers. |
| `Adler32.SumBlock` | externals/stb/stb_image_write.h:1006-1007 | Within one part the 32-bit sums do not overflow. |
| `ZlibRoundTrip.ZlibCompress` | externals/stb/stb_image_write.h:895-1022 | For nonempty data the result is a zlib stream of the data with the right checksum; its tokens are the ones chosen from the hash chains, unless their form is longer than the bound, and exactly then the stored form takes its place; for empty data it is a header and a trailer with no block. |
| `ZlibRoundTrip.DecodeStream` | externals/stb/stb_image.h:4498-4530 | The reader gives back the data of every zlib stream; the four trailer bytes keep its end-of-input test from firing. |
| `ZlibRoundTrip.EmptyUnreadable` | externals/stb/stb_image_write.h:985-1016 | What is written for empty data is not a stream of anything. |
| `ZlibRoundTrip.RoundTrip` | externals/stb/stb_image_write.h:895-1022 | Compressing at any quality and decoding gives the data back if and only if there are any. |
| `PngFilter.FilterRoundTrip` | externals/stb/stb_image_write.h:1092-1126 | Reconstruction undoes filtering for every filter type, row and row above. |
| `PngFilter.PaethNearest` | externals/stb/stb_image.h:4636-4645 | The Paeth predictor is the one of left, above and upper left that is nearest to left plus above minus upper left, and on a tie the first of them in this order. |
| `PngFilter.PredictorIs` | externals/stb/stb_image_write.h:1105-1125 | The five predictors: nothing, left, above, their average rounded down, and the nearest to their sum minus the upper left byte. |
| `PngFilter.FilteredMeans` | externals/stb/stb_image_write.h:1105-1125 | A filtered byte and the prediction from the bytes left, above and upper left, which are zero outside the image, add up to the byte of the row modulo 256. |
| `PngFilter.EncodeLine` | externals/stb/stb_image_write.h:1092-1126 | The line is the filtered row that the PNG specification prescribes, also through the first-row variants. |
| `PngFilter.ChooseFilter` | externals/stb/stb_image_write.h:1148-1172 | The forced filter, or the first of those with the smallest sum of absolute values. |
| `PngFilter.UnfilterRow` | externals/stb/stb_image.h:4692-4745 | The row loop computes the specification's reconstruction, also through the first-row variants. |
| `PngFilter.UnfilterRowAlpha` | externals/stb/stb_image.h:4692-4762 | The path with one more output component computes the same samples with 255 after each pixel. |
| `PngFilter.WithAlphaAt` | externals/stb/stb_image.h:4745-4762 | On that path every pixel keeps its bytes and has 255 after them. |
| `PngImage.FilterImage` | externals/stb/stb_image_write.h:1145-1174 | All rows with their filter bytes; every row has the forced filter, or the first of the filters with the smallest sum for it. |
| `PngImage.UnfilterImage` | externals/stb/stb_image.h:4674-4772 | Delivers the specification's reconstruction of all rows, and refuses exactly too little data or a bad filter type. |
| `PngImage.EncodedRoundTrip` | externals/stb/stb_image_write.h:1145-1174 | Reading what was written restores the image for every choice of filters, whatever follows it. |
| `PngImage.PngRoundTrip` | externals/stb/stb_image_write.h:1128-1178 | Filtering, compressing, decompressing and unfiltering restores the image, with or without added alpha. |
| `GifLzw.Gif.OutCode` | externals/stb/stb_image.h:6653-6664 | Following the prefix links emits the string of a code; every link of a code in use points to a smaller one, so the recursion ends. |
| `GifLzw.SpellsNew` | externals/stb/stb_image.h:6748-6757 | A new entry of the linked table spells the string of the old code and one more byte, also for the code that is being defined. |
| `GifLzw.Gif.HandleCode` | externals/stb/stb_image.h:6728-6771 | One code takes the step of a decoder that stores whole strings. |
| `GifLzw.Gif.ProcessRaster` | externals/stb/stb_image.h:6690-6773 | On a table with any content, zeroed or left by an earlier frame, the decoder emits exactly what the decoder that stores whole strings makes of the concatenated sub-blocks, fails exactly when that one does, and has drawn what it emitted in raster order. |
| `GifLzw.Gif.BeginFrame` | externals/stb/stb_image.h:6856-6878 | An image descriptor sets the cursor before the first place of its drawing order. |
| `GifLzw.Gif.LoadFrame` | externals/stb/stb_image.h:6844-6892 | After a frame the canvas is the old one with the decoded colours painted along the drawing order; it fails exactly when the data cannot be decoded. |
| `GifLzw.Gif.LoadFrames` | externals/stb/stb_image.h:6977-6990 | The same for any number of frames decoded one after the other with one table. |
| `GifEncoder.SizeIsLeast` | externals/stb/stb_image.h:6762-6765 | In every state that the decoder reaches, the code size is the least number of bits in which the next table entry has a code, cut off at 12. |
| `GifEncoder.StepRefuses` | externals/stb/stb_image.h:6731-6769 | A code is refused exactly when no clear code came before it, when it lies beyond the next code to be defined or is that one without a string before it, or when the table is full. |
| `GifEncoder.FirstCodeClears` | externals/stb/stb_image.h:6740-6743 | Data whose first code is neither the clear code nor the end code are refused. |
| `GifEncoder.LzwRoundTrip` | externals/stb/stb_image.h:6690-6773 | The decoder gives back every sequence of colours that a textbook LZW encoder, which widens its codes by the size of its table, has encoded. |
| `GifEncoder.RasterDecoded` | externals/stb/stb_image.h:6690-6773 | The same through the code size byte and the sub-blocks. |
| `GifEncoder.FrameRoundTrip` | externals/stb/stb_image.h:6844-6892 | A frame that was encoded is drawn: every colour goes to its place in the drawing order. |
| `GifLzw.Gif.Draw` | externals/stb/stb_image.h:6665-6688 | A colour goes to the next place of the drawing order, transparent ones leave no trace, and nothing is drawn once the image is full. |
| `GifLzw.Gif.NextRow` | externals/stb/stb_image.h:6675-6687 | Going to the next row, through the passes of an interlaced image, leaves the cursor before the next place of the drawing order. |
| `GifRaster.FrameOrderComplete` | externals/stb/stb_image.h:6665-6688 | In plain and in interlaced order every pixel of the frame is drawn exactly once and nothing else is. |
| `GifRaster.RowOrderInOrder` | externals/stb/stb_image.h:6675-6687 | Rows are drawn from top to bottom; in an interlaced image first every eighth row, then those in the middle between them, and so on to the odd rows, in each pass from top to bottom. |
| `GifRaster.FrameOrderAt` | externals/stb/stb_image.h:6665-6688 | In every row of that order the colours go from left to right. |
| `GifRaster.PaintShows` | externals/stb/stb_image.h:6666-6673 | A place of the canvas shows the colour drawn there if it is visible, and what it showed before otherwise. |
| `JpegHuffman.BuildHuffman` | externals/stb/stb_image.h:2001-2044 | Accepts the counts exactly when they name at most 256 symbols and satisfy the Kraft inequality; the tables then hold the canonical code. |
| `JpegHuffman.SortedSlot` | externals/stb/stb_image.h:2006-2030 | In the size list the place of a symbol is its rank by length and order. |
| `JpegHuffman.LookupExact` | externals/stb/stb_image.h:2095-2144 | A window that begins with a code is looked up as its symbol with its length, if and only if the symbol is not number 255 with a code of at most nine bits, whose entry reads as the flag for long codes. |
| `JpegHuffman.FlagClash` | externals/stb/stb_image.h:2031-2043 | A table that can be declared has such a symbol: 255 codes of eight bits and one of nine satisfy the Kraft inequality, and bits that begin with the code of the last symbol are looked up as symbol 254 with ten bits, against the assertion of the decoder. |
| `JpegHuffman.LookupNone` | externals/stb/stb_image.h:2121-2129 | A window that begins with no code is not found. |
| `JpegTables.BuildFastAc` | externals/stb/stb_image.h:2048-2071 | Every fast_ac entry packs the run, value and total length that nine bits determine, or is zero. |
| `JpegTables.FastAcMeaning` | externals/stb/stb_image.h:2048-2071 | A nonzero fast_ac entry says what decoding a symbol and receiving its value would give. |
| `JpegTables.LookupReads` | externals/stb/stb_image.h:2095-2144 | A lookup is the plain decoder's symbol. |
| `JpegBits.UnstuffStuff` | externals/stb/stb_image_write.h:1258-1263 | Taking stuffed zeros out gives the bytes back, up to the marker that follows. |
| `JpegReader.NextData` | externals/stb/stb_image.h:2075-2087 | What a byte, or a byte after 0xFF and fill bytes, says about the data: one data byte, or the end at a marker. |
| `JpegReader.Reader.GrowBuffer` | externals/stb/stb_image.h:2073-2089 | In every reachable state the buffer is exactly the next bits of the data without stuffing; how many bytes it takes in, and that it stops at a marker once and feeds zeros from then on, is stated exactly. |
| `JpegEnding.GrowFine` | externals/stb/stb_image.h:2073-2089 | After filling, more than 24 bits are buffered or all data are. |
| `JpegReader.Reader.HuffDecode` | externals/stb/stb_image.h:2095-2144 | Returns the symbol at the current bit, and -1 exactly when no code stands there or its bits are not buffered, also at the end of the data. |
| `JpegReader.Reader.SlowDecode` | externals/stb/stb_image.h:2114-2143 | The search by length gives the symbol at the current bit; the assertion about its code holds. |
| `JpegReader.Reader.ExtendReceive` | externals/stb/stb_image.h:2151-2164 | Returns the signed value at the current bit, also when zeros after the data complete it, and 0 exactly when too few bits are buffered. |
| `JpegReader.Reader.AcStep` | externals/stb/stb_image.h:2230-2259 | For every input a turn of the coefficient loop is one step of the table-free decoder that counts buffered bits, through the fast_ac table as well. |
| `JpegReader.Reader.DecodeBlock` | externals/stb/stb_image.h:2208-2261 | For every input, also one that ends inside the block, block, prediction and failure are those of the table-free decoder that counts buffered bits. |
| `JpegEnding.AcSame` | externals/stb/stb_image.h:2228-2259 | As far as the data go, the decoder that counts buffered bits reads what the plain decoder reads, and fails where that one finds an error. |
| `JpegEnding.ScanSame` | externals/stb/stb_image.h:2947-3007 | The same for a whole scan. |
| `JpegReader.Reader.Reset` | externals/stb/stb_image.h:2934-2945 | Reading starts anew at the current byte with all predictions zero. |
| `JpegReader.Reader.NextInterval` | externals/stb/stb_image.h:2999-3003 | After a restart interval the scan goes on exactly when the marker that ends the data has been met and is a restart marker, and then just after it. |
| `JpegReader.Reader.DecodeMcu` | externals/stb/stb_image.h:2983-2996 | The blocks of an MCU continue the scan. |
| `JpegReader.McuOrder` | externals/stb/stb_image.h:2983-2996 | The order of the blocks in an MCU from the sampling factors. |
| `JpegReader.Reader.DecodeScan` | externals/stb/stb_image.h:2947-3007 | For every input and restart interval the blocks are those of the intervals decoded one by one between restart markers, and the scan fails exactly when one of them does; where no restart marker follows, the rest stays undecoded. |
| `JpegReader.Reader.ParseEntropyCodedData` | externals/stb/stb_image.h:2947-3007 | The same with the order of the blocks in an MCU and the number of MCUs derived from the frame header. |
| `JpegEnding.MeetsMarker` | externals/stb/stb_image.h:2999-3003 | When less than a byte of an interval is left, the look for a restart marker meets the marker that ends it, and goes on exactly if it is one. |
| `JpegRestart.RestartsRead` | externals/stb/stb_image.h:2934-3007 | MCUs coded in groups of exactly r, each group padded, stuffed and followed by a restart marker, and the last by the end of the image, are read as what was coded when markers are looked for every r MCUs. |
| `JpegRestart.RestartRoundTrip` | externals/stb/stb_image.h:2934-3007 | With restart interval r the reader returns every coefficient of such a scan times its scale, if and only if it accepts the DC coefficients of all groups. |
| `JpegFrame.FindGrid` | externals/stb/stb_image.h:3298-3322 | The number of MCUs across and down, or of blocks in a scan of one component, from image size and sampling factors. |
| `JpegFrame.GridCovers` | externals/stb/stb_image.h:3311-3317 | The MCUs cover the image, and one row or column less would not. |
| `JpegFrame.SingleCovers` | externals/stb/stb_image.h:2956-2961 | In a scan of one component its blocks cover the component, whose size is that of the image times its sampling factor over the largest one, and one row or column less would not. |
| `JpegFrame.RoundsCeil` | externals/stb/stb_image_write.h:1534-1535 | The writer's loops over rows and columns run as often as the image size divided by the step, rounded up. |
| `JpegEnding.OneInterval` | externals/stb/stb_image.h:2941-2941 | Without restart interval a scan of up to 2^31 - 1 MCUs is a single interval. |
| `JpegFormat.ExtendValue` | externals/stb/stb_image.h:2146-2164 | Receive-and-extend undoes the coding of a signed value. |
| `JpegFormat.MulValidExact` | externals/stb/stb_image.h:1076-1082 | The test that a product of shorts fits is exact if and only if the factors are not both negative, or happen to lie on its wrong-way comparison. |
| `JpegFormat.MulValidWrong` | externals/stb/stb_image.h:1076-1082 | It refuses the product 2 of -1 and -2 and accepts the product 65536 of -32768 and -2. |
| `JpegFormat.AddValidExact` | externals/stb/stb_image.h:1068-1073 | The test whether a sum of integers fits is exact. |
| `JpegFormat.ToShortWraps` | externals/stb/stb_image.h:2225-2225 | A coefficient is stored as the 16-bit signed number that differs from it by a multiple of 65536. |
| `JpegZigZag.Inverse` | externals/stb/stb_image_write.h:1250-1251 | The writer's zigzag order and the reader's are inverse to each other. |
| `JpegZigZag.ZigZagWalk` | externals/stb/stb_image.h:2191-2205 | The order walks along the anti-diagonals of the block in alternating direction, beginning at the upper left; places past its end are the last one. |
| `JpegBlock.ReadAcBack` | externals/stb/stb_image_write.h:1366-1394 | The plain decoder reads back every coefficient: zero runs, runs of sixteen and the end of the block. |
| `JpegBlock.ReadBlockBack` | externals/stb/stb_image_write.h:1355-1395 | The plain decoder reads a block back, or refuses it exactly when it takes the DC coefficient times its scale not to fit. |
| `JpegBlock.ReadScanBack` | externals/stb/stb_image_write.h:1522-1594 | The plain decoder reads a scan of blocks of several components back. |
| `JpegWriter.CalcBits` | externals/stb/stb_image_write.h:1318-1326 | The size category of a value and its value bits. |
| `JpegWriter.Writer.WriteBits` | externals/stb/stb_image_write.h:1253-1268 | Appends the code to the bits written so far; the output is those bits in bytes with stuffing. |
| `JpegWriter.Writer.WriteAc` | externals/stb/stb_image_write.h:1366-1394 | Writes exactly the bits of the coefficients. |
| `JpegWriter.Writer.ProcessDU` | externals/stb/stb_image_write.h:1343-1396 | Writes the bits of a block: zigzag order, DC difference, other coefficients. |
| `JpegWriter.Writer.WriteScan` | externals/stb/stb_image_write.h:1522-1602 | The output is the stuffed bits of all blocks, filled up to a byte, and the end marker. |
| `JpegRoundTrip.RoundTrip` | externals/stb/stb_image_write.h:1355-1602 | For all blocks in baseline range and code tables that are the canonical codes of the declared ones, the reader returns every coefficient times its scale, if and only if it accepts the DC coefficients. |
| `JpegStandard.TableCanonical` | externals/stb/stb_image_write.h:1400-1462 | A code table all of whose entries lie at their counted places holds the canonical codes of the declared lengths and symbols. |
| `JpegStandard.WhichCanonical` | externals/stb/stb_image_write.h:1400-1462 | Each of the writer's four tables is canonical for its declaration and has codes for all symbols that baseline blocks use. |
| `JpegStandard.StandardRoundTrip` | externals/stb/stb_image_write.h:1355-1602 | With the writer's own tables and the reader's tables built from their declarations the round trip holds for all blocks in baseline range, without further hypotheses on the tables. |
| `JpegStandard.McusInOrder` | externals/stb/stb_image_write.h:1533-1594 | The MCUs that the reader derives from the declared sampling factors list the components in the writer's order, with and without subsampling. |
| `JpegStandard.SameGrid` | externals/stb/stb_image_write.h:1534-1535 | The reader expects as many MCUs as the writer's loops visit, for every image size, with and without subsampling. |
| `JpegStandard.ImageRoundTrip` | externals/stb/stb_image_write.h:1522-1602 | The round trip for every image size, in the writer's order and with the number and order of blocks that the reader derives from the frame header. |
| `JpegRoundTrip.DcAcceptance` | externals/stb/stb_image.h:2221-2226 | Which DC coefficients the reader accepts, for every 16-bit scale and every coefficient: both count as 16-bit signed numbers. |
| `JpegRoundTrip.DcTestRight` | externals/stb/stb_image.h:1076-1082 | That is right about the product if and only if, for scales below 0x8000, the coefficient has 16 bits or the scale is zero or the coefficient cut to 16 bits does not fit either; for larger scales, if the product fits because the coefficient is 0, or -1 with 0x8000, or the coefficient is refused. |
| `JpegRoundTrip.ScaledByOne` | externals/stb/stb_image.h:2226-2257 | With all scales 1 the coefficients come back unchanged. |
| `Tga.NextPacket` | externals/stb/stb_image_write.h:560-588 | A run begins where two equal pixels stand and takes in all that follow, up to 128; otherwise raw pixels follow up to 128, the end of the row, or the middle of three pixels whose outer ones are equal. |
| `Tga.WriteImage` | externals/stb/stb_image_write.h:548-606 | The packets written expand to the rows in file order with blue first, and every row is cut into packets by that rule. |
| `Tga.ReadPackets` | externals/stb/stb_image.h:5969-6024 | For every input, also one that ends early, the packet loop delivers the pixels that the packets from the start position stand for, across row ends as well. |
| `TgaFormat.UnpackCoded` | externals/stb/stb_image.h:5969-6024 | Where coded packets stand, the pixels read are their expansion. |
| `Tga.Invert` | externals/stb/stb_image.h:6025-6041 | The exchange of rows from both ends turns the image upside down. |
| `Tga.Load` | externals/stb/stb_image.h:5969-6060 | For every input the image is those pixels in rows, turned upside down, with red and blue exchanged. |
| `Tga.RoundTrip` | externals/stb/stb_image_write.h:532-606 | For every image of 1 to 4 components reading what was written restores it; with the flip flag it comes back upside down. |
| `Hdr.FindRun` | externals/stb/stb_image_write.h:726-735 | The first place where three equal bytes begin. |
| `Hdr.WritePlane` | externals/stb/stb_image_write.h:722-754 | The nested loops end and write chunks of lengths that the reader accepts, which expand to the plane; no three equal bytes begin inside a dump, and dumps and runs go on as far as they can. |
| `Hdr.ReadPlane` | externals/stb/stb_image.h:7258-7277 | Succeeds exactly when chunks for a plane of this width stand in the input, and returns what they expand to. |
| `Hdr.ReadScanline` | externals/stb/stb_image.h:7229-7277 | A scanline header with the right length and four planes, plain pixels, or an error exactly when the length is wrong or no such planes stand there. |
| `Hdr.RoundTrip` | externals/stb/stb_image_write.h:672-757 | Every scanline of 8 to 32767 pixels is read back, whatever stands before and after it. |
| `AlphaBlock.CompressAlpha` | externals/stb/stb_dxt.cpp:690-745 | The block holds the extreme values and, three bits each, the index chosen for every pixel. |
| `AlphaBlock.ChooseIndex` | externals/stb/stb_dxt.cpp:711-735 | The comparisons and the index permutation select the level of the value. |
| `AlphaBlock.LevelNearest` | externals/stb/stb_dxt.cpp:711-734 | Of the eight truncated levels the chosen one is nearest and at most half of a seventh of the range, rounded up, away. |
| `AlphaBlock.PaletteDivides` | externals/bc_decoder/bc_decoder.cpp:111-130 | The decoder's palette divides the way between the endpoints into seven parts, rounded down; when the first is not the larger one into five parts, with 0 and 255 after them. |
| `AlphaBlock.ChoiceIsNearest` | externals/bc_decoder/bc_decoder.cpp:111-130 | The chosen entry of the decoder's palette is a nearest one, and exact when the range is below 8, also when the decoder switches to six levels. |
| `AlphaBlock.DecodedNearest` | externals/bc_decoder/bc_decoder.cpp:111-145 | The same for every pixel of a compressed block as the decoder reads it. |
| `ColorFormat.EntryAlpha` | externals/bc_decoder/bc_decoder.cpp:18-40 | Only entry 3 of the three-colour mode is transparent. |
| `ColorFormat.FlippedMask` | externals/stb/stb_dxt.cpp:236-244 | Inverting the even mask bits exchanges the indices 0 and 1, and 2 and 3. |
| `ColorBlock.PalettesAgree` | externals/stb/stb_dxt.cpp:138-149 | The compressor measures against the colours that the decoder produces, in both modes. |
| `ColorBlock.As16OfFrom16` | externals/stb/stb_dxt.cpp:82-102 | Expanding a 16-bit colour and quantising it again gives it back. |
| `ColorBlock.Mul8BitRounds` | externals/stb/stb_dxt.cpp:82-87 | Quantising a colour component gives the number nearest to its share of the smaller range. |
| `ColorBlock.Match4Nearest` | externals/stb/stb_dxt.cpp:152-192 | The index of a pixel selects the palette entry that is nearest on the line between the endpoints. |
| `ColorBlock.Match3Nearest` | externals/stb/stb_dxt.cpp:194-224 | In blocks with transparency that is so if and only if the pixel is not on the side of the second endpoint, or the endpoints project to one point. |
| `ColorBlock.Match3Wrong` | externals/stb/stb_dxt.cpp:210-221 | With a black and a white endpoint a white pixel is given the black entry. |
| `ColorBlock.OptimizeColors` | externals/stb/stb_dxt.cpp:331-350 | The endpoints are the quantised colours of two pixels that are extreme along the axis. |
| `ColorBlock.OptimizeColorsAlpha` | externals/stb/stb_dxt.cpp:447-490 | The endpoints are the quantised colours of pixels that are extreme along the axis among the opaque ones, made different and put in the order that keeps the three-colour mode, for any axis. |
| `ColorBlock.Refine` | externals/stb/stb_dxt.cpp:527-614 | Puts the solved endpoints in order; when it reports no change the endpoints are the old ones. |
| `ColorBlock.CompressOpaque` | externals/stb/stb_dxt.cpp:647-674 | The endpoints are the extreme colours along the axis or the pair that the last refinement that changed something solved, and the indices are those for them; equal endpoints never meet index 3 and every pixel has a nearest entry. |
| `ColorBlock.Finalize` | externals/stb/stb_dxt.cpp:236-244 | Putting the larger endpoint first keeps the decoded colour of every pixel; endpoints and indices are exchanged exactly when they were in the other order. |
| `ColorBlock.Compress` | externals/stb/stb_dxt.cpp:617-687 | For any axis and refinement results: which endpoints and which indices are written; without alpha every pixel decodes opaque, and with alpha exactly the pixels of alpha 0 decode transparent. |
| `Getopt.Exchange` | externals/getopt/getopt.c:72-107 | Exchanging the blocks by swaps is exactly a rotation of two adjacent blocks. |
| `GetoptSpec.Partition` | externals/getopt/getopt.c:146-186 | Options with their arguments and operands together are the command line, each argument as often as before. |
| `Getopt.Scanner.constructor` | externals/getopt/getopt.c:108-128 | The leading character of the option string and the environment choose the ordering. |
| `Getopt.Scanner.FindLong` | externals/getopt/getopt.c:201-225 | An exact long name wins, otherwise an abbreviation that does not stand for differing options. |
| `Getopt.Scanner.ShortOption` | externals/getopt/getopt.c:317-475 | One short option: its result, its argument and the character of a complaint, and whether the command-line argument is done and the next one taken. |
| `Getopt.Scanner.LongOptionStep` | externals/getopt/getopt.c:187-316 | One long option, with the value that a complaint leaves in optopt, or that the text is left for the short options. |
| `Getopt.Scanner.Element` | externals/getopt/getopt.c:187-475 | Result, argument, complaint and progress of one option, long first and then short as the settings say. |
| `Getopt.Scanner.Advance` | externals/getopt/getopt.c:149-161 | Between arguments the options found move before the operands, and following operands are stepped over. |
| `Getopt.Scanner.EndOptions` | externals/getopt/getopt.c:162-171 | A double dash joins the options, and everything after it the operands. |
| `Getopt.Scanner.Next` | externals/getopt/getopt.c:129-475 | In every ordering a call reports the next element of the command line with its argument and complaint, or that none is left; in permuting order it keeps the scanned arguments sorted into operands and options, and the last call leaves the command line completely sorted; the other orderings do not change it. |
| `Getopt.Scan` | externals/getopt/getopt.c:129-475 | Over a whole permuting scan the options reported, with their arguments and complaints, are a function of the command line alone; the command line becomes its options with their arguments, then its operands, each in their order; it stays a permutation and optind is the first operand. |
| `Getopt.ScanInOrder` | externals/getopt/getopt.c:129-475 | Over a whole scan in the other orderings the command line stays as it is; in the strict one the reports end at the first operand, in the other operands are reported in their places. |
| `GetoptRender.ArityOf` | externals/getopt/getopt.c:317-340 | In an option string spelled from declarations every option has the arity that it was declared with, and every other character is unknown. |
| `GetoptRender.StandsFor` | externals/getopt/getopt.c:201-225 | A long name stands for the first option of that name, or for the only option whose name it begins. |
| `GetoptRender.StandsForSeveral` | externals/getopt/getopt.c:201-240 | A name is ambiguous exactly when it is no option's name and begins the names of two options that differ in argument, flag or value, or of any two when single dashes are allowed. |
| `GetoptRender.LongRefused` | externals/getopt/getopt.c:226-316 | A long name that stands for nothing or not for one option, and an argument given to an option that takes none, are reported as question marks with 0 or the option's value in optopt. |
| `GetoptRender.Rendered` | externals/getopt/getopt.c:129-475 | A command line written according to the declarations, with clustered short options, attached and separate arguments, abbreviated long names, unknown options, a missing last argument and a double dash, is reported as it was meant in every ordering, and its operands are those given. |
| `GetoptRender.ScanRendered` | externals/getopt/getopt.c:129-475 | So a permuting scan of such a command line reports what was meant and leaves the operands at its end in their order. |
| `Getopt.Scanner.ExtensionCall` | externals/getopt/getopt.c:129-437 | With the option string extension "W;" and no long options, a whole call on an argument such as -Wfoo returns 'W' and leaves the command line, optind and the operands found as they were. |
| `Getopt.Scanner.ExtensionRepeats` | externals/getopt/getopt.c:129-437 | So any number of calls return 'W' and none ends the scan. |
| `Getopt.EndlessScan` | externals/getopt/getopt.c:129-437 | The command line prog -Wfoo is such a case. |
| `Adpf.Registry.SyncLocked` | src/common/adpf.cpp:147-173 | What is asked of the system, in which order and until what is granted: to let the session follow the list, else to open a new one, for background threads first without target; the list succeeds exactly when something is granted, the old session is closed only after its replacement was opened, and otherwise stays; nothing is leaked or closed twice, whatever the system answers. |
| `Adpf.Registry.AddLocked` | src/common/adpf.cpp:189-222 | On success the thread is in this list only and the system's session has the threads of the list; on failure, which only refusals of the system bring about, the list is as before. |
| `Adpf.Registry.RemoveLocked` | src/common/adpf.cpp:224-236 | The thread is in no list afterwards, the others stay in order, and the sessions follow if the system grants it. |
| `Adpf.Registry.ShutdownLocked` | src/common/adpf.cpp:281-291 | Everything is closed. |
| `Adpf.Registry.Run` | src/common/adpf.cpp:117-291 | Over any sequence of operations and answers of the system: a thread is in a list exactly when an addition to it succeeded and nothing took it out since; lists are disjoint and without duplicates, with a session exactly for nonempty lists and no others open; if the system never refuses a session with a target, every addition succeeds and every session has exactly the threads of its list. |
| `SvcRegisters.Allocator.Add` | tools/svc_generator.py:306-320 | Takes as many registers as the value has words, in order from the aligned position while parameter registers are left, never one that is taken, and fails exactly when too few are left. |
| `SvcRegisters.Allocator.AddSingle` | tools/svc_generator.py:298-302 | Below the parameter count the register at the counter, which is never taken already; beyond it the first free one, failing exactly when all eight are taken. |
| `SvcRegisters.FullWhenEight` | tools/svc_generator.py:285-295 | All registers are taken exactly when eight have been given out. |
| `SvcRegisters.Assign` | tools/svc_generator.py:334-375 | For every argument list in both bitnesses allocation succeeds exactly when the demand is at most eight registers, no register is given out twice, and there is one list per argument in argument order, in which every word whose ABI position is below the parameter count sits at that position, with inputs of several words at even positions and one position for each output, and the other words in the lowest free register. |
| `SvcRegisters.LaidUnique` | tools/svc_generator.py:334-375 | That determines all registers. |
| `SvcRegisters.GetInfoInputs` | tools/svc_generator.py:334-375 | For the 32-bit inputs of GetInfo it means registers 1, 2 and the pair 0 and 3, as the kernel reads them. |
| `SvcRegisters.WordsCover` | tools/svc_generator.py:306-312 | A value takes the number of registers of its size divided by the register size, rounded up, and at least one. |
| `SessionIds.Ring.Acquire` | src/audio_core/audio_in_manager.cpp:23-32 | Gives out the id that was released longest ago, and fails exactly when all are held. |
| `SessionIds.Ring.Release` | src/audio_core/audio_in_manager.cpp:34-42 | The released id becomes the last free one; free and held ids always partition the range. |

## Left out

- JpegReader.Reader.ParseEntropyCodedData: covers baseline scans and delivers coefficients; parsing of the headers, progressive scans, the inverse transform and where blocks are placed in the image are left out.
- JpegWriter.Writer.ProcessDU: starts from quantised coefficients; colour conversion, the transform and quantisation are floating point.
- ZlibRoundTrip.RoundTrip: covers data of up to 2^31 - 1 bytes, the range of the source's length parameter; arithmetic on lengths close to that limit is not modelled with overflow.
- Inflate.ZlibDecode: takes allocation as always successful.
- Inflate.ZBuf.Decode: takes the bit reversal of the code buffer by its meaning, not by the mask network of the source.
- PngFilter.ChooseFilter: states that the choice has the smallest sum for rows of up to 2^24 - 1 bytes; beyond that the source's sum may pass its starting value.
- PngImage.UnfilterImage: covers 8-bit samples without interlacing; other depths, palettes, checksums and chunk structure are left out.
- GifLzw.Gif.LoadFrame: draws colour indices; palettes, frame disposal, the background of the first frame and the check of the frame against the screen size are left out. As in the source, the table grows beyond 4096 entries to its array size before an error is reported.
- Tga.RoundTrip: covers run-length images without palette and without 16-bit pixels.
- Hdr.RoundTrip: covers the run-length form of scanlines; the conversion between floating point and bytes, and widths outside 8 to 32767, are left out.
- ColorBlock.Compress: takes the principal axis, the least-squares solutions and the tables for single colours as arbitrary values within their ranges; axis components are at most 1024 in magnitude.
- AlphaBlock.DecodedNearest: states the value of each pixel; clipping at image borders and destination strides of the decoder are left out.
- Getopt.Scanner.ShortOption: requires an option string without the "W;" extension, of which only the branch without long options is modelled; printing of messages and the store through a long option's flag pointer are left out.
- Getopt.Scan: requires an option string without the "W;" extension, with which the scan need not end, and assumes that callers do not change optind between calls.
- Adpf.Registry.Run: treats each locked section as one step; the calls that report durations, pass a new target to an open session and ask for power efficiency, which change no list and no session handle, are left out.
- SIMD kernels, inverse transforms, the BMP, PSD, PIC and PNM loaders, BC6H and BC7 are left out: floating point, intrinsics, or tables settled by enumeration.
