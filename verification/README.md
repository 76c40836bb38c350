# Verified models of FennixProject components

FennixProject is a hobby operating system. Its boot screens and its user interface decode and scale images with two
single-file libraries kept in `include/stb`, and its 32-bit kernel brings its own 64-bit arithmetic and its own
containers. This project models the parts of that code with the most intricate logic and proves what they are for,
for all inputs.

| component | files | main result |
|---|---|---|
| DEFLATE/zlib decoder (`stb_image.h`) | `Bits`, `Canonical`, `ZHuffman`, `Deflate`, `InflateSteps`, `InflateBlocks`, `Inflate` | the decoder undoes every encoding in the format of RFC 1950/1951, and whatever it accepts is, continued with zeros, such an encoding of what it outputs (`Inflate.ZlibDecode`) |
| GIF raster decoder (`stb_image.h`) | `GifLzw`, `GifCursor`, `Gif`, `GifEncode` | symbol for symbol the textbook LZW decoder as long as a table of 8192 entries suffices, painted on exactly the pixels of the frame in the order of the format (`Gif.Raster.ProcessRaster`); every image an LZW encoder can write is shown again (`GifEncode.RasterRoundTrip`) |
| baseline JPEG entropy decoder (`stb_image.h`) | `JpegSpec`, `JpegEncode`, `JpegHuffman`, `JpegScan`, `JpegRoundTrip` | a block decoded with the acceleration tables is the block that the bit-by-bit procedures of ITU-T T.81 give (`JpegScan.Scan.DecodeBlock`); whatever coefficients an encoder writes into the bytes of a restart interval come back, dequantised and in their places (`JpegRoundTrip.IntervalRoundTrip`) |
| PNG rows and interlacing (`stb_image.h`) | `PngFilter`, `PngRows`, `PngUnpack`, `PngAdam7`, `PngInterlaced`, `PngPacked` | decoding undoes packing, filtering and interlacing, in place and for every choice of filters (`PngInterlaced.InterlacedRoundTrip`, `PngPacked.PackedRoundTrip`); packed samples are expanded in place as if into a fresh buffer |
| chroma upsampling (`stb_image.h`) | `Upsample` | the SSE2 row and the scalar row are the same bilinear row |
| vertical resampling (`stb_image_resize.h`) | `ResizeRing`, `ResizeWindow`, `Resize` | the ring of scanlines computes the sums of weighted samples that direct access to all rows would compute |
| 64-bit runtime (`ArithmeticOperations.c`) | `Arith64`, `Arith64Bits` | division, shifts and bit counts equal their mathematical definitions |
| containers (`hashmap.hpp`, `list.h`) | `HashTable`, `RingList` | the table is a finite map exactly as long as no key is added behind a tombstone; any run of operations on rings acts on them as on sequences |

How the models are built:

- Words and bit streams are natural numbers. `Low(x, n)` is the mask and `Shr(x, n)` the shift of C, and
  `Top(x, n)` reads the first `n` bits of a stream with the first bit most significant. Where the C code can wrap
  around, the modulus is written out.
- Code that changes things step by step is a class or a method with its loops; each is proved against a
  specification that does not mention it. Ghost arguments called `want` are arbitrary: a method promises what follows
  if that item comes next in its input, so the promise holds for every possible item. Ghost results called `got` say
  what was read.
- Tables and formulas that both the code and its specification use have laws of their own, and the formats have encoders
  that share no definition with the decoder.
- The file, the allocator and the resampled rows are parameters: input bytes as a sequence, the size at which
  `realloc` fails as a number, a row as a function of its number.
- Five properties turn out false of the code. Each comes with the condition under which it holds, and with an input that
  shows it fail:
  - JPEG tables with 256 symbols and a short last code decode wrongly (`JpegHuffman.Sound`, `JpegHuffman.ClashFails`,
    `JpegHuffman.SlowIndex`; `JpegScan.LastOf256`).
  - A GIF frame with a deferred clear code can be refused (`GifLzw.Overruns`, `Gif.Raster.UseCode`,
    `Gif.Raster.ProcessRaster`; `Gif.RefusedFrame`).
  - Near the end of the input the position of the zlib reader is not kept (`InflateSteps.Over`, `Inflate.ZBuf.FillBits`;
    `Inflate.FirstOfThree`).
  - The loop over the symbols of a dynamic block need not end (`Deflate.ZeroProduces`, `Inflate.ZBuf.ParseSymbol`;
    `Inflate.ZBuf.NoProgress`, `InflateSteps.IdleLengths`).
  - Adding a key to the hash map when its entry lies behind a tombstone doubles it (`HashTable.StepKeeps`,
    `HashTable.AddDoubles`; `HashTable.DoubledKey`).

`dafny verify dfyconfig.toml` checks everything.

## Model

| member | source | states |
|---|---|---|
| Bits.BitReverse16Correct | include/stb/stb_image.h:4049-4056 | the four exchanges of neighbouring groups reverse the low 16 bits of any word |
| Bits.BitReverseCorrect | include/stb/stb_image.h:4058-4064 | `stbi__bit_reverse` reverses the low `bits` bits and ignores the others |
| Canonical.PrefixFree | include/stb/stb_image.h:4080-4109 | no two codes of section 3.2.2 of RFC 1951 start the same stream, for any lengths up to 16 |
| Canonical.CodeInjective | include/stb/stb_image.h:4093-4109 | symbols of the same length have different codes |
| Canonical.EncodedMatches | include/stb/stb_image.h:4093-4109 | a stream that was written with the code of a symbol is recognised as starting with it, and the rest is what follows |
| Canonical.MatchIff | include/stb/stb_image.h:4171-4174 | some code starts the stream exactly when its first 16 bits are below the preshifted limit of the greatest length |
| Canonical.IntervalMatch | include/stb/stb_image.h:4171-4176 | the first 16 bits lie between the limits of two successive lengths exactly at a code of that length, and their distance from the first code is its rank |
| Canonical.FitsIffKraft | include/stb/stb_image.h:4077-4091 | the codes of every length fit in that many bits exactly when the Kraft sum is at most one |
| Canonical.AcceptedIffFits | include/stb/stb_image.h:4086-4087 | the check that is only made for lengths in use decides the same for all lengths |
| ZHuffman.SlotInjective | include/stb/stb_image.h:4093-4109 | every symbol has its own place in the symbol tables |
| ZHuffman.FastDecode | include/stb/stb_image.h:4193-4199 | a nonzero entry of the 9-bit table names the symbol whose code starts the stream, and its length |
| ZHuffman.SlowDecode | include/stb/stb_image.h:4170-4178 | without an entry, the first limit above the reversed bits gives the length of the code that starts the stream, and the distance its place |
| ZHuffman.SlowFail | include/stb/stb_image.h:4170-4174 | no limit above the reversed bits: no code starts the stream |
| ZHuffman.Tables.constructor | include/stb/stb_image.h:4039-4047 | tables of the declared sizes, all separate |
| ZHuffman.Tables.CountSizes | include/stb/stb_image.h:4071-4076 | how many symbols have each length |
| ZHuffman.Tables.SizesOk | include/stb/stb_image.h:4077-4079 | the check that no length has more symbols than words |
| ZHuffman.Tables.AssignRows | include/stb/stb_image.h:4080-4092 | first code, preshifted limit and first symbol of every length; fails exactly when a length in use does not fit |
| ZHuffman.Tables.FillFast | include/stb/stb_image.h:4100-4106 | exactly the 9-bit words that start with the reversed code get the entry of the symbol |
| ZHuffman.Tables.AssignSymbols | include/stb/stb_image.h:4093-4109 | sizes and values by place, and the whole 9-bit table |
| ZHuffman.Tables.Build | include/stb/stb_image.h:4066-4111 | `stbi__zbuild_huffman` succeeds exactly when the Kraft sum is at most one, and then holds the tables of the canonical code |
| Deflate.CopyBackPeriodic | include/stb/stb_image.h:4270-4276 | copying byte by byte from `dist` back repeats the last `dist` bytes periodically, overlapping or not |
| Deflate.FixedFits | include/stb/stb_image.h:4374-4389 | the fixed length and distance codes are complete codes |
| Deflate.LengthTable | include/stb/stb_image.h:4225-4231 | the length tables by the rule of section 3.2.5 of RFC 1951: eight symbols without extra bits, then four for every number of them, each base behind the last length before it, and length 258 apart |
| Deflate.DistanceTable | include/stb/stb_image.h:4233-4237 | the distance tables by the same rule: four symbols without extra bits, then two for every number of them up to 13 |
| Deflate.EveryMatch | include/stb/stb_image.h:4258-4264 | every length from 3 to 258 and every distance from 1 to 32768 has symbols and extra bits |
| Deflate.OneMatch | include/stb/stb_image.h:4258-4264 | and only one choice of them, but for length 258, which has two; nothing else can be written |
| Deflate.OrderIs | include/stb/stb_image.h:4283 | the order of the code length code: the three repeat codes, 0, and then 8 and its neighbours by growing distance, as a place for each of the 19 |
| Deflate.FixedCodes | include/stb/stb_image.h:4374-4385 | the bits of every literal/length symbol in the fixed code are those of section 3.2.6 of RFC 1951 |
| Deflate.FixedDistanceCodes | include/stb/stb_image.h:4386-4389 | so are those of the distance symbols |
| Deflate.SymUnique | include/stb/stb_image.h:4193-4199 | a stream starts with the code of at most one symbol |
| Inflate.ZBuf.constructor | include/stb/stb_image.h:4431-4439 | the state at the start of `stbi__do_zlib` |
| Inflate.ZBuf.Get8 | include/stb/stb_image.h:4133-4141 | the next byte, zero at the end of the input |
| Inflate.ZBuf.AddByte | include/stb/stb_image.h:4150-4151 | one byte, or a zero at the end of the input, on top of the buffer: the pending stream stays |
| Inflate.ZBuf.FillBits | include/stb/stb_image.h:4143-4153 | on a buffer without stray bits the pending stream stays and whole bytes are added until more than 24 bits are there; the bits available stay the same exactly when they suffice for that, and otherwise are exactly those of the filled buffer; a buffer with stray bits goes to the end of the input |
| Inflate.ZBuf.Receive | include/stb/stb_image.h:4155-4163 | the next `n` bits, least significant first, and nothing else is consumed; exactly how many bits are buffered and available afterwards |
| Inflate.FirstOfThree | include/stb/stb_image.h:4143-4163 | near the end of the input the position is not kept: in any three-byte input, after the first bit it is eight bits too low |
| Inflate.ZBuf.DecodeSlowPath | include/stb/stb_image.h:4165-4182 | the symbol whose code starts the stream, consumed exactly; -1 exactly when none does; the two defensive failures are never taken |
| Inflate.ZBuf.Decode | include/stb/stb_image.h:4184-4201 | the same for both paths together, with the exact number of bits buffered afterwards; -1 exactly when no code matches or fewer than 16 bits are buffered at the end of the input |
| Inflate.ZBuf.ZExpand | include/stb/stb_image.h:4203-4223 | the output is kept, the size doubles until it suffices, and it fails exactly when the output may not grow or the allocator has no block of that size |
| Inflate.ZBuf.PutLiteral | include/stb/stb_image.h:4246-4250 | one byte appended, growing the output if needed |
| Inflate.ZBuf.CopyRun | include/stb/stb_image.h:4271-4273 | the shortcut for distance 1 is the general copy |
| Inflate.ZBuf.CopyForward | include/stb/stb_image.h:4274-4276 | the byte loop, overlapping or not; what was written before stays |
| Inflate.ZBuf.CopyMatch | include/stb/stb_image.h:4266-4276 | both together, growing the output if needed |
| Inflate.ZBuf.ReadDistance | include/stb/stb_image.h:4261-4264 | exactly the distance that is encoded next |
| Inflate.ZBuf.ReadMatch | include/stb/stb_image.h:4258-4264 | length and distance of exactly the match that is encoded next, for symbols and extra bits of which `Deflate.EveryMatch` and `Deflate.OneMatch` say what they stand for |
| Inflate.ZBuf.ParseMatch | include/stb/stb_image.h:4258-4276 | a match that was carried out reaches no further back than the output, and a legal match that is encoded next is carried out exactly when the output can hold it |
| Inflate.ZBuf.UseSymbol | include/stb/stb_image.h:4244-4277 | what is done with a symbol: a literal, a match or the end of the block |
| Inflate.ZBuf.ParseSymbol | include/stb/stb_image.h:4242-4277 | one literal, match or end of block: what was read and written, that what is encoded next is read, and progress unless the zero code is that of a length symbol without a meaning |
| Inflate.ZBuf.NoProgress | include/stb/stb_image.h:4242-4278 | the loop need not end: with 17 zero bits buffered at the end of the input, length symbol 286 on the one-bit zero code, distance symbol 29 on the ten-bit zero code and 24577 bytes written, any number of turns changes nothing |
| InflateSteps.IdleLengths | include/stb/stb_image.h:4289-4328 | the code lengths with only symbol 286, of one bit, and only distance symbol 29, of ten bits, are of that kind, and `stbi__zbuild_huffman` accepts them |
| Inflate.ZBuf.ParseHuffmanBlock | include/stb/stb_image.h:4239-4279 | a block of tokens is read back exactly, the output grows by its LZ77 expansion, and the input moves by exactly its length if 25 bits follow; whatever is accepted is such a block, and if its symbols have a meaning its distances are legal and the output has grown by its expansion |
| Inflate.ZBuf.ReadCounts | include/stb/stb_image.h:4289-4292 | the three counts of the header |
| Inflate.ZBuf.ReadClens | include/stb/stb_image.h:4294-4298 | the code length code, in the order of section 3.2.7 of RFC 1951 |
| Inflate.ZBuf.RunExtra | include/stb/stb_image.h:4305-4319 | the repeat count of a run of code lengths |
| Inflate.ZBuf.ReadRun | include/stb/stb_image.h:4303-4319 | one code length or run of code lengths |
| Inflate.ZBuf.StoreRun | include/stb/stb_image.h:4305-4323 | the lengths the run stands for; a repeat with nothing before it and one past the end are refused |
| Inflate.ZBuf.ReadLengths | include/stb/stb_image.h:4301-4325 | all runs, also those that cross from literal to distance lengths |
| Inflate.ZBuf.ComputeHuffmanCodes | include/stb/stb_image.h:4281-4329 | a dynamic header is read back exactly and both tables are those of its code lengths |
| Inflate.ZBuf.StoredHeader | include/stb/stb_image.h:4337-4347 | at most three buffered bytes and then bytes of the input make up the header, and the buffer is empty after it |
| Inflate.ZBuf.StoredSizes | include/stb/stb_image.h:4335-4349 | the padding and the two length words, wherever the bit buffer ends |
| Inflate.ZBuf.ParseUncompressedBlock | include/stb/stb_image.h:4331-4358 | a stored block is read back exactly, whatever its padding bits, and ends on a byte boundary |
| Inflate.ZBuf.ParseFixedBlock | include/stb/stb_image.h:4418-4425 | a block in the fixed codes |
| Inflate.ZBuf.ParseDynamicBlock | include/stb/stb_image.h:4422-4425 | a header and its block; without a verdict exactly when the header gives the zero code to length symbol 286 or 287 |
| Inflate.ZBuf.ParseBlock | include/stb/stb_image.h:4411-4427 | one block of any of the three types, and whether it is the last |
| Inflate.ZBuf.ParseZlibHeader | include/stb/stb_image.h:4360-4372 | accepted exactly when sections 2.2 and 2.3 of RFC 1950 allow it without preset dictionary |
| Inflate.ZBuf.ParseBlocks | include/stb/stb_image.h:4410-4428 | all blocks: round trip and soundness, with the whole reader and output state |
| Inflate.ZBuf.ParseZlib | include/stb/stb_image.h:4403-4429 | with the header: round trip and soundness, and the position behind the last block if 25 bits follow it |
| Inflate.ZlibDecode | include/stb/stb_image.h:4403-4454 | for every list of stored, fixed and dynamic blocks over legal tokens, encoded and followed by at least two bytes, the result is its LZ77 expansion if the output can hold that many bytes and an error otherwise; conversely every accepted input, continued with zeros, starts with the encoding of some blocks, and if their symbols have a meaning all their distances are legal and the result is their expansion |
| GifLzw.ExpandKept | include/stb/stb_image.h:6582-6583 | what a code expands to does not change when entries are added |
| GifLzw.Extended | include/stb/stb_image.h:6670-6678 | the new entry is the last string plus the first symbol of the current one, also when the code is the one being defined; `first` is the head of its expansion |
| GifLzw.Widened | include/stb/stb_image.h:6684-6687 | the mask test changes the code width exactly when the dictionary outgrows it, up to 12 bits |
| GifLzw.SyncStart | include/stb/stb_image.h:6620-6659 | the state after initialisation or a clear code is that of the textbook decoder |
| GifLzw.SyncFirst | include/stb/stb_image.h:6665-6689 | so it is after the first code |
| GifLzw.SyncNext | include/stb/stb_image.h:6665-6689 | and after every further code, with the same emitted string |
| GifLzw.SyncRefuses | include/stb/stb_image.h:6665-6692 | the codes that are refused are those the textbook decoder stops at |
| GifLzw.SyncFull | include/stb/stb_image.h:6665-6692 | once 4096 codes are there the textbook decoder goes on with every code |
| GifLzw.DeferredClear | include/stb/stb_image.h:6671-6674 | a stream textbook decoding finishes and that overruns the table: a clear code and then zeros |
| GifCursor.RowOrderPermutes | include/stb/stb_image.h:6600-6608 | the row order, interlaced or not, has every row of the frame exactly once |
| GifCursor.EveryPixelOnce | include/stb/stb_image.h:6585-6609 | the filling order has every pixel of the frame's rectangle exactly once and no other |
| GifCursor.RankIs | include/stb/stb_image.h:6600-6608 | which row of the frame comes when, as a closed form: every eighth row from 0, every eighth from 4, every fourth from 2, every second from 1 |
| GifCursor.PlaceIs | include/stb/stb_image.h:6585-6609 | so for pixels: the number of the symbol that is painted on each |
| GifCursor.LeftAtStart | include/stb/stb_image.h:6794-6801 | the initial step and pass describe the row order of appendix E of GIF89a |
| GifCursor.RemainingStep | include/stb/stb_image.h:6598-6602 | one pixel more of the remaining order |
| Gif.Raster.constructor | include/stb/stb_image.h:6777-6801 | the cursor of a frame inside the canvas, also of width zero |
| Gif.Raster.NextRow | include/stb/stb_image.h:6600-6609 | the next row of the order, also past empty passes |
| Gif.Raster.PutSymbol | include/stb/stb_image.h:6585-6609 | one symbol on the next pixel of the order: its four bytes are those of the colour, red and blue exchanged, unless it is transparent; surplus symbols change nothing |
| Gif.Raster.OutGifCode | include/stb/stb_image.h:6575-6610 | recursive emission ends and paints the expansion of the code |
| Gif.Raster.InitRoots | include/stb/stb_image.h:6628-6632 | the roots |
| Gif.Raster.AddEntry | include/stb/stb_image.h:6670-6678 | the entry that is written, also when it is the one read through `code` |
| Gif.Raster.UseCode | include/stb/stb_image.h:6665-6692 | one code: same text, same dictionary, same width, same refusal as the textbook decoder; refused for too many codes exactly when the table of 8192 entries is full |
| Gif.Raster.ProcessRaster | include/stb/stb_image.h:6612-6695 | for every byte stream the symbols emitted, and how it ends, are those of textbook LZW decoding, except that it is cut short exactly at the code for which more than 8192 entries would be needed since the last clear code; the bytes of every pixel of the frame are those of the colour of its symbol, found by row, column and interlace, or the old ones if that is transparent or missing; no pixel outside changes, and every access is in bounds for all code sizes |
| Gif.Raster.ReadRaster | include/stb/stb_image.h:6612-6695 | the loop itself |
| Gif.Raster.PixelShown | include/stb/stb_image.h:6585-6609 | one pixel, from its row and column |
| Gif.RefusedFrame | include/stb/stb_image.h:6671-6674 | bytes that hold a complete frame by the textbook and are refused |
| GifEncode.CodeBack | include/stb/stb_image.h:6665-6689 | an encoder that numbers strings by position, keeping no dictionary, writes codes that textbook decoding expands to the same strings, also the code that is not known yet |
| GifEncode.TextsBack | include/stb/stb_image.h:6648-6692 | so for all strings after a clear code, with code widths that grow as appendix F of GIF89a says |
| GifEncode.StreamBack | include/stb/stb_image.h:6636-6692 | so for any number of clear codes up to the end code, without an overrun of the table |
| GifEncode.SubBlocksBack | include/stb/stb_image.h:6638-6648 | data sub-blocks of any sizes hold the bytes they were made from |
| GifEncode.RasterRoundTrip | include/stb/stb_image.h:6612-6695 | a frame that was written in this way is shown: every pixel has the colour of its symbol |
| GifEncode.Writable | include/stb/stb_image.h:6612-6695 | any symbols can be written |
| JpegSpec.HuffCodeIsCode | include/stb/stb_image.h:1993-2007 | the codes of Figure C.2 of ITU-T T.81 are the canonical codes of the size table |
| JpegSpec.T81DecodeMatches | include/stb/stb_image.h:2073-2120 | the bitwise procedure of Figure F.16 gives the symbol whose code starts the stream, or -1 exactly if there is none |
| JpegSpec.DezigzagIsZigzag | include/stb/stb_image.h:2165-2178 | the table is the zigzag order by its rule, and every place past the end is the last one |
| JpegEncode.ZigzagIs | include/stb/stb_image.h:2165-2178 | and sends coefficient `k` to the place that has number `k` along the anti-diagonals, so no two to the same |
| JpegEncode.MagnitudeBack | include/stb/stb_image.h:2127-2139 | EXTEND undoes the categories and additional bits of Tables F.1 and F.2 of T.81, for every value |
| JpegEncode.AcBack | include/stb/stb_image.h:2199-2229 | run lengths, sixteen zeros and end of block as section F.1.2.2 of T.81 writes them are read back, from any position on |
| JpegEncode.FirstKept | include/stb/stb_image.h:2199-2229 | no step from the second coefficient on touches the place of the first |
| JpegEncode.FirstIs | include/stb/stb_image.h:2191-2197 | so the first place of any block that can be read holds prediction and difference, dequantised as a 16-bit word |
| JpegEncode.BlockBack | include/stb/stb_image.h:2181-2231 | for all 64 quantised coefficients, what is read from their written form has each of them, times its divisor, as a 16-bit word in its place |
| JpegHuffman.FastFound | include/stb/stb_image.h:2082-2091 | an entry below 255 is what the bitwise procedure gives, for every stream that starts with the word |
| JpegHuffman.SlowIndex | include/stb/stb_image.h:2099-2113 | otherwise the search from 10 bits on gives it exactly when the table is sound for the stream; if not, it takes ten bits |
| JpegHuffman.NoneFound | include/stb/stb_image.h:2099-2107 | the search runs out exactly when no code starts the stream |
| JpegHuffman.ClashFails | include/stb/stb_image.h:2009-2019 | with 256 symbols and a last code of at most 9 bits, every stream that starts with that code has the mark for "not accelerated" and is searched beyond the length of its code |
| JpegHuffman.MissedCode | include/stb/stb_image.h:2009-2019 | and these are the only streams on which a short code is missed |
| JpegScan.LastOf256 | include/stb/stb_image.h:2009-2020 | a table of 255 codes of 8 bits and one of 9 is accepted, and on every stream that starts with the last code ten bits are taken for nine |
| JpegHuffman.Tables.constructor | include/stb/stb_image.h:1917-1926 | tables of the declared sizes, all separate |
| JpegHuffman.Tables.FillSizes | include/stb/stb_image.h:1986-1990 | the size table of Figure C.1 of T.81 |
| JpegHuffman.Tables.AssignCodes | include/stb/stb_image.h:1992-2006 | codes, preshifted limits and distances; fails exactly when the codes of some length do not fit |
| JpegHuffman.Tables.AssignRun | include/stb/stb_image.h:1999-2000 | consecutive codes for the symbols of one length |
| JpegHuffman.Tables.FillFast | include/stb/stb_image.h:2009-2020 | every 9-bit word has the last short symbol whose code starts it, or 255 |
| JpegHuffman.Tables.FillOne | include/stb/stb_image.h:2014-2018 | exactly the words that start with the code of the symbol |
| JpegHuffman.Tables.Build | include/stb/stb_image.h:1982-2022 | `stbi__build_huffman` succeeds exactly when the codes fit, and then holds the tables of the code of Annex C |
| JpegHuffman.FastValue | include/stb/stb_image.h:2040 | the shifts extract the bits that follow the code |
| JpegHuffman.EntryIs | include/stb/stb_image.h:2031-2045 | run, value and length in an entry are those of DECODE, RECEIVE and EXTEND, and there is an entry exactly if the value fits in a byte |
| JpegHuffman.EntryNone | include/stb/stb_image.h:2038 | there is none for a code without magnitude bits, or if they reach behind the first 9 bits |
| JpegHuffman.EntryMiss | include/stb/stb_image.h:2030-2032 | nor for a code that is not in the table of short codes |
| JpegHuffman.AcEntryOf | include/stb/stb_image.h:2030-2047 | so for every stream that starts with the word of the entry: nonzero exactly for a coefficient that lies within 9 bits and fits in a byte |
| JpegHuffman.BuildFastAc | include/stb/stb_image.h:2026-2049 | so for the whole table |
| JpegScan.PutByte | include/stb/stb_image.h:2064-2065 | a byte behind the bits of the buffer extends the stream it holds |
| JpegScan.Rotated | include/stb/stb_image.h:2134-2136 | rotating and masking splits the first bits off the buffer |
| JpegScan.ExtendIs | include/stb/stb_image.h:2122-2138 | the bias applied by the first bit is the EXTEND procedure |
| JpegScan.Scan.constructor | include/stb/stb_image.h:2901-2912 | the start of a scan: the whole coded stream lies ahead |
| JpegScan.Scan.ReadCoded | include/stb/stb_image.h:2054-2063 | the next byte without its stuffed zero, or the marker that ends the data, with any fill bytes |
| JpegScan.Scan.GrowByte | include/stb/stb_image.h:2053-2066 | the stream stays the same with every byte, also when a marker is met |
| JpegScan.Scan.Grow | include/stb/stb_image.h:2051-2067 | and with the whole loop; more than 24 bits are there unless a marker has just been met |
| JpegScan.Scan.Peek | include/stb/stb_image.h:2082 | the top of the buffer is the start of the stream |
| JpegScan.Scan.Consume | include/stb/stb_image.h:2088-2089 | shifting the buffer drops the first bits of the stream |
| JpegScan.Scan.SearchLength | include/stb/stb_image.h:2100-2102 | the first limit from 10 bits on that exceeds the word |
| JpegScan.FoundSymbol | include/stb/stb_image.h:2112-2114 | the number the search gives is in range on every stream; on sound ones size and code of its symbol are those read, so that the assertion holds |
| JpegScan.Scan.SlowSymbol | include/stb/stb_image.h:2099-2119 | the symbol, its bits consumed, or -1; on a stream that is not sound, which other symbol |
| JpegScan.Scan.HuffDecode | include/stb/stb_image.h:2073-2120 | `stbi__jpeg_huff_decode` equals the bitwise procedure on every sound stream; it is -1 whenever there is no code, and otherwise only when the code does not end before the marker |
| JpegScan.Scan.ExtendReceive | include/stb/stb_image.h:2127-2139 | RECEIVE and EXTEND of section F.2.2.1 of T.81 |
| JpegScan.Scan.DecodeDc | include/stb/stb_image.h:2186-2193 | the difference of the first coefficient |
| JpegScan.Scan.SlowTurn | include/stb/stb_image.h:2215-2227 | one step of the block by code and magnitude |
| JpegScan.Scan.AcTurn | include/stb/stb_image.h:2201-2228 | one step of the block by either path: the same step of the block as read bit by bit |
| JpegScan.Scan.DecodeAc | include/stb/stb_image.h:2199-2229 | all steps |
| JpegScan.Scan.DecodeBlock | include/stb/stb_image.h:2181-2231 | the block, the prediction and the remaining stream are those of the bit-by-bit procedures; the first coefficient is the new prediction times its divisor, as a 16-bit word; it fails only if the procedures fail or need bits that are not there before the marker |
| JpegRoundTrip.StuffedBack | include/stb/stb_image.h:2051-2067 | bytes with a zero after every 0xFF, up to a marker or the end of the file, give the stream of their bits and no more |
| JpegRoundTrip.BlockRoundTrip | include/stb/stb_image.h:2181-2231 | a block that was written is decoded: all 64 coefficients, the prediction for the next block, and the stream behind it |
| JpegRoundTrip.ReadInterval | include/stb/stb_image.h:2946-2965 | so block after block, each predicted from the one before it of its component |
| JpegRoundTrip.IntervalRoundTrip | include/stb/stb_image.h:2914-2965 | from the bytes of a restart interval to the coefficients of all its blocks |
| JpegRoundTrip.Padded | include/stb/stb_image.h:2051-2067 | any bits can be padded to whole bytes |
| PngFilter.ReconFiltered | include/stb/stb_image.h:4579-4588 | reconstruction undoes filtering, for every filter type, row above and pixel size |
| PngFilter.PredictIs | include/stb/stb_image.h:4579-4588 | the prediction is the one of section 9 of the PNG specification and nothing else: none, left, above, the mean rounded down, or the one of left, above and upper left that is nearest to left plus above minus upper left, ties in that order |
| PngFilter.RowBack | include/stb/stb_image.h:4638-4705 | whatever bytes are those of a row minus such predictions, reconstruction gives the row |
| PngFilter.ImageBack | include/stb/stb_image.h:4619-4706 | so for all rows behind their filter types |
| PngFilter.EncodeStored | include/stb/stb_image.h:4579-4588 | there are such bytes for all rows and filters |
| PngFilter.DecodedEncode | include/stb/stb_image.h:4619-4706 | so for whole images and any choice of filter for each row |
| PngFilter.CasesAgree | include/stb/stb_image.h:4570-4577 | the cases for the first row and the first pixel are the general formulas with zeros for missing neighbours |
| PngRows.Pixel | include/stb/stb_image.h:4640-4650 | the bytes of one pixel from its neighbours, nothing else changes |
| PngRows.ByteIs | include/stb/stb_image.h:4638-4705 | each byte is the reconstructed one |
| PngRows.UnfilterPixels | include/stb/stb_image.h:4638-4705 | a whole row in place, with the high byte of alpha behind every pixel |
| PngRows.LowAlpha | include/stb/stb_image.h:4707-4714 | the low byte of alpha for 16-bit samples |
| PngRows.UnfilterRow | include/stb/stb_image.h:4637-4715 | both, and no other byte of the buffer changes |
| PngRows.UnfilterRows | include/stb/stb_image.h:4619-4716 | all rows; fails exactly at an unknown filter type |
| PngRows.Sizes | include/stb/stb_image.h:4595-4611 | the sizes computed from the header fit together, also for packed rows |
| PngRows.CreateRows | include/stb/stb_image.h:4593-4716 | every row of the file is in its place, reconstructed; fails exactly for too little data, an unknown filter or a packed row that is too wide |
| PngRows.UndoFilters | include/stb/stb_image.h:4593-4716 | whatever bytes store the rows as the PNG specification says, with or without inserted alpha, 8 or 16 bits or packed, decoding puts exactly these rows in place |
| PngUnpack.Ahead | include/stb/stb_image.h:4722-4768 | a sample never overwrites packed bytes that are still to be read |
| PngUnpack.SampleBits | include/stb/stb_image.h:4722-4768 | samples are groups of bits of the row, the high bit of every byte first |
| PngUnpack.ScaleIs | include/stb/stb_image.h:4590 | the factor for grey takes the largest sample to 255 |
| PngUnpack.UnpackRow | include/stb/stb_image.h:4722-4768 | in place, left to right, the row is what unpacking into a fresh buffer gives |
| PngUnpack.InsertAlpha1 | include/stb/stb_image.h:4773-4777 | right to left, every sample is moved before it is overwritten |
| PngUnpack.InsertAlpha3 | include/stb/stb_image.h:4778-4786 | the same for three channels |
| PngUnpack.ExpandRow | include/stb/stb_image.h:4721-4788 | both for one row |
| PngUnpack.ExpandRows | include/stb/stb_image.h:4720-4788 | all rows, without touching each other |
| PngUnpack.ToHostOrder | include/stb/stb_image.h:4794-4799 | the bytes of every 16-bit sample are exchanged, for a machine that stores the low byte first |
| PngUnpack.ExchangedTwice | include/stb/stb_image.h:4794-4799 | which twice is nothing |
| PngUnpack.CreateImageRaw | include/stb/stb_image.h:4593-4802 | reconstruction, expansion and byte order together, with the exact error condition |
| PngAdam7.PassSizeIs | include/stb/stb_image.h:4824-4825 | the unsigned size of a pass counts exactly its columns inside the image, also when the image is narrower than the origin |
| PngAdam7.EveryPixel | include/stb/stb_image.h:4817-4839 | every pixel comes from a place of the pass that the pattern of the PNG specification gives |
| PngAdam7.EveryPlace | include/stb/stb_image.h:4817-4839 | every place of every pass goes to a pixel of the image, no two to the same |
| PngAdam7.CopyPixel | include/stb/stb_image.h:4834-4837 | one pixel more, written once |
| PngAdam7.CopyPass | include/stb/stb_image.h:4824-4843 | all pixels of a pass, and nothing for an empty one |
| PngAdam7.Deinterlace | include/stb/stb_image.h:4814-4848 | every pixel of the image is written exactly once, with the right pixel of the right pass |
| PngInterlaced.PixelBounds | include/stb/stb_image.h:4836-4837 | where a pixel of a reduced image lies |
| PngInterlaced.DecodePass | include/stb/stb_image.h:4828-4837 | one reduced image: accepted exactly when its bytes are, and its pixels are those of its rows |
| PngInterlaced.PassDone | include/stb/stb_image.h:4827-4843 | the next pass starts where this one ends |
| PngInterlaced.DecodePasses | include/stb/stb_image.h:4816-4845 | every pass that has pixels is decoded from the bytes behind those of the passes before it; refused exactly when one of them is |
| PngInterlaced.CreateImage | include/stb/stb_image.h:4804-4849 | and every pixel of the image is the one of its pass, row and column |
| PngInterlaced.PassesAt | include/stb/stb_image.h:4827-4843 | in a file made of filtered passes, each is where it is looked for |
| PngInterlaced.PassesStored | include/stb/stb_image.h:4827-4843 | there is such a file for all rows and filters |
| PngInterlaced.PassBack | include/stb/stb_image.h:4827-4843 | and its rows come back, whatever they and their filters are, for all depths, if they are stored as the PNG specification says |
| PngInterlaced.PixelBack | include/stb/stb_image.h:4834-4837 | so does every pixel of 8-bit or 16-bit samples |
| PngInterlaced.InterlacedRoundTrip | include/stb/stb_image.h:4804-4849 | decoding undoes interlacing and filtering, for every image and every choice of filters, where filtering is stated by the predictions of the specification |
| PngPacked.SampleBack | include/stb/stb_image.h:4722-4768 | a sample is what its bits in the row say |
| PngPacked.PixelShade | include/stb/stb_image.h:4834-4837 | a grey pixel is its sample scaled from the range of its depth to that of a byte, an indexed one its sample |
| PngPacked.PackedRoundTrip | include/stb/stb_image.h:4804-4849 | decoding undoes packing, filtering and interlacing of samples of 1, 2 or 4 bits |
| PngPacked.PackedRowsOk | include/stb/stb_image.h:4722-4768 | all samples can be packed so |
| Upsample.Cases | include/stb/stb_image.h:3450-3472 | the special ends are the general formula with the sample itself as neighbour |
| Upsample.UpsampledIs | include/stb/stb_image.h:3450-3472 | every sample is nine, three, three and one sixteenths of the four nearest ones, rounded to nearest |
| Upsample.ResampleRow | include/stb/stb_image.h:3450-3472 | the scalar loop computes the bilinear row |
| Upsample.Current | include/stb/stb_image.h:3493-3500 | the vertical filter in eight lanes of 16 bits does not overflow |
| Upsample.Phase | include/stb/stb_image.h:3516-3522 | nor does the horizontal one |
| Upsample.BlockIs | include/stb/stb_image.h:3493-3532 | a block of sixteen samples, with the carried and the next sample, equals the bilinear row |
| Upsample.StoreBlock | include/stb/stb_image.h:3489-3532 | stored, it extends the row |
| Upsample.ResampleRowSimd | include/stb/stb_image.h:3475-3587 | the SSE2 form computes the same row as the scalar loop, for every width |
| ResizeRing.SlotInjective | include/stb/stb_image_resize.h:1689-1693 | scanlines of a window no wider than the ring have different slots |
| ResizeRing.SlotMoves | include/stb/stb_image_resize.h:2099-2101 | dropping the oldest scanline moves no other |
| ResizeRing.Ring.constructor | include/stb/stb_image_resize.h:2403 | an empty ring |
| ResizeRing.Ring.SlotOf | include/stb/stb_image_resize.h:1689-1693 | the row of a scanline in the ring |
| ResizeRing.Ring.AddEmpty | include/stb/stb_image_resize.h:1425-1447 | one scanline more, of zeros; the asserted slot is free, and no live row changes |
| ResizeRing.Ring.Pop | include/stb/stb_image_resize.h:2089-2102 | the oldest scanline goes, the others keep their rows |
| ResizeRing.Ring.Accumulate | include/stb/stb_image_resize.h:2016-2061 | one row gets a weighted addition, sample by sample, no other changes |
| ResizeWindow.UpWindowOk | include/stb/stb_image_resize.h:1009-1021 | over the reals, windows are not empty, fit in the ring and never go back |
| ResizeWindow.DownWindowOk | include/stb/stb_image_resize.h:1024-1036 | and when shrinking also leave no row between them out |
| ResizeWindow.DownCovers | include/stb/stb_image_resize.h:2215-2238 | for the scale and shift of any part of the input the windows cover all output rows |
| ResizeWindow.UpWindowIff | include/stb/stb_image_resize.h:1009-1021 | a row is in the window exactly when its centre is within the support of the filter around the mapped centre of the output row |
| ResizeWindow.DownWindowIff | include/stb/stb_image_resize.h:1024-1036 | so for the output rows that an input row reaches |
| Resize.DecodeAndResample | include/stb/stb_image_resize.h:1658-1670 | one more resampled row in the ring |
| Resize.Discard | include/stb/stb_image_resize.h:2084-2104 | the rows before the window go |
| Resize.LoadWindow | include/stb/stb_image_resize.h:2084-2111 | the ring holds exactly the rows of the window, resampled |
| Resize.ResampleVertical | include/stb/stb_image_resize.h:1870-1984 | every sample is the sum of the samples of the contributor's rows times their weights |
| Resize.WeightedAll | include/stb/stb_image_resize.h:1870-1984 | adding rows one after the other is adding the weighted samples at each place |
| Resize.BufferLoopUpsample | include/stb/stb_image_resize.h:2067-2118 | for any windows that fit in the ring and never go back, every sample of every output row is the sum of weighted samples of resampled input rows as if all were at hand |
| Resize.RealUpWindows | include/stb/stb_image_resize.h:1009-1021 | over the reals the windows of the source are such windows |
| Resize.EncodeFirst | include/stb/stb_image_resize.h:2139-2160 | the oldest row is encoded if it is an output row, and dropped |
| Resize.EmptyRing | include/stb/stb_image_resize.h:2120-2163 | the rows before a scanline are encoded in order, the others stay |
| Resize.AddRows | include/stb/stb_image_resize.h:2193-2197 | rows of zeros up to the end of the window |
| Resize.Spread | include/stb/stb_image_resize.h:1987-2065 | an input row is added to every output row it reaches |
| Resize.MakeReady | include/stb/stb_image_resize.h:2188-2197 | before an input row is added the ring holds exactly its window |
| Resize.SpreadRow | include/stb/stb_image_resize.h:2199-2200 | afterwards the rows have received it too |
| Resize.ReceivedAll | include/stb/stb_image_resize.h:1987-2065 | so is spreading input rows, where a row that does not reach contributes nothing |
| Resize.Skipped | include/stb/stb_image_resize.h:2185-2186 | input rows that reach no output row change nothing |
| Resize.Finish | include/stb/stb_image_resize.h:2203 | the rows still in the ring at the end are encoded |
| Resize.BufferLoopDownsample | include/stb/stb_image_resize.h:2165-2204 | for any windows that fit in the ring, never go back and leave no row between them out, the reached output rows are encoded exactly once each, in increasing order, and every sample is the sum over all input rows of their weighted contributions |
| Resize.AllRowsIff | include/stb/stb_image_resize.h:2165-2204 | these are all output rows exactly when the first window starts at or before the first row and the last ends at or after the last |
| Resize.RealDownWindows | include/stb/stb_image_resize.h:2215-2238 | over the reals the windows of the source are such windows for the scale and shift of any part of the input, and reach all output rows |
| Arith64.NegIsAbs | kernel/libs/ArithmeticOperations.c:39-41 | the macro is the absolute value of every signed word, read as unsigned |
| Arith64.Clz64 | kernel/libs/ArithmeticOperations.c:110-129 | the number of leading zeros of every nonzero word |
| Arith64.SignTrick | kernel/libs/ArithmeticOperations.c:213 | the sign of `b - rem - 1` tells whether `b > rem`, for every `b` up to 2^64, and the remainder does not overflow |
| Arith64.DivideStart | kernel/libs/ArithmeticOperations.c:205-208 | the shift counts are between 1 and 63 and the loop starts in its invariant |
| Arith64.DivideStep | kernel/libs/ArithmeticOperations.c:209-215 | one turn keeps the invariant of long division |
| Arith64.DivideEnd | kernel/libs/ArithmeticOperations.c:216-218 | at the end quotient and remainder are there |
| Arith64.LongDivide | kernel/libs/ArithmeticOperations.c:204-218 | the loop divides |
| Arith64.DivMod64 | kernel/libs/ArithmeticOperations.c:175-219 | `a = q * b + r` and `r < b` for all words and every nonzero divisor; a zero divisor traps |
| Arith64.TruncatedUnique | kernel/libs/ArithmeticOperations.c:222-226 | truncated division has one quotient and one remainder |
| Arith64.SDiv64 | kernel/libs/ArithmeticOperations.c:222-226 | signed division truncates toward zero for all operands but the one whose quotient does not fit, where it wraps |
| Arith64.SMod64 | kernel/libs/ArithmeticOperations.c:256-261 | the remainder of truncated division, with the sign of the numerator, for all operands |
| Arith64Bits.Ctz64 | kernel/libs/ArithmeticOperations.c:151-170 | the number of trailing zeros of every nonzero word |
| Arith64Bits.ShiftLeft | kernel/libs/ArithmeticOperations.c:51-68 | the halves together are the shifted word, for every shift count |
| Arith64Bits.ShiftRight | kernel/libs/ArithmeticOperations.c:236-253 | the same to the right |
| Arith64Bits.ShiftRightSigned | kernel/libs/ArithmeticOperations.c:71-88 | the signed word divided by a power of two, rounding down |
| Arith64Bits.CountPairs | kernel/libs/ArithmeticOperations.c:279 | every pair of bits holds its count |
| Arith64Bits.CountNibbles | kernel/libs/ArithmeticOperations.c:280 | every nibble holds its count |
| Arith64Bits.CountBytes | kernel/libs/ArithmeticOperations.c:281 | every byte holds its count, without carries |
| Arith64Bits.Fold | kernel/libs/ArithmeticOperations.c:282-285 | the folds add all bytes up |
| Arith64Bits.PopCount64 | kernel/libs/ArithmeticOperations.c:276-286 | the number of bits set in every word |
| HashTable.AddKeeps | kernel/include/hashmap.hpp:38-52 | adding at the first stop of the probe path is the map update when the key's entry does not lie behind a tombstone |
| HashTable.AddDoubles | kernel/include/hashmap.hpp:38-52 | and otherwise always makes the key live twice |
| HashTable.DoubledKey | kernel/include/hashmap.hpp:43-51 | three operations on an empty map after which that happens: every one of them is safe, and the next addition makes its key live twice |
| HashTable.DeleteKeeps | kernel/include/hashmap.hpp:60-66 | a tombstone in place of an entry removes it from the map and leaves no gap on any probe path |
| HashTable.StepKeeps | kernel/include/hashmap.hpp:36-91 | an operation that ends is the step of the map exactly if it does not add a key behind a tombstone; otherwise the slots are those of no map at all |
| HashTable.UnusedEnds | kernel/include/hashmap.hpp:43-49 | every operation ends while a slot is unused |
| HashTable.FreshIsSafe | kernel/include/hashmap.hpp:36-91 | a run that adds no key that is in the map, and fewer than there are unused slots, is safe |
| HashTable.Missed | kernel/include/hashmap.hpp:58-70 | a search that meets an empty slot, or goes all the way round, has missed nothing |
| HashTable.HashMap.constructor | kernel/include/hashmap.hpp:26-34 | the empty map, in empty slots |
| HashTable.HashMap.AddNode | kernel/include/hashmap.hpp:38-52 | the slots are exactly those of the specification; the table is the updated map, and the size its cardinality, exactly unless the key's entry lies behind a tombstone |
| HashTable.HashMap.DeleteNode | kernel/include/hashmap.hpp:54-71 | the value, and the key is gone from the map; zero when it was not there |
| HashTable.HashMap.Get | kernel/include/hashmap.hpp:73-89 | the value in the map, or zero; the search always ends |
| HashTable.HashMap.Apply | kernel/include/hashmap.hpp:36-91 | one operation of a run |
| HashTable.HashMap.Run | kernel/include/hashmap.hpp:36-91 | every run whose operations end and add no key behind a tombstone agrees with the map, result by result |
| HashTable.HashMap.Size | kernel/include/hashmap.hpp:91 | the number of keys in the map |
| RingList.Rotate | kernel/include/list.h:6-9 | a ring can be started at any of its nodes |
| RingList.ListHead.constructor | kernel/include/list.h:27-31 | a ring of one |
| RingList.Link | kernel/include/list.h:33-39 | the node is linked in both directions |
| RingList.Unlink | kernel/include/list.h:41-45 | the neighbours are linked in both directions |
| RingList.ListAdd | kernel/include/list.h:47-50 | the node goes right behind the head |
| RingList.ListAddTail | kernel/include/list.h:52-55 | the node goes right before the head |
| RingList.ListDel | kernel/include/list.h:57-60 | the others stay a ring in the same order |
| RingList.ListDelInit | kernel/include/list.h:62-66 | and the node is a ring of its own |
| RingList.ListReplace | kernel/include/list.h:68-74 | the new node takes the place of the old, also in a ring of one |
| RingList.ListSplice | kernel/include/list.h:76-88 | everything but the one head goes right behind the other head, in order |
| RingList.AddAfter | kernel/include/list.h:47-50 | a node goes in behind any node of a ring |
| RingList.AddBefore | kernel/include/list.h:52-55 | or before it |
| RingList.ApplyAdd | kernel/include/list.h:47-55 | among any number of rings, the others stay |
| RingList.ApplyDel | kernel/include/list.h:57-60 | so with deleting |
| RingList.ApplyDelInit | kernel/include/list.h:62-66 | so with deleting into a ring of its own |
| RingList.ApplySplice | kernel/include/list.h:76-88 | so with joining two of the rings |
| RingList.Apply | kernel/include/list.h:33-88 | one operation on any number of separate rings |
| RingList.Run | kernel/include/list.h:33-88 | any run of operations keeps all rings separate rings, with the contents of the operations on sequences |
| RingList.ForEachSafe | kernel/include/list.h:109-110 | the traversal visits every node once, in order, when the body deletes any of the nodes it is at, and leaves the ring of the others |

## Left out

- Inflate.ZBuf.ParseZlib: a dynamic header that gives the all-zero code to length symbol 286 or 287 ends in the outcome `Unmodelled`, because then the loop of the source need not end at the end of the input; RFC 1951 does not allow such symbols. What matches with symbols without a meaning copy is left open.
- Inflate.ZlibDecode: an output that may grow must start with a positive size, since the source doubles it.
- Gif.Raster.ProcessRaster: agreement with textbook decoding is stated for code sizes 2 to 11, which include all that GIF89a allows; for 0, 1 and 12 only memory safety and the painting order. What follows the end code is not skipped in the model.
- Gif.Raster.PutSymbol: the canvas is an array of four-byte pixels, not of bytes.
- JpegHuffman.Tables.Build: at most 256 symbols, as in T.81; the source does not check the sum of the counts.
- JpegHuffman.Tables.FillSizes: the same.
- JpegScan.Scan.DecodeBlock: the prediction is an unbounded integer; agreement is stated for tables that are sound for all streams, and `JpegScan.Scan.HuffDecode` says for the others on which streams it holds.
- JpegRoundTrip.IntervalRoundTrip: the blocks and the components they belong to are given in order, instead of by the loops over the image; the inverse DCT that takes each block is not part of this model.
- GifEncode.RasterRoundTrip: code sizes 2 to 11, and fewer codes between clear codes than the table has room for, as `Gif.RefusedFrame` shows.
- PngUnpack.CreateImageRaw: the output buffer is given instead of allocated; 16-bit samples are those of a machine that stores the low byte first.
- PngAdam7.Deinterlace: the image is a two-dimensional array of pixels instead of a byte buffer.
- PngInterlaced.CreateImage: all passes are decoded before the first is copied; the source copies each before it decodes the next, into an image it drops when one fails.
- PngInterlaced.InterlacedRoundTrip: pixels of 8-bit and 16-bit samples; `PngPacked.PackedRoundTrip` is the one for packed samples.
- PngPacked.PackedRoundTrip: one channel, as the PNG specification allows no others for packed samples.
- Upsample.ResampleRowSimd: loading eight bytes and widening them is one operation of the model; the NEON form is not modelled.
- Resize.BufferLoopUpsample: rows are values over the reals, one ring entry each, instead of floats in one array; windows and contributors are parameters, and only `Resize.RealUpWindows` speaks of those the source computes, over the reals; horizontal resampling, coefficients and encoding are parameters or left out.
- Resize.BufferLoopDownsample: the same, with `Resize.RealDownWindows`; coefficients may lie only inside the window and the output, as the source clamps them.
- HashTable.HashMap.AddNode: keys are nonnegative, as the index of a negative key is negative in C++; the search must end, as otherwise the loop of the source does not.
- HashTable.HashMap.DeleteNode: the same.
- RingList.ForEachSafe: the body deletes nodes of a given set with `list_del`; other bodies are not modelled.
- Image headers, chunks, markers, colour conversion, callbacks and failure strings: plumbing around the decoders.
- Progressive JPEG, inverse DCT, HDR, BMP, TGA, PSD, PIC and PNM: numeric or bulk code without harder properties.
- The 32-bit variants `__clzsi2`, `__ctzsi2`, `__popcountsi2`, and `__ffsdi2`, `__absvdi2`: shorter forms of what is modelled.
- Virtual file system, memory management, scheduling, drivers, crash handlers and display: hardware or code that is not part of this model.
