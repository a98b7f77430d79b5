# Codec engines: a verified model

A Dafny model of the three codec engines of this repository, and proofs about them.

* **DEFLATE and zlib** (`lodepng.c`; RFC 1951, RFC 1950): the LZ77 matcher with its circular hash chains, package-merge code
  lengths, canonical codes, run-length coded code lengths, all three block types, the inflater and the zlib container.
* **PNG pixels** (`lodepng.c`; PNG Specification, Second Edition, sections 8 and 9): filters and filter strategies, padding bits,
  Adam7, the decoder's single overlapping buffer, the automatic choice of a color type, and the conversion between color types.
* **Baseline JPEG** (`compositor/jpge.cpp`, `compositor/jpgd.cpp`; ITU-T T.81, Annexes C and F): two-pass entropy coding with
  optimized tables, the in-place code length algorithm, the decoder's lookup tables and bit buffer, partial clearing of reused
  blocks, forward transform and quantization, and the sparse inverse transform.

The code that updates things in place is modelled as classes, arrays and loops. Each method is proved against a specification on
ghost sequences of bits or bytes, and the properties are proved about that specification. The main results are the round trips
`Streams.RoundTrip`, `Zlib.ZlibRoundTrip`, `Scanlines.ScanlineRoundTrip`, `PngImage.ImageRoundTrip`, `PngPixels.EncodeDecodePixels`,
`JpegRoundTrip.RoundTrip` and, with a bound on the loss, `JpegLossy.CompressDecompress`; that the inflater agrees with a reference
decoder on arbitrary input, errors included (`Inflate.Inflator.InflateStream`); exactly when the automatic choice of a color type
loses nothing (`ColorChoice.AutoChooseColor`); that the matcher finds the longest string in the window (`Lz77.LongestInWindow`); and that both code length algorithms are optimal (`PackageMerge.HuffmanCodeLengths`, `JpegDepths.CalculateMinimumRedundancy`).
The tables and formats that both directions share are tied to the standards themselves: by closed forms, by what each sample or
byte of the data means, and by streams given byte by byte (`StandardStreams`, `StandardDynamic`, `JpegStandard`).

`dafny verify dfyconfig.toml` checks everything. One module per file; the modules build on each other in this order:

| files | what |
|---|---|
| Bits, BitStream, PrefixCode, Canonical, CodeTrees, HuffmanTrees | bits and streams, prefix codes, canonical codes, trees of codes, the decoding tree |
| Coins, PackageMinimum, PackageMerge | package-merge: completeness, optimality, the algorithm |
| Tokens, Lz77, CodeLengths, Format, Blocks | tokens and the matcher, runs of code lengths, the format and its reference decoder |
| Inflate, Deflate, Compressor, Streams, Zlib | decompressor, compressor, whole streams, the container |
| StandardStreams, StandardDynamic | streams of RFC 1951 and RFC 1950 given byte by byte |
| Memory, Filters, FilterCosts, ImageFilter, PixelBits, Adam7, Interlace, Scanlines, PngImage | the PNG pipeline |
| ColorModes, ColorTrees, ColorSamples, ColorKeys, Profiles, ColorChoice | pixels and their samples, the scan of an image, the choice of a color type |
| Palettes, PixelWriting, Pixel16, Conversion, PngPixels | writing pixels, the conversion between color types, from pixels to scanlines and back |
| WordBits, JpegBits, JpegReader, JpegTables, JpegTreeSize, JpegLookup, JpegDecode | JPEG bit streams and Huffman tables |
| JpegZigzag, JpegBlocks, JpegBlockDecode, JpegScan | JPEG blocks and scans |
| JpegMinimum, JpegMoffat, JpegHeight, JpegBuild, JpegDepths, JpegLimit, JpegRadix, JpegCounts, JpegSymbols, JpegFibonacci, JpegLevel, JpegLongCodes, JpegOptimize, JpegTotals | optimized tables |
| JpegRoundTrip, JpegStandard | the JPEG round trip, and a scan given byte by byte |
| JpegIdct, JpegTransform, JpegDct, JpegNear, JpegLossy | inverse and forward transform, how near they come, quantization |
| Findings, InflateFindings, ColorFindings, JpegLongScan, JpegFindings | inputs for which the program fails |

## Findings

Where a property does not hold, the model keeps the code as it is. Each case has an input, and a condition that can be checked
before the call.

| | what fails | source | input | condition |
|---|---|---|---|---|
| a | Without LZ77 every later dynamic block is written outside of its vector, which is sized for the block but indexed by the position in the data. | lodepng.c:1768-1771 | `Findings.SecondBlockOutOfBounds`: 65536 bytes | `Findings.OutOfBoundsExactly`: exactly btype 2, no LZ77, more than 65535 bytes |
| b | Stored mode writes no block for empty data, and the decompressor refuses the empty stream. | lodepng.c:1636-1638, 1245 | `Findings.StoredNothing`: error 52 | `Streams.RoundTrip`, `Zlib.ZlibRoundTrip`: exactly stored mode and empty data |
| c | A predefined filter type above 4 is written, its row is not, and the decoder refuses it. | lodepng.c:5267-5276, 3946 | `Findings.PredefinedFive`: error 36 | `Scanlines.PredefinedLegal` in `Scanlines.ScanlineRoundTrip` and `PngImage.ImageRoundTrip`: exactly if a type of a row that exists is above 4 |
| d | A code length above 32 is counted outside of num_codes. | compositor/jpge.cpp:219-221 | `JpegLongScan.LongCode`: a scan of 7881194 blocks, each with one coefficient other than zero | `JpegRoundTrip.ShortCodes` in `JpegRoundTrip.RoundTrip`: exactly if, for one of the four tables, Huffman's algorithm on two queues gives a tree higher than 32 (`JpegSymbols.CodeHeight` of the counts); fewer than 146468 blocks exclude it, however ties are broken |
| e | In `optimize_huffman_table` taken alone; no scan comes to this (`JpegTotals.FewSymbols`). 256 codes of 8 bits: their count is cut to 0, and the table has no code at all. | compositor/jpge.cpp:226-229 | `JpegFindings.NoCodes`: 255 counts of seven | `JpegOptimize.OptimizeHuffmanTable`: for 255 symbols exactly if no two counts differ by more than one (`JpegLevel.CountsClose`); never for fewer |
| f | The inflater accepts code lengths that leave bit strings out, and reads those as symbol 0; RFC 1951 has such codes for distances only, with a single code or none. | lodepng.c:597-600 | `InflateFindings.DeadEndAccepted`: a stream with one dynamic block | `HuffmanTrees.HuffmanTree.MakeFromLengths`: refused, with error 55, exactly if the tree has as many inner nodes as there are symbols or more; `Canonical.CompleteHasNoDeadEnd`: harmless if the Kraft sum is one |
| g | A Huffman table of a file can need more nodes than the decoder's tree has, which is written past its end. | compositor/jpgd.cpp:2307-2345, 928-986 | `JpegFindings.TreeOverflow`: two codes of 15 bits and 253 of 16 | `JpegLookup.HuffTables.MakeHuffTable`: exactly if `JpegTreeSize.TreeSize` of the 16 counts is above 256 |
| h | The automatic choice takes a color key that an opaque pixel has too, which becomes transparent: pixels are compared with the key only once there is one. | lodepng.c:3614-3637 | `ColorFindings.OpaqueBecomesKey`: 17 pixels with 8-bit alpha channel | `ColorChoice.Kept` in `ColorChoice.AutoChooseColor`: exactly if no palette and no alpha channel is chosen and a pixel before the first transparent one has its color; `ColorChoice.KeptInFull` for images that are truly 16-bit |
| i | The automatic choice takes a grey mode of too few bits: no more are asked for than the input has, but a palette of few bits may hold any grey. | lodepng.c:3599-3605 | `ColorFindings.GreyPaletteLost`: one pixel of a palette image of one bit | the same: exactly if all pixels are grey, no palette and no alpha channel is chosen and some level does not fit `Profiles.ScanBits`; never for other input than palettes of less than eight bits (`ColorChoice.UsuallyFit`) |
| j | A conversion to a palette drops the error for a color that the palette lacks: the pixel is left out, and nothing is reported. | lodepng.c:3057, 3464-3475 | `ColorFindings.MissingColor`: one red pixel | `Conversion.AllUsable` in `Conversion.Convert`: right exactly if all colors of the image are among the first 2^bitdepth of the palette; with a shorter palette and black pixels in the image this is only sufficient, as values behind its end are read as black |

Further points where the code differs from its comments or from what one might expect; the model follows the code:

* A stored block of length 0 that ends the stream, with nothing behind its four header bytes, is error 52 (lodepng.c:1212).
* An unusable distance symbol is always error 18, as the test for the end of the input looks at the wrong variable; the other
  one reports 11 in both cases (lodepng.c:1151-1159, 1186-1193).
* Error 55 is described as the one for code lengths with a Kraft sum above one (lodepng.c:573-574, 5863-5866). For those it comes
  only if the tree runs out of nodes or a code follows the one that leads out of the tree: three distance codes of one bit are accepted (`InflateFindings.ThreeShortCodes`).
  What happens for each table of lengths is the definition of `CodeTrees.GrowCodes`.
* With 16 pixels or fewer an alpha channel is chosen in place of a color key, which avoids case h (lodepng.c:3689-3692).
* Bits that no code of a JPEG table has decode as symbol 0.

## Model

| member | source | states |
|---|---|---|
| BitStream.BitWriter.AddBits | lodepng.c:429-433 | Appends the low bits of a number, least significant first; nothing written before changes, and the last byte is zero behind the last bit. |
| BitStream.BitWriter.AddBitsReversed | lodepng.c:435-439 | Appends the same bits most significant first: the order in which Huffman codes are written. |
| BitStream.ReadBits | lodepng.c:453-462 | The number whose binary digits are the next bits of the stream; with `Bits.ValueOfLowBits` it undoes writing. |
| Bits.ValueOfLowBits | lodepng.c:429-462 | Writing the n low bits of a number below 2^n and reading them back gives the number. |
| Canonical.FittingPrefixFree | lodepng.c:610-648 | Lengths with a Kraft sum of at most one: no canonical code of section 3.2.2 of RFC 1951 is a prefix of another. |
| Canonical.CanonicalCovers | lodepng.c:610-648 | Lengths with a Kraft sum of exactly one: every bit string of the maximal length starts with one of the codes. |
| Canonical.CompleteHasNoDeadEnd | lodepng.c:926-944 | For such lengths no bits lead out of the code tree, so a symbol is read by its code only. |
| Canonical.CodesExtend | lodepng.c:610-648 | Unused symbols at the end of the alphabet do not change the codes: encoder and decoder agree although their alphabets differ in size. |
| PrefixCode.NodeCount | lodepng.c:554-563 | A complete prefix code has fewer inner nodes than symbols, which is why numcodes columns suffice. |
| PrefixCode.ReadEncoded | lodepng.c:926-944 | Reading the code of a symbol, whatever follows it, gives the symbol and exactly the rest. |
| HuffmanTrees.AssignCodes | lodepng.c:610-648 | The low bits of each tree1d entry are the canonical code, although blcount[0] is not zeroed. |
| CodeTrees.TreeOfPrefixCode | lodepng.c:545-603 | For every prefix code, complete or not, the tree that is grown bit by bit is its code tree: symbols at the ends of the codes, inner nodes where codes go on; it cannot be grown exactly if it has as many inner nodes as there are symbols or more. |
| CodeTrees.NextIsRead | lodepng.c:926-944 | For such codes, following bits to a leaf is reading by the codes: the symbol whose code the bits begin with, symbol 0 where they leave the tree. |
| HuffmanTrees.Make2DTree | lodepng.c:545-603 | For every table of codes, also those that are prefixes of each other: error 55 exactly where the tree of `CodeTrees.TreeOf` cannot be grown; else the two rows spell exactly that tree, and bits outside of it lead to symbol 0. |
| HuffmanTrees.HuffmanTree.MakeFromLengths | lodepng.c:610-665 | For every sequence of lengths the error and the tree that `CodeTrees.ReadTree` says; with a Kraft sum of at most one, error 55 exactly if the code tree has as many inner nodes as there are symbols or more; complete lengths are never refused. |
| HuffmanTrees.HuffmanTree.DecodeSymbol | lodepng.c:926-944 | For every tree that was made, and all bits: the loop over the bit pointer reads the symbol of the reference and stops right behind it; -1 exactly if the bits run out. The tree is never left. |
| Coins.LengthsComplete | lodepng.c:738-855 | However the sort breaks ties, the lengths counted off the numpresent - 1 lightest packages have Kraft sum one, keep within the limit, and are nonzero exactly for the symbols that occur. |
| PackageMinimum.NoLighterChoice | lodepng.c:806-836 | The k lightest coins of a row weigh no more than any k coins made from the single coins of another code. |
| PackageMinimum.LengthsCheapest | lodepng.c:738-855 | No code for the symbols that occur, with lengths within the limit, needs fewer bits in total. |
| PackageMerge.BuildRows | lodepng.c:799-836 | All rows, none with 2 * numpresent coins or more; if the limit leaves room for the symbols, the last one has at least numpresent - 1 packages. |
| PackageMerge.CodesAllFits | lodepng.c:738-855 | Only if at most 2^maxbitlen symbols occur can all of them have codes within the limit. |
| PackageMerge.HuffmanCodeLengths | lodepng.c:738-855 | Error 80 exactly for an empty alphabet, a write past the end exactly for an alphabet of one symbol. Else a complete code within the limit, with a code for every symbol that occurs, exactly if the limit leaves room for them; then no code within the limit beats it in total length. |
| Deflate.MakeFromFrequencies | lodepng.c:858-873 | Trims unused symbols; the tree made is ready for decoding, complete, of least cost, and has a code for every symbol that occurs. |
| Tokens.SearchCodeIndex | lodepng.c:1305-1321 | The binary search finds the last table entry that is not above the value. |
| Tokens.LengthTable | lodepng.c:479-486 | The length symbols share out 3 to 258 without gap or overlap, with the extra bits in closed form; 258 has its own symbol. |
| Tokens.DistanceTable | lodepng.c:489-496 | The distance symbols share out 1 to 32768 likewise. |
| Lz77.Hash.UpdateHashChain | lodepng.c:1435-1444 | Keeps the meaning of the hash: every reached slot holds the latest position congruent to it, its hash value, and zeros counted there; heads lead to the last position of each hash value, and every position in the window to the one before it with the same value. |
| Lz77.Hash.FindMatch | lodepng.c:1510-1561 | The string found is no shorter than what is repeated from the first position of the chain, nor, for up to nicematch bytes, from any other within the limit; of equal lengths the nearest is taken. Where three zeros lie ahead this is stated of the first position only. |
| Lz77.EncodeLZ77 | lodepng.c:1455-1627 | Error 60 or 90 for a bad window; else tokens that reproduce exactly the bytes from inpos to insize from those before inpos, each with 3 <= length <= 258 and 1 <= distance < windowsize and no further back than the data, greedy or lazy. A match is as long as what the chain offers; a literal is put out only if that is too short, three bytes from too far away, or, when lazy, less than at the next byte. Errors 81 and 86 do not occur, and the loop ends. |
| Lz77.LongestInWindow | lodepng.c:1510-1561 | From windows of 8192 bytes up, and unless three zeros lie ahead, a match is as long as any stretch of three to nicematch bytes that is repeated from anywhere in the window, and a literal is there for the reasons above only. |
| CodeLengths.EncodeRuns | lodepng.c:1805-1848 | Writes every sequence of code lengths as runs that stand for exactly that sequence. |
| CodeLengths.ReadLengthsBack | lodepng.c:1013-1088 | Reading the written runs gives back exactly the lengths, also across the border of the two tables, whatever follows. |
| Compressor.MakeCodeLengthCode | lodepng.c:1800-1876 | The header so made is a valid header of RFC 1951 section 3.2.7 for the two given complete codes. |
| Compressor.WriteHeader | lodepng.c:1893-1920 | Writes exactly the bits of that header. |
| Format.ReadTokensBack | lodepng.c:1110-1200 | Reference decoding of the printed tokens of a block gives the bytes they stand for and leaves what follows the end code. |
| Blocks.ReadHeaderBack | lodepng.c:962-1107 | Reading a printed header gives back both codes and leaves the rest. |
| Blocks.ClclOrderIs | lodepng.c:500-501 | The order of the code length code lengths: the repeat codes and 0, then from length 8 outwards. |
| Blocks.ReadBlocksBack | lodepng.c:1230-1258 | The reference decoder inverts the printed form of every sequence of valid blocks, whatever bits follow. |
| Compressor.DeflateFixed | lodepng.c:1947-1993 | Appends the bits of a fixed block that stands for exactly the given bytes after those before them. |
| Compressor.CopyLiterals | lodepng.c:1768-1771 | The writes stay inside the vector exactly if the block starts at 0 or is empty. |
| Compressor.DeflateDynamic | lodepng.c:1702-1945 | Appends the bits of a dynamic block that stands for exactly the given bytes; without LZ77 it fails exactly if the block does not start at 0 and is not empty. |
| Streams.DeflateNoCompression | lodepng.c:1631-1666 | Stored blocks of up to 65535 bytes that hold exactly the data; nothing at all for empty data. |
| Streams.DeflateStream | lodepng.c:1995-2032 | The error is a function of settings and size; without an error the bits are those of blocks that stand for exactly the data. |
| Inflate.Inflator.CopyMatch | lodepng.c:1169-1182 | The copy with the wrapping source position equals copying byte by byte, overlap included. |
| Inflate.Inflator.InflateTokens | lodepng.c:1124-1195 | For all bits: the output and position of reference decoding, or its error: 11, 18, 51 or 52. |
| Inflate.Inflator.InflateNoCompression | lodepng.c:1202-1228 | For all bytes: which of errors 52, 21, 23 or 0 comes, and the bytes copied. |
| Inflate.Inflator.GetTreeInflateDynamic | lodepng.c:962-1107 | For all bits: the two codes of the reference and the position behind the header, or its error: 11, 13 to 15, 49, 50, 54, 55 or 64, in the order of the source. |
| Inflate.Inflator.InflateStream | lodepng.c:1230-1258 | For every sequence of bytes: exactly the output of the reference decoder, or exactly its error. |
| StandardStreams.FixedCodes | lodepng.c:887-904 | The fixed codes are, for all 288 symbols, those of the table in section 3.2.6 of RFC 1951. |
| StandardStreams.InflateFixed | lodepng.c:1110-1200 | The bytes 4b 4c 02 42 00, a fixed block of two literals and a match, are "ababa". |
| StandardStreams.InflateStored | lodepng.c:1202-1228 | A stored block given byte by byte. |
| StandardDynamic.InflateDynamic | lodepng.c:962-1200 | Twenty bytes with a dynamic block, all three repeat codes, and a length and a distance with extra bits, are "abcda" five times. |
| Streams.RoundTrip | lodepng.c:1995-2032 | For all data and settings for which the compressor reports no error: decompressing gives error 0 and exactly the data, except for empty data in stored mode, which always fails. |
| Zlib.AdlerStretch | lodepng.c:2072-2087 | Added up with 32-bit wrap-around and reduced once after up to 5550 bytes, both sums are those of the definition that reduces at every byte. |
| Zlib.UpdateAdler32 | lodepng.c:2067-2094 | From every start value and for every length, the checksum of section 2.2 of RFC 1950: modulo 65521, the low half is the old one plus the sum of the bytes, the high half the old one plus the length times the old low half plus each byte times its distance from the end. |
| Zlib.AdlerHalves | lodepng.c:2067-2094 | The checksum reduced at every byte has these two halves. |
| Zlib.ZlibDecompress | lodepng.c:2102-2145 | For every input: errors 53, 24, 25 and 26 in their order; else the error of the inflater, or its output, with error 58 exactly if the checksum is looked at and wrong. |
| StandardStreams.DecompressLetter | lodepng.c:2102-2145 | The bytes 78 9c 4b 04 00 00 62 00 62 are the letter a. |
| Zlib.ZlibRoundTrip | lodepng.c:2164-2203 | Compressing and decompressing gives the data back for both checksum policies, with the one exception of stored mode and empty data. |
| Filters.UnfilterFilterRow | lodepng.c:5049-5103 | Unfiltering undoes filtering of a row for every filter type and previous row. |
| Filters.FilterUnfilterRow | lodepng.c:3877-3949 | Filtering undoes unfiltering, so every filter is a bijection on rows. |
| Filters.PaethPredictor | lodepng.c:3747-3756 | The predictor is the nearest of left, above and left above, with ties in the order of section 9.4 of the PNG specification. |
| Filters.UnfilterScanline | lodepng.c:3877-3949 | Output minus input is, byte by byte and modulo 256, nothing, the byte to the left, the byte above, half of their sum rounded down, or the nearest of the three neighbours; in memory that may overlap its input from behind. Error 36 exactly for types above 4. Covers the shortcuts for the first row and the left border. |
| Filters.FilterScanline | lodepng.c:5049-5103 | Input minus output is what the type says in the same way; writes nothing for a type above 4. |
| Scanlines.LeftNeighbour | lodepng.c:3951-3980 | The byte that the filters take for the left one is the same byte of the pixel to the left; pixels of less than a byte are not told apart. |
| ImageFilter.UnfilterFilteredImage | lodepng.c:3951-3980 | An image filtered row by row comes back if and only if every type is at most 4. |
| ImageFilter.Unfilter | lodepng.c:3951-3980 | For every stream: error 36 exactly if some type is above 4, else the image, the same for output and input in one memory as in two. |
| FilterCosts.SumCost | lodepng.c:5182-5203 | The measure of the minimum sum strategy: the sum of the bytes for type 0, else the sum of the absolute signed differences, less one for each negative one. |
| FilterCosts.LogShape | lodepng.c:5105-5112 | The approximation of the logarithm rises, is nearly zero at 1, and doubling adds one. |
| FilterCosts.EntropyCost | lodepng.c:5238-5247 | The measure of the entropy strategy, over the histogram of a filtered row and its type, in exact arithmetic. |
| ImageFilter.LeastCost | lodepng.c:5170-5217 | Of the five filters of a row the first one of least cost is kept. |
| ImageFilter.Filter | lodepng.c:5114-5332 | Under every strategy the stream consists of the filtered rows of the image. Minimum sum and entropy take, for every row, the first type of least cost; only a predefined strategy may hold types above 4, and it holds exactly the given types. Errors 31 and 88 otherwise. |
| PixelBits.RemovePaddingBits | lodepng.c:4043-4068 | Rows lose their padding bits, also when output and input overlap, as long as the output does not start later. |
| PixelBits.UnpaddedPadded | lodepng.c:5334-5354 | Removing the padding bits undoes adding them. |
| Adam7.PixelHasSlot | lodepng.c:3760-3778 | Every pixel lies in some pass at some place ... |
| Adam7.SlotIsUnique | lodepng.c:3760-3778 | ... and in only one. |
| Adam7.StartsOrdered | lodepng.c:3780-3806 | Each stage of the decoder starts every pass no later than the stage before: one buffer is enough. |
| Adam7.GetPassValues | lodepng.c:3780-3806 | The sizes and the three tables of starts are those of the seven passes. |
| Adam7.PredictionIsExact | lodepng.c:4589-4606 | The size predicted from closed formulas is where the last filtered pass ends, for all sizes and depths. |
| Interlace.InterlacedUnique | lodepng.c:3993-4041 | The passes determine every bit of the image. |
| Interlace.InterlaceImage | lodepng.c:5367-5414 | Every pixel is put to its slot in its pass, for whole bytes and for single bits. |
| Interlace.DeinterlaceImage | lodepng.c:3993-4041 | The image written is the one whose passes were given; with `InterlacedUnique` it undoes interlacing. |
| Scanlines.PreProcessScanlines | lodepng.c:5418-5503 | The scanlines stand for the pixels of the image exactly if all filter types are legal. |
| Scanlines.PostProcessScanlines | lodepng.c:4073-4121 | Error 31 without bits per pixel; else error 36 exactly if the scanlines are not readable, and otherwise the image they stand for, although all stages share one buffer. |
| Scanlines.ScanlineRoundTrip | lodepng.c:4073-4121 | For all sizes, color types, interlace methods and strategies: the first w * h * bpp bits come back, with error 36 exactly if a predefined type in use is above 4, a condition on the settings alone. |
| Scanlines.ScanlinesMean | lodepng.c:3951-3980 | Readable scanlines stand for rows that begin with their type and are, byte by byte, what section 9 of the PNG specification says, next to the pixel to the left and the row above in the image; their first w * bpp bits are the pixels. |
| PngImage.ImageRoundTrip | lodepng.c:4585-4626 | The same with zlib in between; the size check (error 91) never fails. |
| ColorTrees.ColorTree.Get | lodepng.c:2984-2994 | The index of the color in the finite map of the tree, -1 if it is not there. |
| ColorTrees.ColorTree.Add | lodepng.c:3005-3020 | Adds exactly one entry to that map, or replaces the index of the color. |
| ColorSamples.GreyIsSample | lodepng.c:3143-3166 | A grey pixel is read as its sample, most significant bit first, scaled to 255, or the upper byte of two; transparent exactly if it is the key. |
| ColorSamples.RgbIsSamples | lodepng.c:3167-3185 | A true color pixel is read as its samples red, green and blue, in this order; transparent exactly if all three are the key. |
| ColorSamples.PaletteIsSample | lodepng.c:3186-3210 | A palette pixel is read as the color that its sample is the index of; black beyond the palette. |
| ColorSamples.GreyAlphaIsSamples | lodepng.c:3211-3223 | Grey, then alpha. |
| ColorSamples.RgbaIsSamples | lodepng.c:3224-3241 | Red, green, blue, alpha. |
| Pixel16.Color16IsSamples | lodepng.c:3379-3413 | Read in full, a pixel of 16 bits has the same samples, high byte first. |
| Conversion.ReadBitsFromReversedStream | lodepng.c:2349-2386 | The number in the next bits, most significant first. |
| PixelWriting.Rgba8ToPixel | lodepng.c:3023-3094 | Writing a color makes the pixel read as what the mode keeps of it; pixels before it stay, and so do all others unless they share its byte. Error 82, and nothing written, exactly for colors that a palette lacks. |
| PixelWriting.KeptExactly | lodepng.c:3023-3094 | What the mode keeps of a color is that color exactly if the mode can show it. |
| Pixel16.Rgba16ToPixel | lodepng.c:3096-3136 | The same in full, for modes of 16 bits. |
| Conversion.GetPixelColors | lodepng.c:3243-3377 | The loops over all pixels, one for each color type, read the colors that reading pixel by pixel gives. |
| Conversion.Convert | lodepng.c:3415-3476 | Between all modes: every pixel of the output reads as what its mode keeps of the color of the input, in full between modes of 16 bits; the bytes stay if the modes are equal. To a palette all colors are kept exactly if it has them among as many as its values can count, whatever was in the memory, unless a black pixel may be read from a value behind the end of the palette. |
| ColorModes.AddColorBits | lodepng.c:2938-2947 | Stores a pixel of less than a byte; the pixels before stay, those after are still zero. |
| ColorKeys.FlagsStep | lodepng.c:3614-3637 | One pixel keeps the flags right: key exactly if the first pixel that is not opaque is transparent; alpha exactly if some pixel is partly transparent or contradicts the key behind it. |
| ColorKeys.KeyExactly | lodepng.c:3614-3637 | Without an alpha channel the key shows every pixel as it is exactly if no pixel before the first transparent one has its color. |
| Profiles.GetColorProfile | lodepng.c:3513-3669 | Truly 16-bit exactly if some channel has two different bytes. For every image, although the scan may end early, whether there are colors, key and alpha; if it is not truly 16-bit, also the bits and how many different colors there are, up to 256 of which are in the palette, each once. |
| ColorChoice.OnlyShown | lodepng.c:3138-3241 | No pixel of an image reads as a color that its mode cannot show. |
| ColorChoice.UsuallyFit | lodepng.c:3599-3605 | Only palettes of less than eight bits may hold grey levels that the bits found do not show. |
| ColorChoice.AutoChooseColor | lodepng.c:3676-3738 | A palette is chosen exactly for up to 256 different colors, fewer than half as many as pixels, unless grey levels take no more bits; it shows every pixel. Any other mode, also one of 16 bits, has the color type, depth and key that follow from the pixels, and shows every pixel exactly if it has an alpha channel, or no pixel before the first transparent one has its color and, for fewer than 16 bits, all grey levels fit the depth. |
| Conversion.AutoConvert | lodepng.c:5567-5601 | Choice and conversion together: all pixels keep their colors, in full if truly 16-bit, exactly if a palette is chosen, or the input is one for which the other modes lose nothing. |
| PngPixels.EncodeDecodePixels | lodepng.c:5567-5603 | From the pixels of an image of any size and mode through choice, conversion, filters, interlacing and zlib and back: the errors as a function of the settings; without an error every pixel the decoder has is of its color in the original, under the same exact condition. |
| JpegRadix.RadixSortSyms | compositor/jpge.cpp:143-160 | A permutation sorted by key that keeps the order of equal keys, although passes over zero bytes are skipped. |
| JpegMinimum.HuffmanIsMinimal | compositor/jpge.cpp:163-182 | No prefix code for the weights costs less than the total weight of the merged nodes of Huffman's algorithm. |
| JpegBuild.BuildTree | compositor/jpge.cpp:165-171 | The first phase in place: parent pointers of a tree whose node weights are those of Huffman's algorithm, none above the sum of all weights, and whose height is that of the algorithm on two queues. |
| JpegHeight.HeightStep | compositor/jpge.cpp:168-171 | One turn of the loop does what the algorithm on two queues does, ties included: of a leaf and a node that weigh the same the leaf comes first. |
| JpegDepths.LongestLeaf | compositor/jpge.cpp:172-181 | The first leaf is as deep as the tree is high. |
| JpegDepths.CalculateMinimumRedundancy | compositor/jpge.cpp:163-182 | In place, sorted weights become lengths that do not ascend, have Kraft sum exactly one, cost what the merged nodes weigh, and no more than any other prefix code; the longest is the height of the tree of the algorithm on two queues. |
| JpegDepths.LevelMeansClose | compositor/jpge.cpp:163-182 | If 2^k codes of length k are of least cost, no weight exceeds the sum of the two smallest. |
| JpegLimit.StepLimited | compositor/jpge.cpp:195-203 | One step of the loop keeps the number of codes and brings the Kraft sum one unit closer to one. |
| JpegLimit.EnforceMaxCodeSize | compositor/jpge.cpp:185-204 | The counts of a complete code become those of a complete code within the limit, with the same number of codes, none negative and no length shorter than before; nothing changes if nothing was too long. |
| JpegFibonacci.Exchange | compositor/jpge.cpp:219-221 | In a code of least cost, what fills 2^-i of the code space behind the first 2^-i weighs at least as much as the first 2^-(i+1). |
| JpegFibonacci.LongCodeIsHeavy | compositor/jpge.cpp:219-221 | A code of least cost with a length L needs weights of at least Fib(L + 2) together. |
| JpegFibonacci.NoLongCode | compositor/jpge.cpp:219-221 | Weights below 9227465 together have no length above 32. |
| JpegLongCodes.SteepIsLong | compositor/jpge.cpp:219-221 | For weights that each exceed the sum of all before their predecessor, every code of least cost has a length of one less than there are weights. |
| JpegLevel.CutExactlyIfLevel | compositor/jpge.cpp:223-229 | Of 256 codes a count is cut by the cast to a byte exactly if all lengths are 8. |
| JpegOptimize.OptimizeHuffmanTable | compositor/jpge.cpp:207-240 | With at most 254 symbols and no length above 32 the table has a code for exactly the symbols that occur, the frequent first, none of only ones, and fits the decoder's tree; with 255 symbols this holds if and only if two counts differ by more than one. A length above 32 is reported exactly if the two queues give a tree higher than 32, a condition on the counts alone; counts below 9227464 in all exclude it. |
| JpegTotals.FewSymbols | compositor/jpge.cpp:617-654 | A scan uses at most 254 symbols of any table. |
| JpegTables.SymbolCodesPrefixFree | compositor/jpge.cpp:366-397 | No code of a symbol is a prefix of the code of another. |
| JpegTables.ComputeHuffmanTable | compositor/jpge.cpp:366-397 | Codes and sizes per symbol are those of Annex C of T.81. |
| JpegBits.BitPutter.PutBits | compositor/jpge.cpp:603-615 | Appends the code bits; a zero byte follows every 0xFF byte. |
| JpegBlocks.CodeCoefficientsPassOne | compositor/jpge.cpp:617-654 | Counts exactly the symbols of the block. |
| JpegBlocks.CodeCoefficientsPassTwo | compositor/jpge.cpp:656-718 | Appends exactly the codes and extra bits of those symbols. |
| JpegScan.CodedIsCounted | compositor/jpge.cpp:617-718 | Every symbol that pass two emits was counted in pass one. |
| JpegScan.CountedIsCodable | compositor/jpge.cpp:415-436 | Tables with a code for every counted symbol code the whole scan, if the same blocks come twice and first coefficients do not jump by more than 2047. |
| JpegScan.EncodeScan | compositor/jpge.cpp:765-781 | The data is exactly the bits of the scan, filled up with ones to whole bytes, stuffed, and the end marker. |
| JpegStandard.EncodeFourBlocks | compositor/jpge.cpp:603-781 | Four blocks of two components, with four given tables, are the bytes AE FF 00 99 0C 07 FF D9: predictions, runs, extra bits, stuffing and padding as in Annex F of T.81. |
| JpegStandard.DecodeFourBlocks | compositor/jpgd.cpp:1760-1865 | Those bytes give the coefficients, dequantized and in their natural places. |
| JpegZigzag.ZagWalks | compositor/jpgd.cpp:38 | The zigzag order walks the anti-diagonals, down to the left on odd and up to the right on even ones. |
| JpegReader.BitReader.GetBits | compositor/jpgd.cpp:455-489 | The next bits of the unstuffed stream, padded by end markers; the buffer invariant holds again. |
| JpegTreeSize.InnerSize | compositor/jpgd.cpp:2307-2345 | The number of inner nodes of eight bits or more of a canonical code, read off the 16 counts of the table. |
| JpegLookup.HuffTables.MakeHuffTable | compositor/jpgd.cpp:2213-2350 | The tree of 512 cells suffices exactly if that number is at most 256; then the tables hold exactly the codes and, where they fit, the extra bits. |
| JpegDecode.HuffDecodeExtra | compositor/jpgd.cpp:516-562 | Table lookup, tree walk and packed extra bits read the same symbol, extra bits and number of bits as reading bit by bit. |
| JpegDecode.HuffDecode | compositor/jpgd.cpp:492-513 | The same without extra bits. |
| JpegBlockDecode.DecodeAc | compositor/jpgd.cpp:1785-1853 | Whatever an earlier block left in the slot, the block is what its symbols make of a block of zeros; and if a coded block lies ahead, it is that block. |
| JpegScan.JpegDecoder.DecodeScan | compositor/jpgd.cpp:1760-1865 | Over all MCUs, with slots that are reused, every coded block comes back, times its quantization table. |
| JpegRoundTrip.Encode | compositor/jpge.cpp:765-781 | Two passes with optimized tables: the data holds the scan, and the tables code it and fit the decoder. |
| JpegRoundTrip.RoundTrip | compositor/jpgd.cpp:1760-1865 | Every coefficient of every block comes back, times its entry of the quantization table, for all sequences of valid blocks for which none of the four trees is higher than 32 (`ShortCodes`), and only for those; up to 146467 blocks that is so. |
| JpegDct.BasisIsCosine | compositor/jpgd.cpp:76-152 | Row k of the weights starts out positive, changes its sign exactly k times, and is symmetric or antisymmetric, as a cosine of k half periods. |
| JpegDct.BasisIsOrthogonal | compositor/jpgd.cpp:76-152 | Different rows are orthogonal and each has the square 2^29, up to 48120. |
| JpegIdct.ButterflyIsWeighted | compositor/jpgd.cpp:76-152 | The straight-line row and column code computes the weighted sums of the reference, for all integers. |
| JpegIdct.Idct | compositor/jpgd.cpp:244-311 | The sparse transform chosen by the zigzag length of the block gives the samples of the full one and never reads a row that was not written. |
| JpegTransform.TransformMcu | compositor/jpgd.cpp:1495-1506 | Every slot, partly cleared as the decoder left it, goes through the full transform; other samples stay. |
| JpegDct.Dct1D | compositor/jpge.cpp:108-127 | Twelve multiplications give the eight weighted sums of the forward transform, though factors are cut to 16 bits. |
| JpegDct.DCT2D | compositor/jpge.cpp:130-141 | In place, every entry becomes the coefficient of its two frequencies. |
| JpegNear.NearOne | compositor/jpgd.cpp:76-152 | Forward and back in one dimension is 2^29 times the value, up to the rounding of the weights. |
| JpegNear.SampleBack | compositor/jpgd.cpp:244-311 | The inverse transform of the forward transform gives every sample back within 4, and within 4 + 7h from coefficients that are off by up to h. |
| JpegLossy.BetterIsFiner | compositor/jpge.cpp:399-413 | Better quality never means a coarser table; quality 50 is the standard table, 100 quantizes nothing. |
| JpegLossy.ComputeQuantTable | compositor/jpge.cpp:399-413 | Every entry is that of the standard table scaled by the quality, from 1 to 255. |
| JpegLossy.LoadQuantizedCoefficients | compositor/jpge.cpp:570-596 | Every coefficient becomes the nearest multiple of its table entry, in zigzag order, halves away from zero. |
| JpegLossy.CodedValid | compositor/jpge.cpp:719-728 | Blocks so made are what the entropy coder asks for. |
| JpegLossy.CompressDecompress | compositor/jpge.cpp:719-781 | Samples through forward transform, quantization, both passes and the decoder: the inverse transform of what is decoded has every sample within 4 + 7h of the original, for table entries up to 2h + 1. |
| Findings.SecondBlockOutOfBounds | lodepng.c:1768-1771 | Compressing 65536 bytes with btype 2 and without LZ77 writes outside of a vector. |
| Findings.OutOfBoundsExactly | lodepng.c:1768-1771 | That happens exactly for btype 2, no LZ77 and more than 65535 bytes. |
| Findings.StoredNothing | lodepng.c:1636-1638 | Stored mode and empty data: the decompressor gives error 52. |
| InflateFindings.DeadEndAccepted | lodepng.c:597-600 | A stream whose dynamic block has the end code as its only code, the bit 0, is accepted; the bit 1 before it, which no code begins with, is read as the byte 0. |
| InflateFindings.ThreeShortCodes | lodepng.c:565-595 | Three distance codes of one bit are not refused, although their Kraft sum is above one. |
| Findings.PredefinedFive | lodepng.c:5267-5276 | One pixel with the predefined filter type 5 gives error 36. |
| ColorFindings.NothingShows | lodepng.c:3138-3241 | A color that a mode cannot show is that of no pixel of any image of the mode. |
| ColorFindings.OpaqueBecomesKey | lodepng.c:3614-3637 | For 17 pixels, an opaque one first and a transparent one of its color last, the mode chosen cannot show all of them. |
| ColorFindings.GreyPaletteLost | lodepng.c:3599-3605 | For one pixel of a grey palette image of one bit the mode chosen has black and white only. |
| ColorFindings.MissingColor | lodepng.c:3464-3475 | A red pixel converted to a palette of black: no error, and the pixel is not red, whatever the memory held. |
| JpegLongScan.LongScanSize | compositor/jpge.cpp:617-654 | The scan built here has 7881194 blocks, ... |
| JpegLongScan.LongScanValid | compositor/jpge.cpp:617-654 | ... and is one that the encoder takes. |
| JpegLongScan.LongScanAnyTies | compositor/jpge.cpp:219-221 | Every code of least cost for what pass one counts in it has a length of 33 bits, ... |
| JpegLongScan.LongScanOverflows | compositor/jpge.cpp:219-221 | ... so that it does not meet the condition of the round trip, ... |
| JpegLongScan.LongCode | compositor/jpge.cpp:219-221 | ... and the encoder writes outside of num_codes. |
| JpegFindings.NoCodes | compositor/jpge.cpp:226-229 | On 255 counts of seven the modelled program makes a table that is not right for them. |
| JpegFindings.NineAmongSevens | compositor/jpge.cpp:226-229 | With a nine among the sevens the condition for a right table holds. |
| JpegFindings.LongTableSize | compositor/jpgd.cpp:2307-2345 | Two codes of 15 bits and 253 of 16 need 261 inner nodes of eight bits or more. |
| JpegFindings.TreeOverflow | compositor/jpgd.cpp:2307-2345 | For this table, which is valid, the tree is written past its end. |

## Left out

- Allocation failures (error 83), cleanup functions, setjmp and longjmp, file streams, C++ wrappers, custom_inflate, custom_deflate and
  custom_zlib hooks.
- Floating point: package-merge weights are exact naturals, and the entropy of a filtered row is computed in exact arithmetic.
- ImageFilter.Filter: the compressed sizes that the brute-force strategy compares are left open, so it may choose any type from 0 to
  4 for a row; the buffers of the attempts are not reused.
- Widths of size_t and int where sums and products do not reach them: sizes, bit positions and pixel counts are unbounded, the
  inverse transform works on unbounded integers. The 32-bit sums of Adler-32, the bit buffers, the sort keys and the cast of code
  counts to bytes are modelled with their widths.
- Chunks, text, CRC, background, physical dimensions, the decoder and encoder state, and PNG files as a whole: from pixels to
  compressed scanlines and back only.
- Conversion.Convert: where a palette lacks colors, only that the image is not right as a whole; of fewer than eight bits, the other
  pixels in the byte of one that was left out are not right either, or only by chance.
- PngPixels.EncodeDecodePixels: the mode itself is passed on, as the chunks that hold it are left out; the conversion back that the
  decoder makes is `Conversion.Convert`.
- JPEG markers and headers, progressive scans, restart intervals, chroma upsampling, color conversion and
  subsampling, refilling of the input buffer (all input is in memory), and markers inside the entropy-coded data.
- compositor/lodepng.cc: the same source as lodepng.c, modelled once. The scheduler, lib, scripts and experimental directories.
- Streams.RoundTrip: btype 1 needs data, as its block size of 0 is a divisor (lodepng.c:2005, 2012).
- PackageMerge.HuffmanCodeLengths: rows of coins are sequences of values, not reused arrays. If the limit leaves no room for the
  symbols, nothing but the length of the result is said about the code.
- Deflate.MakeFromFrequencies: takes at least two symbols and no more than the limit has room for, as all its callers do.
- JpegOptimize.OptimizeHuffmanTable: for all 256 symbols in use nothing is said about the table, as a table has room for 256 values
  and the dummy makes 257; counts must add up to less than 2^32, as the keys would wrap.
- JpegDepths.CalculateMinimumRedundancy: works on the column of keys alone; the symbol indices beside them do not change.
- Lz77.Hash.FindMatch: where three zeros lie ahead, and the search may leave the chain for the one of positions with as many zeros,
  only the first position of the chain is compared with.
- Lz77.EncodeLZ77: windows of fewer than 8 bytes, in which the source tries no position at all, have no matches; positions from
  before the current block are candidates by their hash values then.
- JpegLossy.CompressDecompress: the samples are those of the blocks, after color conversion and subsampling; the standard tables are
  a parameter.
- JpegRoundTrip.RoundTrip: coefficients are below 32768 in magnitude and first coefficients jump by no more than 2047, as the
  encoder's tables have 12 codes for them; both table pairs are optimized, also for images in gray, which use only one.
- JpegLookup.HuffTables.MakeHuffTable: expects zeroed tables, as in the source, and a valid table specification.
- Filters.UnfilterScanline: a row has at least as many bytes as a pixel, as every row of an image does.
