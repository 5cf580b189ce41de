# Verified models of Dinastycoin's QR encoder, depth search and file embedder

Three parts of the repository are modelled here and proved correct for all inputs.

**The QR Code encoder** (`external/qrcodegen/QrCode.cpp`), from text to the finished grid of modules.
A reader that is given nothing but the modules recovers what was encoded
(`QrCodes.EncodeText`, `QrCodes.EncodeBinary`, `QrCodes.EncodeSegments`, `QrCodes.Create`). Under this
end-to-end theorem lie

- the field GF(2^8) modulo 0x11D as polynomial remainders, the in-place generator polynomial, the codeword
  theorem, and the minimum distances of the three codes, up to whole symbols that survive damaged modules
  (`Damage.SymbolSurvives`);
- the bit stream: segments, version search, level boosting and padding, with a parser that inverts it;
- block splitting and interleaving for any number and length of blocks, with its inverse;
- the zigzag scan and the function patterns for every size 4 v + 17 and every arrangement of alignment
  patterns, with the count of the modules that are left for data;
- trial masks that leave no trace, and the one-pass penalty scanner against the sum over maximal runs.

**The minimum depth search** (`src/blockchain_utilities/blockchain_depth.cpp`): a level by level search without
a visited set. Its outcome is stated exactly on every chain: when it ends with a depth, that is the length of
a shortest path to a coinbase transaction, and on chains whose rings lie in lower blocks it ends from everywhere
exactly when no transaction is without ring members.

**The file embedder** (`translations/generate_translations_header.c`): a C++ compiler's view of the printed
string literals gives back the bytes of the file, exactly when the file is not empty.

Code that works in place is modelled in place: `QrSymbol.QrCode` is a class whose methods redraw its grids,
`BitBuffers.BitBuffer` grows, the Reed-Solomon passes run on an array, and the loops are loops. Each method is
proved against a function or predicate of values, and the lemmas are about those. Exceptions are `Result` values,
or a Boolean result where a method can only succeed or throw; the internal assertions of the C++ code are proved
unreachable. Bytes are the integers 0 to 255, and `Bitwise` gives exclusive or and the shifts on natural numbers.

| modules | content |
|---|---|
| `Arithmetic`, `Bitwise`, `Outcomes` | division facts, bit operations, results |
| `ShiftRegister`, `GaloisField`, `PowersOfTwo`, `Polynomials` | the algebra |
| `ReedSolomon`, `MinimumDistance` | error correction codes |
| `BitBuffers`, `Segments`, `SegmentReader`, `Sizes`, `Encoder` | the bit stream |
| `Interleaving`, `Zigzag`, `FunctionPatterns`, `Alignment` | the layout |
| `InfoWords`, `BitErrors`, `InfoCodes`, `Ink`, `Masking`, `Penalty`, `Scores`, `QrSymbol`, `MaskChoice` | drawing and masking |
| `MaskLaws`, `PenaltyFacts` | what the masks and the score mean |
| `QrReader`, `FunctionReader`, `QrCodes`, `Damage` | end to end |
| `RingOffsets`, `ChainGraph`, `ChainDepth`, `ChainTermination` | the depth search |
| `EmbeddedFile` | the file embedder |

`dafny verify dfyconfig.toml` checks all of it.

## Model

| member | source | states |
|---|---|---|
| `QrCodes.EncodeText` | external/qrcodegen/QrCode.cpp:243-246 | A symbol of any text reads back as that text; no single segment that spells the text, in whatever mode, fits a smaller version, and the level is the highest that fits; it fails exactly when no version from 1 to 40 fits (or the text is longer than an int counts), so never at the low level for up to 2953 bytes. |
| `QrCodes.EncodeBinary` | external/qrcodegen/QrCode.cpp:249-252 | A symbol of any bytes reads back as exactly those bytes, and at the low level it exists if and only if there are at most 2953 of them, as `QrCode.hpp` promises. |
| `QrCodes.EncodeSegments` | external/qrcodegen/QrCode.cpp:255-317 | Both errors exactly when their condition holds; otherwise the grid looks right to a reader, is a finished symbol of its data codewords (with the best mask when the mask is automatic), its codewords are the best plan for the segments, and for factory-made segments the reader, which has its own count widths, returns their contents. |
| `QrCodes.Create` | external/qrcodegen/QrCode.cpp:320-360 | For every version, level, mask argument and codeword list of the right length: unmasking, zigzag reading, de-interleaving and dropping the error correction of the finished grid gives exactly the data codewords; the grid shows the pictures of all patterns, and both copies of the format word and of the version word tell level, mask and version; the errors exactly for bad arguments. |
| `QrCodes.EncodesReadsBack` | external/qrcodegen/QrCode.cpp:287-316 | Any grid that carries the best plan for factory-made segments reads back as their contents. |
| `QrCodes.MakeSegments` | external/qrcodegen/QrCode.cpp:123-138 | The segments are those of the contents chosen for the text, and it fails only for a byte text longer than an int counts. |
| `QrCodes.BinaryLimit` | external/qrcodegen/QrCode.hpp:268-274 | 2953 bytes fit version 40 at the low level, and 2954 fit no version. |
| `QrCodes.TextFits` | external/qrcodegen/QrCode.hpp:258-265 | Every text of up to 2953 bytes fits version 40 at the low level, in whichever mode is chosen. |
| `QrCodes.ModeIsBest` | external/qrcodegen/QrCode.cpp:123-138 | The mode that is chosen is the most efficient: any single segment that spells the text fits no version and level that the chosen one does not fit. |
| `QrCodes.ByteLimits` | external/qrcodegen/QrCode.cpp:55-64 | Exactly 230, 271, 1367 and 1465 bytes fit versions 9, 10, 26 and 27 at the low level, on both sides of each change of the count field. |
| `QrCodes.MarksAreMap` | external/qrcodegen/QrCode.cpp:416-442 | After drawing on a blank grid, the marks are exactly the function modules, and each has the colour of its pattern. |
| `QrCodes.CandidateShowsFunctions` | external/qrcodegen/QrCode.cpp:338-356 | Masking and redrawing the format word leave all other function patterns as they were. |
| `FunctionReader.FunctionsLookRight` | external/qrcodegen/QrCode.cpp:416-521 | A grid that shows its function patterns has everything a reader looks for: the patterns as pictures and the words at its own list of cells. |
| `FunctionReader.FinderShown` | external/qrcodegen/QrCode.cpp:496-505 | Each finder pattern is the seven by seven picture with a white border. |
| `FunctionReader.TimingShown` | external/qrcodegen/QrCode.cpp:417-421 | Row 6 and column 6 alternate from finder to finder; alignment patterns do not break the alternation. |
| `FunctionReader.AlignmentsShown` | external/qrcodegen/QrCode.cpp:427-437 | Every alignment pattern but those in the corners is the five by five picture. |
| `FunctionReader.FormatTold` | external/qrcodegen/QrCode.cpp:445-470 | Either copy of the format word alone tells level and mask, and the dark module is black. |
| `FunctionReader.VersionShown` | external/qrcodegen/QrCode.cpp:473-493 | From version 7 on, either copy of the version word alone is a multiple of 0x1F25 whose upper six bits are the version. |
| `QrReader.ReadDataOfSymbol` | external/qrcodegen/QrCode.cpp:320-360 | End to end decoding: whatever the reader gets from a finished grid alone is the data it was made from. |
| `QrReader.ReadRawOfCandidate` | external/qrcodegen/QrCode.cpp:568-617 | The reader finds level and mask in the format word and, unmasking and scanning, all interleaved codewords. |
| `QrReader.ReadFormatOfCandidate` | external/qrcodegen/QrCode.cpp:445-463 | The first copy of the format word on a finished grid announces the level and the mask that were used. |
| `QrReader.LayoutValid` | external/qrcodegen/QrCode.cpp:529-538 | For every version and level each block has 7 to 30 error correction bytes, more bytes than that, and at most 201; the data codewords are what is left. |
| `Damage.SymbolSurvives` | external/qrcodegen/QrCode.cpp:320-360 | A finished symbol is changed in any function modules, but at most 3 of those that carry the format word, and in each block in up to half the error correction length of codeword modules. Then it reads as its level, mask and data, and in no other way. |
| `Damage.OneReading` | external/qrcodegen/QrCode.cpp:445-463 | No grid reads in two ways, with the format word off by up to 3 modules and each block by up to half its error correction. |
| `Damage.DamageTolerated` | external/qrcodegen/QrCode.cpp:529-565 | The same for interleaved codewords: each block has its own budget of half the error correction length, wherever the damaged bytes are. |
| `Damage.OneExplanation` | external/qrcodegen/QrCode.cpp:529-565 | No two different data lie within half the error correction length, block by block, of the same bytes. |
| `Damage.RawDistance` | external/qrcodegen/QrCode.cpp:568-617 | n damaged codeword modules change at most n of the codewords that are read. |
| `Damage.BlockDamage` | external/qrcodegen/QrCode.cpp:529-593 | n damaged modules among those that carry a block change at most n bytes of its codeword. |
| `Damage.BlockDistance` | external/qrcodegen/QrCode.cpp:553-563 | Interleaving maps different bytes of a block to different places, so no damaged byte counts twice in a block. |
| `ShiftRegister.StepsDivide` | external/qrcodegen/QrCode.cpp:447-453 | For any generator of degree n, start below 2^n and number of steps k: the register stays below 2^n, and start * x^k is the generator times the bits that left the register, plus the register. |
| `ShiftRegister.StepsXor` | external/qrcodegen/QrCode.cpp:447-453 | The register after k steps is linear in its start value. |
| `ShiftRegister.MultipleIsLarge` | external/qrcodegen/QrCode.cpp:447-453 | A multiple of the generator by a polynomial of degree k has degree at least n + k. |
| `ShiftRegister.DivisionUnique` | external/qrcodegen/QrCode.cpp:447-453 | Quotient and remainder of a division by a generator of degree n are unique. |
| `ShiftRegister.StepsAreRemainder` | external/qrcodegen/QrCode.cpp:447-453 | The register after k steps, and no other value, is start * x^k mod the generator, for any generator, start and k. |
| `ShiftRegister.CarrylessXor` | external/qrcodegen/QrCode.cpp:447-453 | Multiplication of polynomials over GF(2) distributes over addition. |
| `GaloisField.Multiply` | external/qrcodegen/QrCode.cpp:772-782 | The Russian peasant loop computes the field product, for all bytes; its range assertion cannot fire. |
| `GaloisField.MulIsRemainder` | external/qrcodegen/QrCode.cpp:772-782 | The product of bytes, and no other value, is the product of polynomials over GF(2) mod 0x11D. |
| `GaloisField.MulCommutes` | external/qrcodegen/QrCode.cpp:772-782 | Multiplication is commutative. |
| `GaloisField.MulAssociates` | external/qrcodegen/QrCode.cpp:772-782 | Multiplication is associative. |
| `GaloisField.MulXorRight` | external/qrcodegen/QrCode.cpp:772-782 | Multiplication distributes over exclusive or. |
| `PowersOfTwo.Order` | external/qrcodegen/QrCode.cpp:745-754 | The powers of 2 come back to 1 after exactly 255 steps. |
| `PowersOfTwo.ExpDistinct` | external/qrcodegen/QrCode.cpp:745-754 | The roots 2^i, i < 255, are pairwise different. |
| `PowersOfTwo.NoZeroDivisors` | external/qrcodegen/QrCode.cpp:772-782 | A product is zero if and only if a factor is. |
| `ReedSolomon.ComputeDivisor` | external/qrcodegen/QrCode.cpp:734-756 | For every degree from 1 to 255 the result, with the leading 1 put back, is the product of (x - 2^i), i < degree; any other degree is rejected. |
| `ReedSolomon.MultiplyInPlace` | external/qrcodegen/QrCode.cpp:748-752 | One run of the inner loop over the array is the pass that multiplies by (x - root), computed from the values before it. |
| `ReedSolomon.PassMultiplies` | external/qrcodegen/QrCode.cpp:745-754 | Each pass takes the array from one partial product to the next; before the last pass nothing is lost off the front. |
| `ReedSolomon.GeneratorRoots` | external/qrcodegen/QrCode.cpp:739-744 | The generator polynomial vanishes at 2^0 to 2^(degree-1). |
| `ReedSolomon.ComputeRemainder` | external/qrcodegen/QrCode.cpp:759-769 | The shift register loop computes the remainder of the division. |
| `ReedSolomon.RemainderVanishes` | external/qrcodegen/QrCode.cpp:759-769 | For any divisor: data followed by the remainder vanishes wherever the divisor does. |
| `ReedSolomon.CodewordVanishes` | external/qrcodegen/QrCode.cpp:734-769 | Codeword theorem: data of any length followed by its remainder vanishes at 2^0 to 2^(degree-1). |
| `ReedSolomon.RemainderAdd` | external/qrcodegen/QrCode.cpp:759-769 | The remainder is linear in the data. |
| `MinimumDistance.Vandermonde` | external/qrcodegen/QrCode.cpp:734-769 | If as many power sums at distinct points vanish as there are terms, all coefficients are zero. |
| `MinimumDistance.MinimumWeight` | external/qrcodegen/QrCode.cpp:734-769 | A word of up to 255 bytes that vanishes at the roots is zero or has more than `degree` non-zero bytes. |
| `MinimumDistance.CodewordDistance` | external/qrcodegen/QrCode.cpp:734-769 | Codewords of different data of equal length differ in at least degree + 1 bytes. |
| `MinimumDistance.UniqueDecoding` | external/qrcodegen/QrCode.cpp:734-769 | At most one data block has its codeword within half the degree of a received word. |
| `MinimumDistance.RemainderUnique` | external/qrcodegen/QrCode.cpp:759-769 | The remainder is the only choice of error correction bytes that makes the codeword vanish at the roots. |
| `BitBuffers.BitBuffer.AppendBits` | external/qrcodegen/QrCode.cpp:855-860 | Appends the bits of the value, most significant first; fails, changing nothing, exactly when the value does not fit the width or the width is not in 0..31. |
| `BitBuffers.BitBuffer.constructor` | external/qrcodegen/QrCode.cpp:851-852 | A new buffer is empty. |
| `BitBuffers.PackOfByteBits` | external/qrcodegen/QrCode.cpp:310-313 | Packing undoes unpacking of bytes, whatever follows the last whole byte. |
| `BitBuffers.ByteBitsOfPack` | external/qrcodegen/QrCode.cpp:310-313 | Unpacking undoes packing of whole bytes. |
| `Segments.MakeBytes` | external/qrcodegen/QrCode.cpp:67-74 | The byte segment of the data, or an error exactly when the count does not fit an int. |
| `Segments.MakeNumeric` | external/qrcodegen/QrCode.cpp:77-97 | The numeric segment of the digits, or an error exactly when a character is no digit; no append can fail. |
| `Segments.MakeAlphanumeric` | external/qrcodegen/QrCode.cpp:100-120 | The alphanumeric segment of the text, or an error exactly when a character is not in the set; no append can fail. |
| `Segments.MakeEci` | external/qrcodegen/QrCode.cpp:141-156 | The designator segment, or an error exactly when the value is not in 0..999999. |
| `Segments.UnpackPack` | external/qrcodegen/QrCode.cpp:77-120 | For any grouping of values into fields, a decoder given bits and count recovers the values and the bits that follow. |
| `Segments.DigitsLength` | external/qrcodegen/QrCode.cpp:77-97 | n digits take 10 (n / 3) bits plus 0, 4 or 7. |
| `Segments.PairsLength` | external/qrcodegen/QrCode.cpp:100-120 | n characters take 11 (n / 2) + 6 (n % 2) bits. |
| `Segments.FieldValues` | external/qrcodegen/QrCode.cpp:85-120 | Fields hold decimal numbers of up to three digits, and pairs to the base 45. |
| `Segments.EciLength` | external/qrcodegen/QrCode.cpp:141-156 | A designator takes one, two or three bytes, with the limits 127 and 16383. |
| `Segments.DigitIs` | external/qrcodegen/QrCode.cpp:203-209 | Digits are exactly 0 to 9, and they are in the alphanumeric set. |
| `Segments.Advance` | external/qrcodegen/QrCode.cpp:82-93 | One round of the packing loops: the accumulator fits its field, and a full group moves to the buffer. |
| `Segments.Finish` | external/qrcodegen/QrCode.cpp:94-96 | After the loops the rest fits its narrower field and completes the payload. |
| `Segments.TextOfContents` | external/qrcodegen/QrCode.cpp:123-138 | Whichever mode is chosen, the contents spell the text. |
| `SegmentReader.PayloadRoundTrip` | external/qrcodegen/QrCode.cpp:67-156 | Every payload of every factory function is decoded, given its mode and count, to its content. |
| `SegmentReader.CountWidthIs` | external/qrcodegen/QrCode.cpp:55-64 | The widths that the encoder takes from its table are those that a reader expects in versions 1 to 9, 10 to 26 and 27 to 40. |
| `SegmentReader.CharOfValue` | external/qrcodegen/QrCode.cpp:228 | The values of the alphanumeric set are digits, letters and nine signs, in this order. |
| `SegmentReader.ReadStream` | external/qrcodegen/QrCode.cpp:287-308 | Any list of factory-made segments whose counts fit, followed by anything that ends a stream, is parsed back. |
| `Encoder.GetTotalBits` | external/qrcodegen/QrCode.cpp:177-191 | -1 exactly when a count overflows its field or the total exceeds INT_MAX; otherwise the length of the stream that the concatenation loop produces. |
| `Encoder.FindVersion` | external/qrcodegen/QrCode.cpp:260-279 | The least version in the range that fits, or none. |
| `Encoder.BoostLevel` | external/qrcodegen/QrCode.cpp:281-285 | With boosting, the highest level that fits; never below the request although the loop may go down on its way; without it, the request. |
| `Encoder.Concatenate` | external/qrcodegen/QrCode.cpp:287-295 | The buffer holds the stream of the segments, so it is as long as was computed. |
| `Encoder.AppendPadBytes` | external/qrcodegen/QrCode.cpp:306-308 | The alternating pad bytes reach the capacity exactly. |
| `Encoder.AddPadding` | external/qrcodegen/QrCode.cpp:297-308 | Terminator, zero bits and pad bytes extend the stream to the capacity, without touching it. |
| `Encoder.PaddingEnds` | external/qrcodegen/QrCode.cpp:297-308 | Whatever the padding consists of, the parser stops where the segments end. |
| `Encoder.PaddingLayout` | external/qrcodegen/QrCode.cpp:297-308 | After the terminator and the rest of its byte come 0xEC and 0x11 in turn. |
| `Encoder.PaddingZeros` | external/qrcodegen/QrCode.cpp:297-304 | The terminator has four bits, or as many as there is room for, and it and the rest of its byte are zero. |
| `Encoder.PackCodewords` | external/qrcodegen/QrCode.cpp:310-313 | The codewords are the bits, eight at a time. |
| `Encoder.PlanSegments` | external/qrcodegen/QrCode.cpp:255-313 | Both errors exactly when their condition holds; otherwise the least version, the best level and the padded codewords. |
| `Encoder.PlanReadsBack` | external/qrcodegen/QrCode.cpp:287-313 | The codewords are exactly as many as the symbol holds, and parsing them gives back the contents. |
| `Sizes.RawRange` | external/qrcodegen/QrCode.cpp:711-724 | The range assertion of the closed form cannot fire. |
| `Sizes.BlocksHoldData` | external/qrcodegen/QrCode.cpp:827-843 | By the tables, every block of every version and level has at least one data byte. |
| `Sizes.BlocksAreShort` | external/qrcodegen/QrCode.cpp:827-843 | By the tables, no block exceeds 201 bytes. |
| `Sizes.CapacityFalls` | external/qrcodegen/QrCode.cpp:727-731 | Each higher level leaves less room, and all leave some. |
| `Sizes.CapacityGrows` | external/qrcodegen/QrCode.cpp:727-731 | A greater version holds more data, at every level. |
| `Sizes.ToleratedShare` | external/qrcodegen/QrCode.hpp:243-248 | By the tables, 7 to 12, 15 to 20, 23 to 28 and 30 to 34 percent of the codewords may be damaged at the four levels. |
| `Interleaving.AddEccAndInterleave` | external/qrcodegen/QrCode.cpp:529-565 | For any valid layout: an error exactly for data of the wrong length; otherwise all codewords of all blocks, each byte at its place, `raw` bytes in all. |
| `Interleaving.SplitBlocks` | external/qrcodegen/QrCode.cpp:540-551 | Block j holds its own slice of the data, a gap byte if it is short, and the remainder of that slice. |
| `Interleaving.Interleave` | external/qrcodegen/QrCode.cpp:553-563 | The column loops put every byte that is no gap at its place, and the result has exactly `raw` bytes. |
| `Interleaving.OffsetTotal` | external/qrcodegen/QrCode.cpp:533-551 | The blocks use every data byte exactly once, also when all blocks have equal length. |
| `Interleaving.IndexRange` | external/qrcodegen/QrCode.cpp:553-563 | Every byte of every codeword has a place in the result. |
| `Interleaving.IndexInjective` | external/qrcodegen/QrCode.cpp:553-563 | No two of them share a place. |
| `Interleaving.IndexOrder` | external/qrcodegen/QrCode.cpp:553-563 | Data comes before error correction, and each goes column by column, and block by block in a column. |
| `Interleaving.BlockLengths` | external/qrcodegen/QrCode.cpp:541-551 | The shorter blocks come first, and the longer ones have one data byte more. |
| `Interleaving.DeinterleaveInterleaved` | external/qrcodegen/QrCode.cpp:529-565 | De-interleaving and dropping the error correction gives back the data. |
| `Zigzag.ScanVisits` | external/qrcodegen/QrCode.cpp:572-590 | Every step of the scan lies in the grid and outside column 6, and its cell tells the step. |
| `Zigzag.ScanCovers` | external/qrcodegen/QrCode.cpp:572-590 | Every cell outside column 6 is visited. |
| `Zigzag.ScanInjective` | external/qrcodegen/QrCode.cpp:572-590 | No cell is visited twice. |
| `Zigzag.DirectionAlternates` | external/qrcodegen/QrCode.cpp:572-582 | The direction alternates from pair to pair, also across column 6. |
| `Zigzag.ScanStart` | external/qrcodegen/QrCode.cpp:572-580 | The scan starts in the lower right corner. |
| `Zigzag.ScanMoves` | external/qrcodegen/QrCode.cpp:576-583 | It goes left in a row, then to the next row of its pair, up in the first pair and alternating from pair to pair. |
| `Zigzag.ScanTurns` | external/qrcodegen/QrCode.cpp:572-582 | From the end of a pair it goes on in the same row, in the next column, stepping over column 6. |
| `Zigzag.DrawingStep` | external/qrcodegen/QrCode.cpp:583-588 | One cell of the scan takes the next bit if it is free and bits are left, and is left alone otherwise. |
| `FunctionPatterns.BaseSetCount` | external/qrcodegen/QrCode.cpp:416-442 | Timing, finder, format and version modules number 225 + 2 (size - 17), and 36 more from version 7 on. |
| `FunctionPatterns.PatternOverlap` | external/qrcodegen/QrCode.cpp:427-437 | An alignment pattern meets the other patterns only where it crosses a timing pattern. |
| `FunctionPatterns.MarkedSetCount` | external/qrcodegen/QrCode.cpp:711-724 | For every good list of n alignment positions, the function modules number the closed form. |
| `FunctionPatterns.FreeCountIs` | external/qrcodegen/QrCode.cpp:711-724 | For every size 4 v + 17 and every good list of positions, the scan meets exactly as many free modules as the closed form says. |
| `Alignment.PositionsGood` | external/qrcodegen/QrCode.cpp:695-708 | The positions of every version ascend from 6 to size - 7 with gaps of at least 7. |
| `Alignment.PositionsSpaced` | external/qrcodegen/QrCode.cpp:695-708 | All gaps but the first are one even step, the first is no longer, and no smaller even step would do; version 32 is the exception that the code makes it. |
| `Alignment.PositionsEven` | external/qrcodegen/QrCode.cpp:695-708 | All positions are even. |
| `Alignment.GetAlignmentPatternPositions` | external/qrcodegen/QrCode.cpp:695-708 | The loop that inserts positions from the far end gives them in order. |
| `Alignment.FreeModules` | external/qrcodegen/QrCode.cpp:711-724 | For every version, the modules that drawFunctionPatterns leaves free number what getNumRawDataModules returns. |
| `QrSymbol.QrCode.constructor` | external/qrcodegen/QrCode.cpp:320-330 | A new symbol is blank and has no function modules. |
| `QrSymbol.QrCode.SetFunctionModule` | external/qrcodegen/QrCode.cpp:516-521 | Colours and marks one module and leaves all others alone. |
| `QrSymbol.QrCode.DrawTiming` | external/qrcodegen/QrCode.cpp:417-421 | Exactly the timing patterns are coloured and marked. |
| `QrSymbol.QrCode.DrawFinderPattern` | external/qrcodegen/QrCode.cpp:496-505 | Exactly the finder pattern with its separator, as far as it lies in the grid. |
| `QrSymbol.QrCode.DrawAlignmentPattern` | external/qrcodegen/QrCode.cpp:508-513 | Exactly the five by five pattern. |
| `QrSymbol.QrCode.DrawAlignment` | external/qrcodegen/QrCode.cpp:428-437 | All patterns of the arrangement but the three on finder patterns, each complete. |
| `QrSymbol.QrCode.ComputeFormatBits` | external/qrcodegen/QrCode.cpp:447-454 | The register loop computes the format word, and it has 15 bits. |
| `QrSymbol.QrCode.DrawFormatBits` | external/qrcodegen/QrCode.cpp:445-470 | Both copies of the format word and the dark module, and nothing else. |
| `QrSymbol.QrCode.DrawVersion` | external/qrcodegen/QrCode.cpp:473-493 | Both copies of the version word from version 7 on, and nothing else. |
| `QrSymbol.QrCode.DrawFunctionPatterns` | external/qrcodegen/QrCode.cpp:416-442 | Exactly the function modules are coloured and marked, later patterns on top. |
| `QrSymbol.QrCode.DrawCodewords` | external/qrcodegen/QrCode.cpp:568-593 | Fails exactly for a wrong number of bytes; otherwise the free modules in the order of the scan hold the bits of all bytes, every other module is as before, and the final check cannot fail. |
| `QrSymbol.FinishDrawing` | external/qrcodegen/QrCode.cpp:591-592 | At the end of the scan all bits have been drawn. |
| `QrSymbol.QrCode.ApplyMask` | external/qrcodegen/QrCode.cpp:596-617 | Fails exactly for a bad mask; otherwise inverts exactly the modules of the mask that are no function modules. |
| `Ink.FunctionInkCovers` | external/qrcodegen/QrCode.cpp:416-442 | The drawn patterns cover exactly the function modules. |
| `Ink.PatternPainted` | external/qrcodegen/QrCode.cpp:428-437 | Each round of the alignment loops adds one pattern and keeps those drawn before. |
| `InfoWords.ProtectedIsMultiple` | external/qrcodegen/QrCode.cpp:447-454 | A format or version word before its mask is a multiple of its generator polynomial. |
| `InfoWords.ProtectedUnique` | external/qrcodegen/QrCode.cpp:447-454 | It is the only multiple of the generator with the data in its high bits: the low bits are data * x^n mod the generator. |
| `InfoWords.FormatMaskWord` | external/qrcodegen/QrCode.cpp:451 | Without data the format word is 0x5412. |
| `InfoCodes.FormatWordsApart` | external/qrcodegen/QrCode.cpp:447-454 | Format words of different levels or masks differ in at least 7 of their 15 bits. |
| `InfoCodes.VersionWordsApart` | external/qrcodegen/QrCode.cpp:478-485 | Version words of different 6-bit versions differ in at least 8 of their 18 bits. |
| `InfoWords.ProtectedRange` | external/qrcodegen/QrCode.cpp:478-485 | The register stays in range and the word has the right width, so the range assertions cannot fire. |
| `InfoWords.VersionWordRange` | external/qrcodegen/QrCode.cpp:478-485 | The version word has 18 bits. |
| `InfoWords.ReadFormatWord` | external/qrcodegen/QrCode.cpp:447-454 | The format word determines level and mask. |
| `Masking.MaskedTwice` | external/qrcodegen/QrCode.cpp:596-617 | Applying a mask twice does nothing. |
| `MaskLaws.InvertLawful` | external/qrcodegen/QrCode.cpp:601-613 | Each mask inverts the corner and has its laws: chequered, rows, one column in three, one diagonal in three, tiles, multiples of six, and two pictures with period six. |
| `MaskLaws.MaskIsOnlyOne` | external/qrcodegen/QrCode.cpp:601-613 | The pattern of each mask is the only one with its laws. |
| `MaskLaws.MaskedModules` | external/qrcodegen/QrCode.cpp:596-617 | A mask changes no function module, and of the others exactly those of the one pattern with its laws. |
| `MaskChoice.TryMask` | external/qrcodegen/QrCode.cpp:342-350 | A trial scores the finished grid for its mask and then leaves codeword modules and function map as they were. |
| `MaskChoice.DoMasking` | external/qrcodegen/QrCode.cpp:338-356 | The finished grid is exactly the candidate for the chosen mask; an automatic mask has the least penalty and the lowest index among equals; the function map is unchanged. |
| `MaskChoice.PaintedIsRepaint` | external/qrcodegen/QrCode.cpp:445-470 | On a marked grid, drawing the format word changes its modules and no mark. |
| `MaskChoice.CandidateSame` | external/qrcodegen/QrCode.cpp:338-356 | A candidate does not depend on the format word that an earlier trial left behind. |
| `MaskChoice.CandidateUnmasked` | external/qrcodegen/QrCode.cpp:342-350 | Taking the mask off a candidate gives back all modules but those of the format word. |
| `Penalty.ScanLine` | external/qrcodegen/QrCode.cpp:624-643 | The one-pass scanner returns the penalty of the maximal runs and 40 for every finder-like pattern of the bordered line; the run length assertion cannot fire. |
| `Penalty.RunsAreMaximal` | external/qrcodegen/QrCode.cpp:624-643 | The runs are non-empty, alternate in colour and make up the line. |
| `Penalty.RunsUnique` | external/qrcodegen/QrCode.cpp:624-643 | There is only one such decomposition. |
| `Penalty.ScanChange` | external/qrcodegen/QrCode.cpp:632-641 | At a change of colour the history gains the run that ended, bordered if it is the first, and patterns are counted when it was white. |
| `Penalty.ScanEnd` | external/qrcodegen/QrCode.cpp:795-803 | After the last module, pushing what is left and the border gives the history of the runs of the bordered line, and the patterns it counts complete the penalty. |
| `Penalty.HistoryCounts` | external/qrcodegen/QrCode.cpp:785-792 | Seven remembered lengths count exactly the patterns that end with the latest white run. |
| `Penalty.HistoryPush` | external/qrcodegen/QrCode.cpp:806-811 | Pushing a length keeps the history that of the runs, with the border added to the first one. |
| `Penalty.HistoryRange` | external/qrcodegen/QrCode.cpp:785-788 | No run is longer than three times the line, so the assertion cannot fire. |
| `Penalty.TerminateAndCount` | external/qrcodegen/QrCode.cpp:795-803 | For every line whose modules have all been scanned: the new history is that of the runs of the bordered line, and the result so far plus 40 for each counted pattern is the penalty of the line. |
| `Scores.GetPenaltyScore` | external/qrcodegen/QrCode.cpp:620-692 | The score is the sum over rows, columns, one-coloured squares and imbalance. |
| `Scores.CountBlocks` | external/qrcodegen/QrCode.cpp:668-678 | Counts the two by two squares of one colour. |
| `Scores.CountBlack` | external/qrcodegen/QrCode.cpp:680-686 | Counts the black modules. |
| `Scores.ImbalanceIsLeast` | external/qrcodegen/QrCode.cpp:687-690 | The imbalance is the least k with (45 - 5 k)% <= black <= (55 + 5 k)%, as the comment in the code says, and at most 9. |
| `Scores.ScoreBound` | external/qrcodegen/QrCode.cpp:620-692 | Every score of every grid is below LONG_MAX, so the first mask that is tried always counts. |
| `PenaltyFacts.FinderStartCosts` | external/qrcodegen/QrCode.cpp:785-811 | A line that starts with 1 : 1 : 3 : 1 : 1 and white, at any scale, costs at least 40, by the border before it. |
| `PenaltyFacts.FinderEndCosts` | external/qrcodegen/QrCode.cpp:785-811 | So does a line that ends with one, by the border after it. |
| `PenaltyFacts.SymbolScore` | external/qrcodegen/QrCode.cpp:620-692 | Every finished symbol costs at least 160: no mask hides the finder patterns. |
| `PenaltyFacts.WhiteScore` | external/qrcodegen/QrCode.cpp:620-692 | An all white grid costs 2 size (size - 2) + 3 (size - 1)^2 + 90. |
| `ChainTermination.MinDepth` | src/blockchain_utilities/blockchain_depth.cpp:193-317 | On every chain and start from which the original search ends: it is done at exactly the depth at which a coinbase is met first, and gives up exactly otherwise. The depth is that of a shortest walk, of a shortest ring-member path if keys are unique within blocks, and at most the height of the start if rings lie lower and none is stuck. |
| `ChainDepth.Search` | src/blockchain_utilities/blockchain_depth.cpp:193-317 | On every chain, for any number of rounds: done, aborted and still running, each exactly when the frontiers say so; if done, the depth is shortest, for ring-member paths if keys are unique within blocks. |
| `ChainDepth.VisitLevel` | src/blockchain_utilities/blockchain_depth.cpp:204-311 | Coinbase exactly if one is met before any transaction that cannot be read; expanded exactly if all can be traced, and then the origins of all ring members in order. |
| `ChainDepth.VisitTransaction` | src/blockchain_utilities/blockchain_depth.cpp:206-310 | Coinbase exactly if there is a Gen input and all before it can be traced; expanded exactly if all inputs can be traced, with the origins in order; a failure otherwise. |
| `ChainDepth.ExpandInput` | src/blockchain_utilities/blockchain_depth.cpp:226-303 | The origins of all ring members in order, exactly if each has one; ring member i is the output at the sum of the first i + 1 offsets. |
| `ChainGraph.ReferredIs` | src/blockchain_utilities/blockchain_depth.cpp:228-233 | A ring member is the output of the input's own amount at the sum of the offsets up to it, modulo 2^64. |
| `ChainGraph.OwnAmount` | src/blockchain_utilities/blockchain_depth.cpp:228-233 | Outputs of other amounts do not matter to an input. |
| `RingOffsets.ToAbsolute` | src/cryptonote_basic/cryptonote_format_utils.cpp:1313-1319 | Index i is the sum of the first i + 1 offsets modulo 2^64. |
| `RingOffsets.ToRelative` | src/cryptonote_basic/cryptonote_format_utils.cpp:1321-1332 | The differences of the indices in ascending order, which are the same indices; an ascending list keeps its order. |
| `RingOffsets.AbsoluteOfRelative` | src/cryptonote_basic/cryptonote_format_utils.cpp:1313-1332 | Making any ascending list of indices relative and then absolute gives it back. |
| `RingOffsets.RelativeOfAbsolute` | src/cryptonote_basic/cryptonote_format_utils.cpp:1313-1332 | Offsets whose sum does not wrap around are given back as well. |
| `ChainDepth.FindCreator` | src/blockchain_utilities/blockchain_depth.cpp:240-302 | The first transaction of the block that shows the key, with nothing before it that stops the scan; none exactly if there is no such transaction. |
| `ChainDepth.ScanOutputs` | src/blockchain_utilities/blockchain_depth.cpp:242-260 | Finds the key exactly if it comes before any output of another kind, and misses it exactly if neither occurs. |
| `ChainDepth.FrontierIsLevel` | src/blockchain_utilities/blockchain_depth.cpp:204-316 | On every chain the frontier holds exactly the ends of the walks that the search follows, although it keeps duplicates. |
| `ChainDepth.DoneIsShortest` | src/blockchain_utilities/blockchain_depth.cpp:193-317 | When the search is done, its depth is that of a shortest walk to a coinbase, and of a shortest ring-member path if keys are unique within blocks. |
| `ChainDepth.SameReach` | src/blockchain_utilities/blockchain_depth.cpp:240-302 | The walks that the search follows are ring-member paths, and all of them if keys are unique within blocks. |
| `ChainDepth.OneEnd` | src/blockchain_utilities/blockchain_depth.cpp:200-317 | The search ends in one way only: at one depth, done or given up. |
| `ChainGraph.FoundIsCreator` | src/blockchain_utilities/blockchain_depth.cpp:240-302 | What the search finds did create the output, and it finds at most one transaction. |
| `ChainGraph.InOrigins` | src/blockchain_utilities/blockchain_depth.cpp:218-310 | The collected origins are exactly the transactions one step away. |
| `ChainTermination.Descends` | src/blockchain_utilities/blockchain_depth.cpp:200-317 | If rings lie lower and no transaction is stuck, the next frontier is not empty and lies in lower blocks, whether keys are unique or not. |
| `ChainTermination.SearchStops` | src/blockchain_utilities/blockchain_depth.cpp:200-317 | If rings lie lower and no transaction is stuck, the search ends, at a depth of at most the height of the start. |
| `ChainTermination.DepthExists` | src/blockchain_utilities/blockchain_depth.cpp:200-317 | If also every transaction of a block can be read, it ends with a depth. |
| `ChainTermination.TerminationExact` | src/blockchain_utilities/blockchain_depth.cpp:200-317 | On every chain with rings in lower blocks, the search ends from every transaction of a block if and only if each of them that can be traced has a ring member. |
| `ChainTermination.StopsMeans` | src/blockchain_utilities/blockchain_depth.cpp:200-317 | To end is to be done or to give up at some depth, which is not to pass all rounds. |
| `ChainTermination.FailsUnread` | src/blockchain_utilities/blockchain_depth.cpp:207-310 | The search gives up only at a transaction on one of its walks that cannot be read. |
| `ChainTermination.CoinbaseInReach` | src/blockchain_utilities/blockchain_depth.cpp:193-317 | On every chain with rings in lower blocks, all transactions have a path to a coinbase if and only if each that is no coinbase has a step. |
| `ChainGraph.ReachIsPath` | src/blockchain_utilities/blockchain_depth.cpp:193-317 | The walks of the model are the paths of ring-member steps. |
| `ChainTermination.StuckNeverStops` | src/blockchain_utilities/blockchain_depth.cpp:200-317 | From every transaction whose inputs can be traced and have no ring members at all, the search goes round for ever. |
| `EmbeddedFile.PrintFile` | translations/generate_translations_header.c:55-65 | The loop prints every byte as an escape, a new literal before every sixteenth, and the byte count. |
| `EmbeddedFile.PrintedReadsBack` | translations/generate_translations_header.c:55-65 | The printed text is read back as the lines of the file and its byte count if and only if the file is not empty. |
| `EmbeddedFile.LinesAreShort` | translations/generate_translations_header.c:56-61 | The lines make up the file, and each has 1 to 16 bytes. |
| `EmbeddedFile.ReadLine` | translations/generate_translations_header.c:55-63 | From any byte on, the rest of its line is one literal with balanced quotes, and no escape runs into the next. |

## Left out

- `toSvgString`, the getters, `getModule` and exception message text: formatting and access only.
- Kanji segments and segments built by hand: the repository has no factory function for them, and its constructor does not check them, so the round trips cover factory-made segments. `Encoder.PlanSegments` and `QrCodes.EncodeSegments` accept any segments.
- Clearing `isFunction` at the end of the constructor: the model keeps the map, which no public member of the original reads afterwards.
- Grids and bit buffers are sequences in fields that methods reassign; that two C++ vectors do not alias is not a question of the model.
- C strings are sequences of the characters 1 to 255. Counts of digits and characters beyond INT_MAX, which overflow in the original, are unbounded in the model.
- `|` and `|=` of bit fields that do not overlap are additions.
- Penalty.ScanLine: the row and the column loop of getPenaltyScore are one method, called on rows and on columns; lines have at least one module, as every symbol has 21 or more.
- RingOffsets.ToRelative: std::sort is the function `Sorted`, which is proved to be ascending and a permutation.
- Scores.ScoreBound: LONG_MAX is taken as 2^31 - 1, the least value that C++ allows.
- Damage.SymbolSurvives: states that the data is determined, not how to find it, because the repository has no decoder; the format word is read from its first copy, and the second one is not used.
- ChainDepth.Search: stops after a given number of rounds, because the original may run for ever; `ChainTermination.MinDepth` has no such bound and asks only that the original ends.
- The database, hashing and parsing of transactions and blocks: the chain is given by maps, and what cannot be read is absent.
- The choice of start transactions, the average and median of depths, and the command line of the depth tool.
- File opening, file names and the table of files in the header generator; its counter is unbounded.
