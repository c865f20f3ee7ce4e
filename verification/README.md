# Bit rounding and bit-information analysis, modelled in Dafny

The tools round single-precision floating-point data for better compression.
For every float variable they work out how many significand bits carry real
information:

- each word goes through the signed-exponent transform;
- the bits of adjacent values are counted pair by pair into 32 contingency tables;
- each table gives a mutual information value;
- insignificant values are filtered out;
- a keep-bits strategy chooses `nsb`, the number of significand bits to keep.

The quantizer `bitround` then adds half a quantum and clears the remaining
23 - `nsb` low bits of every value that is neither NaN nor the fill value.
Variables of rank 3 or more are analysed and rounded one chunk (the last two
dimensions) at a time. Beside this pipeline there are two diagnostic tools:

- the bit-pattern classifier, which marks each bit position as all-zero,
  all-one or mixed and prints the result with IEEE 754 field separators;
- its HDF5 driver, which maps HDF5 types to data types, formats shapes, and
  walks the 2-D slices of a 3-D+ dataset with an odometer over the leading
  indices.

The model works on `bv32` words (the binary32 layout of section 3.4 of IEEE
754-2019) and on `seq` buffers. The keep-bits curve is a `seq<real>` of 32 entries.

| file | module | contents |
|---|---|---|
| wrappers.dfy | Wrappers | `Option` |
| float32.dfy | Float32 | field masks, NaN, finiteness, and IEEE float equality on bit patterns (+0 == -0, NaN equal to nothing; section 5.11 of IEEE 754-2019) |
| dims.dfy | Dims | product of dimension lengths |
| bitround.dfy | BitRound | masks, bias and `bitround` (C and Python) |
| signedexp.dfy | SignedExponent | `signed_exponent_kernel`, its inverse, the Python twin |
| bitinformation.dfy | BitInformation | bit-pair tables, probabilities, `set_zero_insignificant`, `mutual_information`, `bitinformation` |
| keepbits.dfy | KeepBits | `get_keepbits`, `get_keepbits_monotonic`, `get_keepbits_gradient` |
| pipeline.dfy | Pipeline | `analyze_and_get_nsb` (C and Python), the chunk policy and the missing-value scan of the netCDF rounding tool |
| text.dfy | Text | decimal rendering and joining, with their parsers |
| bitpattern.dfy | BitPattern | `analyze_bits_generic`, `analyze_data_bits`, `format_bit_pattern`, `format_shape_string` |
| hdf.dfy | Hdf | `hdf5_to_dtype`, `get_element_size`, `format_hdf5_shape_string`, `is_hdf5_multidimensional`, the dataset plan and the slice odometer |

Two details of the code fix the constants of the model:

- The rounding bias is `one & (zero >> 1)` (src/netcdf_bit_rounding.c:65).
  That is exactly `1 << (z - 1)`, half a quantum.
- `analyze_and_get_nsb` keeps 1 significand bit when it is given fewer than
  two values (src/netcdf_bit_rounding.c:34, bit_rounding.py:367-368).

## Model

| member | source | states |
|---|---|---|
| Float32.FloatEqProperties | src/netcdf_bit_rounding.c:70 | the float comparison of the skip test is symmetric, reflexive except on NaN, never true for NaN, and equates +0 and -0 |
| BitRound.MasksSplitWord | src/netcdf_bit_rounding.c:57-64 | the zero mask keeps exactly the bits at positions >= z = 23 - nsb, and the one mask exactly those below z |
| BitRound.BiasIsHalfQuantum | src/netcdf_bit_rounding.c:65 | the bias is 2^(z-1), half of one retained quantum, and 0 when nothing is cleared |
| BitRound.FullRetentionMasks | src/netcdf_bit_rounding.c:58-65 | with nsb = 23 the zero mask is all ones and the one mask and the bias are 0 |
| BitRound.RoundWordClearsLowBits | src/netcdf_bit_rounding.c:71-72 | a rounded word has all z low bits clear |
| BitRound.BitRound | src/netcdf_bit_rounding.c:69-74 | the buffer keeps its length and every NaN or fill-equal value keeps its bits |
| BitRound.BitRoundClearsLowBits | src/netcdf_bit_rounding.c:69-74 | after rounding, every processed value has its low 23 - nsb bits equal to zero |
| BitRound.BitRoundInPlace | src/netcdf_bit_rounding.c:67-74 | the in-place loop leaves the array equal to the functional rounding of its old contents |
| BitRound.RoundWordIdempotent | src/netcdf_bit_rounding.c:71-72 | rounding a rounded word again changes nothing |
| BitRound.BitRoundIdempotent | src/netcdf_bit_rounding.c:69-74 | rounding a buffer twice with the same nsb and fill value equals rounding it once |
| BitRound.FullRetentionIsIdentity | src/netcdf_bit_rounding.c:58-74 | with nsb = 23 every buffer is returned unchanged |
| BitRound.RoundWordCloseToInput | src/netcdf_bit_rounding.c:71-72 | for a non-NaN word, adding the bias does not wrap, the sign bit is kept, and the result lies within the bias of the input as an unsigned integer: at most the bias above it, strictly less than the bias below it |
| BitRound.NoWrapBelowNaN | src/netcdf_bit_rounding.c:71 | every non-NaN word is at most 0xFF800000, so adding at most 2^22 neither wraps nor changes the sign bit |
| BitRound.CarryIntoExponent | src/netcdf_bit_rounding.c:71-72 | the carry may enter the exponent: 0x3FFFFFFF becomes 2.0 with nsb = 1, while 1.0 is kept |
| BitRound.PythonMatchesC | bit_rounding.py:387-404 | the Python masks, computed on 64-bit integers, are the C masks, and the Python word update equals the C one |
| BitRound.PyBitRound | bit_rounding.py:401-404 | the Python loop, which updates each element that differs from `missval` and is not NaN, leaves the buffer equal to the C rounding of it |
| SignedExponent.KernelKeepsSignAndSignificand | src/bitrounding_bitinfo.c:80-94 | the transform keeps the sign bit and all 23 significand bits |
| SignedExponent.KernelExponentField | src/bitrounding_bitinfo.c:89-93 | the exponent field becomes the sign of E - 127 at bit 30 or'd with abs(E - 127) << 23; E = 127 gives an empty field and E = 255 sets bit 30 only |
| SignedExponent.KernelRoundTrip | src/bitrounding_bitinfo.c:73-95 | an independent decoder recovers every input word from its transform |
| SignedExponent.KernelRecoversExponent | src/bitrounding_bitinfo.c:89-92 | the biased exponent can be read back from the transformed field |
| SignedExponent.KernelInjective | src/bitrounding_bitinfo.c:73-95 | different words have different transforms |
| SignedExponent.Transform | src/bitrounding_bitinfo.c:97-102 | `signed_exponent` keeps the length and transforms each word on its own |
| SignedExponent.TransformInPlace | src/bitrounding_bitinfo.c:97-102 | the in-place loop leaves the array equal to the transform of its old contents |
| SignedExponent.PythonKernelMatchesC | bit_rounding.py:82-98 | the Python kernel on 64-bit integers computes the same word as the C kernel |
| BitInformation.AddPairIncrementsOneCell | src/bitrounding_bitinfo.c:15-23 | one kernel call adds one to exactly one cell per row, the cell of the two words' bits at that row, and leaves the other three cells alone |
| BitInformation.PairKernel | src/bitrounding_bitinfo.c:15-23 | the masked-shift loop counts bit i of both words in row 31 - i (most significant bit first); the Python kernel, bit_rounding.py:114-121, is the same loop |
| BitInformation.BitpairCount | src/bitrounding_bitinfo.c:25-35 | after n pairs every row's four cells sum to n |
| BitInformation.BitpairCountLoop | src/bitrounding_bitinfo.c:30-32 | the counting loop computes the table `BitpairCount` |
| BitInformation.BitpairCountCells | src/bitrounding_bitinfo.c:25-35 | each cell is the number of pairs whose bits at that row are that combination |
| BitInformation.BitpairCountMarginals | src/bitrounding_bitinfo.c:25-35 | the row and column sums of a row are the numbers of set bits at that row in A and in B |
| BitInformation.AdjacentCounts | src/bitrounding_bitinfo.c:104-106 | `bitinformation` counts the n - 1 adjacent pairs, so every row totals n - 1 |
| BitInformation.AdjacentCountsCells | src/bitrounding_bitinfo.c:104-106 | each cell of the adjacent-pair table counts the pairs (A[m-1], A[m]) with that bit combination |
| BitInformation.ProbsOf | src/bitrounding_bitinfo.c:60-65 | the four probabilities are non-negative and sum to the row total divided by `nelements` |
| BitInformation.ProbsSumToOne | src/bitrounding_bitinfo.c:55-65 | when the divisor is the pair count each row is a probability distribution |
| BitInformation.SetZeroInsignificant | src/bitrounding_bitinfo.c:8-13 | entries at or below the free-entropy bound become 0, all others are kept |
| BitInformation.SetZeroInsignificantIdempotent | src/bitrounding_bitinfo.c:8-13 | after filtering each entry is 0 or above the bound, so filtering again changes nothing |
| BitInformation.MutualInformation | src/bitrounding_bitinfo.c:53-71 | entry p is the kernel of row p's probabilities, zeroed when not above the free-entropy bound at confidence 0.99 |
| BitInformation.Bitinformation | src/bitrounding_bitinfo.c:104-106 | the information of adjacent values has one entry per bit position, each either 0 or above the free-entropy bound for n - 1 pairs |
| BitInformation.BitinformationRowsAreDistributions | src/bitrounding_bitinfo.c:104-106 | every row handed to the kernel by `bitinformation` sums to 1 |
| BitInformation.PyBitinformation | bit_rounding.py:175-180 | fewer than two values give the all-zero curve; otherwise every entry, taken from the over-counting table, is 0 or above the free-entropy bound for n - 1 pairs |
| BitInformation.PyAdjacentCountsExtraPair | bit_rounding.py:124-135 | as written, `bitpair_count(data, data[1:])` gives the C table of the n - 1 adjacent pairs plus one more pair: the last value with the word read past the end of `data[1:]` |
| BitInformation.PyBitinformationExtraPair | bit_rounding.py:175-180 | as written, the Python curve is the mutual information of that C table plus the extra pair, still divided by n - 1 |
| BitInformation.PyAdjacentCountsOvercount | bit_rounding.py:124-135 | as written, each row counts n pairs (one reading past `data[1:]`) while dividing by n - 1, so its probabilities sum above 1 |
| BitInformation.PyCorrectedCountsMatchC | bit_rounding.py:124-135 | corrected: counting `data[:-1]` against `data[1:]` gives exactly the C table of adjacent pairs |
| BitInformation.PyAdjacentCountsCorrected | bit_rounding.py:175-180 | corrected: with only the n - 1 pairs that exist, every row of probabilities sums to exactly 1 |
| BitInformation.PyBitinformationCorrected | bit_rounding.py:175-180 | corrected: fewer than two values give the all-zero curve of 32 entries |
| BitInformation.PyBitinformationCorrectedMatchesC | bit_rounding.py:175-180 | corrected: the Python curve then equals the C `bitinformation` curve |
| KeepBits.Cumulative | src/bitrounding_bitinfo.c:128-130 | entry i of the prefix loop's result is the sum of entries 0..i |
| KeepBits.CumulativeInPlace | src/bitrounding_bitinfo.c:128-130 | the in-place loop `M[i] += M[i-1]` produces the cumulative sums |
| KeepBits.SumMonotone | src/bitrounding_bitinfo.c:128-130 | cumulative sums of non-negative entries never decrease |
| KeepBits.Normalise | src/bitrounding_bitinfo.c:134-137 | each cdf entry times the total is the cumulative sum |
| KeepBits.FirstAbove | src/bitrounding_bitinfo.c:141-146 | the search returns the first index whose entry strictly exceeds the level, or none exactly when no entry does |
| KeepBits.FirstAboveMonotone | src/bitrounding_bitinfo.c:141-146 | raising the level never moves the first hit earlier |
| KeepBits.Clamp | src/bitrounding_bitinfo.c:149-151 | the result lies in [1, 23] and equals the input when that is already in range |
| KeepBits.MaxLast4 | src/bitrounding_bitinfo.c:117-120 | `bitInfoMaxLast4` (before scaling) bounds M[28..31], is one of them or -1e33, and is at least -1e33 |
| KeepBits.CleanedAbove | src/bitrounding_bitinfo.c:123-126 | exactly the entries strictly above the threshold survive; the rest become 0 |
| KeepBits.LastFourDropped | src/bitrounding_bitinfo.c:117-126 | when the last four entries are not all negative, none of them survives the 1.5 times threshold |
| KeepBits.GetKeepbits | src/bitrounding_bitinfo.c:108-154 | the result lies in [1, 23] and is 23 when the cleaned total is not positive or no cumulative fraction exceeds `inflevel` |
| KeepBits.GetKeepbitsFromFirstHit | src/bitrounding_bitinfo.c:132-151 | for a positive total, the first i whose cumulative sum exceeds `inflevel` times the total gives clamp(i + 1 - 9, 1, 23) |
| KeepBits.GetKeepbitsMonotone | src/bitrounding_bitinfo.c:108-154 | a higher information level never keeps fewer bits, for every curve |
| KeepBits.RunMinIsMinimum | bit_rounding.py:326-331 | `current_min` after step i is the minimum of entries 9..i and is one of them |
| KeepBits.FlagMonotone | bit_rounding.py:332-333 | `flag` never decreases |
| KeepBits.MonotonicCleaned | bit_rounding.py:327-330 | entries 0..8 (sign and exponent) are copied unchanged |
| KeepBits.ZeroedAfterThirdRise | bit_rounding.py:331-334 | once the flag exceeds 2, every later significand entry is zeroed |
| KeepBits.MonotonicCleanLoop | bit_rounding.py:323-334 | the loop carrying `current_min` and `flag` computes the monotonic cleaned curve |
| KeepBits.MonotonicCdf | bit_rounding.py:337-347 | with a non-positive total the un-normalised cumulative sums are searched |
| KeepBits.GetKeepbitsMonotonic | bit_rounding.py:314-362 | the result lies in [1, 23] and is 23 when no entry exceeds `inflevel` |
| KeepBits.GetKeepbitsMonotonicMonotone | bit_rounding.py:314-362 | a higher information level never keeps fewer bits |
| KeepBits.EmptyCurveStrategiesDiffer | bit_rounding.py:342-354 | on an all-zero curve with a negative level, `get_keepbits` keeps 23 bits while the monotonic strategy keeps 1 |
| KeepBits.NonNegativePart | bit_rounding.py:258-261 | negative entries become 0 and the others are kept |
| KeepBits.GradientNonNegative | bit_rounding.py:264-275 | for a positive cleaned total, no gradient entry is negative |
| KeepBits.GradientSearch | bit_rounding.py:295-299 | the search over 9..29 returns the first index where the gradient is below the tolerance and the running sum reaches the bound, or none exactly when there is no such index |
| KeepBits.GradientSearchLoop | bit_rounding.py:286-299 | the loop accumulating `CurrentBit_Sum` finds the search's index, or keeps the default 31 |
| KeepBits.GetKeepbitsGradient | bit_rounding.py:232-311 | the result lies in [1, 23] and is 23 when the cleaned total is not positive |
| KeepBits.GetKeepbitsGradientFromFirstStop | bit_rounding.py:292-309 | the first stopping index i gives clamp(i + 1 - 9, 1, 23) |
| KeepBits.GetKeepbitsGradientWithoutStop | bit_rounding.py:292-309 | without a stopping index the default `infbits = 31` keeps 23 bits |
| KeepBits.GradientNever22 | bit_rounding.py:292-309 | the strategy never keeps exactly 22 bits: a hit keeps at most 21 |
| Pipeline.AnalyzeAndGetNsb | src/netcdf_bit_rounding.c:33-52 | fewer than two values give 1 and a failed copy gives -1; otherwise the result lies in [1, 23] and is the `get_keepbits` decision on the information of the transformed copy |
| Pipeline.AnalyzeBuffer | src/netcdf_bit_rounding.c:33-52 | the analysis of an array returns the functional decision on its contents and leaves the array alone |
| Pipeline.KeepDecision | bit_rounding.py:376-380 | either keep-bits strategy keeps between 1 and 23 significand bits |
| Pipeline.PyAnalyzeAndGetNsb | bit_rounding.py:365-384 | fewer than two values keep 1 bit, and every decision lies in [1, 23] |
| Pipeline.PyAnalysisSeesExtraPair | bit_rounding.py:365-384 | as written, the Python decision is the keep-bits strategy applied to the curve of the C table of the transformed values plus the extra pair read past the end |
| Pipeline.PyAnalyzeAndGetNsbCorrected | bit_rounding.py:365-384 | corrected: fewer than two values keep 1 bit, and every decision lies in [1, 23] |
| Pipeline.PythonCorrectedMatchesC | bit_rounding.py:365-384 | corrected: counting the n - 1 pairs, the Python decision equals the C `analyze_and_get_nsb` when the copy succeeds |
| Pipeline.NsbWord | src/netcdf_bit_rounding.c:57 | a usable nsb becomes a valid nonzero `uint32_t` |
| Pipeline.RoundChunk | src/netcdf_bit_rounding.c:442-449 | a chunk keeps its length and is left alone when the analysis gives no usable nsb |
| Pipeline.TinyChunkKeepsOneBit | src/netcdf_bit_rounding.c:34 | a buffer of fewer than two values is rounded to one significand bit |
| Pipeline.FailedCopySkipsRounding | src/netcdf_bit_rounding.c:36-37 | a failed allocation leaves a buffer of two or more values unrounded |
| Pipeline.RoundChunkClearsLowBits | src/netcdf_bit_rounding.c:442-445 | every rounded chunk has the low bits of its own nsb clear in every processed value |
| Pipeline.VariableIsWholeChunks | src/netcdf_bit_rounding.c:408-416 | the variable size is the product of the leading dimensions times the chunk size |
| Pipeline.Chunked | src/netcdf_bit_rounding.c:431-450 | the chunk loop keeps the buffer's length |
| Pipeline.ChunkedIsPerChunk | src/netcdf_bit_rounding.c:439-450 | chunk c of the result is the per-chunk operation applied, with the chunk's number, to chunk c of the input alone |
| Pipeline.ChunkedKeepsRemainder | src/netcdf_bit_rounding.c:432-439 | values after the last whole chunk keep their bits |
| Pipeline.ScanForMissing | src/netcdf_bit_rounding.c:392-399 | the scan reports a missing value exactly when some value is NaN or, with a declared fill value, compares equal to it |
| Pipeline.RoundVariable | src/netcdf_bit_rounding.c:354-462 | a coordinate variable or one with missing values is written unchanged; one of rank 2 or less is analysed and rounded as one chunk, with the allocation outcome of its single analysis call |
| Pipeline.RoundVariableByChunks | src/netcdf_bit_rounding.c:430-450 | for rank 3 or more, every chunk of the last two dimensions is analysed and rounded on its own, with the allocation outcome of its own `analyze_and_get_nsb` call |
| Pipeline.FailedChunkUnrounded | src/netcdf_bit_rounding.c:439-450 | a chunk of two or more values whose own copy fails is written unrounded, whatever the other chunks' outcomes |
| Pipeline.ChunkCount | src/netcdf_bit_rounding.c:408-432 | the chunks, one per index tuple of the leading dimensions, cover the variable exactly |
| Pipeline.NoMissingRoundsEveryValue | src/netcdf_bit_rounding.c:392-406 | after a clean scan with a declared fill value, `bitround` rounds every value |
| Text.Decimal | src/bit_pattern.c:228 | the rendering is non-empty, all digits, with no leading zero, and is "0" only for 0 |
| Text.DecimalRoundTrip | src/bit_pattern.c:228 | reading the rendering back gives the number |
| Text.DecimalInjective | src/bit_pattern.c:228 | different numbers render differently |
| BitPattern.DTypeOfCode | src/bit_pattern.h:12-21 | the codes 0..7 name the eight data types, each with its own code |
| BitPattern.CodeRoundTrip | src/bit_pattern.h:12-21 | decoding a type's code gives the type back |
| BitPattern.LayoutOf | src/bit_pattern.c:88-113 | the bit width is eight times the element size of 2, 4 or 8 bytes, and finiteness is checked exactly for the float types |
| BitPattern.FloatBytesMatchWord | src/bit_pattern.c:46-49 | the finiteness test on four little-endian bytes is the finiteness of the float word they hold |
| BitPattern.ClassifyMeaning | src/bit_pattern.c:38-77 | a position is 0 if no considered element has the bit set, 1 if some do and none has it clear, and 2 if both occur |
| BitPattern.NothingConsideredIsZero | src/bit_pattern.c:46-54 | when every element is skipped as non-finite, the position is classed all-zero |
| BitPattern.AnalyzeBitsGeneric | src/bit_pattern.c:29-80 | the function returns 0 with one class per position; an empty buffer gives all zeros |
| BitPattern.ClassifyPosition | src/bit_pattern.c:39-76 | the inner loop with its early exit on a mixed result gives the class |
| BitPattern.CountsPartition | src/bit_pattern.c:124-135 | the all-zero, all-one and mixed counts of a pattern sum to its length |
| BitPattern.CountClasses | src/bit_pattern.c:124-135 | the counting loop returns the three counts |
| BitPattern.AnalyzeDataBits | src/bit_pattern.c:82-141 | an unknown type gives -1; a known one gives 0 with the type's bit width, the formatted pattern and counts that sum to the width |
| BitPattern.Symbols | src/bit_pattern.c:150-158 | the symbols run from the highest position down, one per position |
| BitPattern.FormatBitPatternLayout | src/bit_pattern.c:143-190 | the output is "(MSB) ", then the symbols for positions w-1 down to 0 with separators between them, then " (LSB)"; for widths up to 64 it fits `MAX_PATTERN_LEN` |
| BitPattern.Float32Layout | src/bit_pattern.c:160-182 | the float32 layout is sign, '|', the exponent split by one space, '|', then the significand in groups of 7, 8 and 8 |
| BitPattern.Int16Layout | src/bit_pattern.c:179-182 | a 16-bit pattern is two groups of eight symbols with one space between them |
| BitPattern.ShapeStringIsJoin | src/bit_pattern.c:224-230 | `format_shape_string` joins the decimal dimensions with "x" and writes nothing for no dimensions |
| BitPattern.ShapeStringRoundTrip | src/bit_pattern.c:224-230 | splitting the shape string at 'x' and reading each piece gives the dimensions back |
| Hdf.Hdf5ToDType | src/hdf_bit_analysis.c:158-173 | the result is -1 or a valid type code |
| Hdf.Hdf5ToDTypeSupported | src/hdf_bit_analysis.c:158-173 | a type is mapped exactly when it is a float of 4 or 8 bytes or an integer of 2, 4 or 8 bytes |
| Hdf.Hdf5ToDTypeMeaning | src/hdf_bit_analysis.c:158-173 | the mapped type has the HDF5 size, is checked for finiteness exactly for floats, and for integers is unsigned exactly when the sign is none |
| Hdf.ElementSize | src/hdf_bit_analysis.c:189-198 | the size is 0 exactly for an unknown code and otherwise the type's element size |
| Hdf.ElementSizeRoundTrip | src/hdf_bit_analysis.c:158-198 | for every supported type the element size of the mapped type is the HDF5 size |
| Hdf.FormatHdf5ShapeStringCases | src/hdf_bit_analysis.c:312-336 | no dimensions give "scalar"; a comma-joined tuple of 244 characters or more gives "(...)"; otherwise the result is the parenthesised tuple and fits the 256-byte buffer |
| Hdf.ShapeLoopUnfold | src/hdf_bit_analysis.c:319-334 | each loop step gives up, closes the tuple, or appends the dimension and ", " |
| Hdf.Hdf5ShapeRoundTrip | src/hdf_bit_analysis.c:312-336 | when the guard does not trip, splitting the shape string at commas gives the dimensions back |
| Hdf.PlanCases | src/hdf_bit_analysis.c:400-510 | a dataset is skipped as a single value exactly when it has at most one element, and skipped as unsupported exactly when its type is not mapped; otherwise it is sliced exactly when it has 3 or more dimensions; whole analysis reads every element with the HDF5 size, and the slices times the slice size cover the dataset |
| Hdf.CollectAsWritten | src/hdf_bit_analysis.c:97-108 | the element count is the product of the dimensions only when there is at least one dimension |
| Hdf.ScalarReadAsTwo | src/hdf_bit_analysis.c:99-108 | a scalar float dataset whose count is left over as 2 is analysed as a whole of 2 elements, more than the one it holds |
| Hdf.Collect | src/hdf_bit_analysis.c:97-108 | corrected: the element count is always the product of the dimensions |
| Hdf.CollectedCountMatches | src/hdf_bit_analysis.c:401-404 | with the corrected count, whole analysis reads exactly the dataset's elements and a scalar is skipped as a single value |
| Hdf.Increment | src/hdf_bit_analysis.c:490-498 | the carry loop advances the odometer once: the last index fastest, with digits that overflow reset to 0 |
| Hdf.AdvanceRank | src/hdf_bit_analysis.c:490-498 | one step keeps the tuple in range and moves its row-major rank to the next one, wrapping after the last |
| Hdf.RankInjective | src/hdf_bit_analysis.c:440-498 | different in-range tuples have different row-major ranks |
| Hdf.WalkSlices | src/hdf_bit_analysis.c:445-499 | over `total_slices` iterations, iteration s visits the tuple of rank s whether its read fails or not, and a slice is analysed exactly when its read succeeds; the analysed tuples are all in range, each with a successful read, in strictly increasing rank order |
| Hdf.WalkCoversAll | src/hdf_bit_analysis.c:434-499 | the walk visits every leading-index tuple exactly once |
| Hdf.SliceNameRoundTrip | src/hdf_bit_analysis.c:472-482 | the slice name "[i,j,...,:,:]" reads back as the leading indices |

## Left out

- NetCDF and HDF5 I/O is not modelled. Data arrive as sequences, and what is written back is the function result. Excluded:
  - opening, defining and copying files, variables and attributes;
  - output chunking and deflate;
  - `copy_non_float_variable` and `file_size`;
  - dataset collection and reads, apart from the element count.

  Read failures of slices are a parameter (`readOk`).
- Printing is not modelled: the `print_*` helpers, the `printf` reports, and the `safe_malloc` and `safe_calloc` exits.
- `mutual_information_kernel` and `binom_free_entropy` are function-valued parameters of the analysis (`mi`, `freeEntropy`), because they are floating-point logarithms. Also left out: `binom_confidence`, `normal_inv_acklam`, `entropy2` and src/bitrounding_stats.c.
- Real arithmetic is exact (`real`), not IEEE double: the cumulative sums, the cdf division and the 1.5 scaling. The unused `bitInfoMax` is left out.
- The C `get_keepbits_monotonic`, called at src/netcdf_bit_rounding.c:45, is not part of this model. The monotonic branch of `Pipeline.AnalyzeAndGetNsb` uses the Python strategy in its place.
- Products of dimensions are unbounded: `size_t` and `hsize_t` overflow is not modelled.
- `Hdf.SliceNameRoundTrip`: the fixed 128-byte `slice_name` and 16-byte `dim_str` buffers are not modelled, so very long slice names are not truncated.
- A failed `H5Dget_space` (src/hdf_bit_analysis.c:97-98) is not modelled.
- `BitInformation.Bitinformation` requires at least two values. The C function with a single value would divide 0 by 0, and its only caller excludes that case.
- BitInformation.BitpairCount: the counts are unbounded integers. The C counters are `int` (src/bitrounding_bitinfo.h:14) and the Python table is `np.int32` (bit_rounding.py:128), so the stated totals hold only while every cell stays below 2^31, that is for fewer than 2^31 pairs.
- BitRound.PyBitRound: `missval` is a binary32 word. A Python `missval` that is a double not representable in binary32 equals no element in the source, and the model does not express that case.
- BitPattern.FiniteFloat (and `BitPattern.FiniteDouble`): elements are taken as little-endian bytes, so the exponent is read from bytes 2-3 of a float and 6-7 of a double. The source's `isfinite(*(float*)element)` follows the host byte order, and big-endian hosts are not modelled.
- `Pipeline.RoundVariable` states the rank-3-or-more case through `Pipeline.RoundVariableByChunks` and `Pipeline.ChunkCount` rather than in its own contract.
- The Python driver scripts are not modelled: netcdf_bit_rounding.py, analyze_bit_precision.py and analyze_netcdf_compression.py. Neither are src/netcdf_bit_analysis.c, src/hdf_concat.c and src/hdf_size_stat.c.

## Findings

| source | as written | input that shows it | evidently intended | confidence | as-written member | corrected member |
|---|---|---|---|---|---|---|
| bit_rounding.py:124-135 | `bitinformation` calls `bitpair_count(data, data[1:])`, which loops `len(A)` times and reads one element past the end of `data[1:]`; the rows then hold n pairs but are divided by n - 1 | any data of two or more values, e.g. two values: each row counts 2 pairs and divides by 1, so its probabilities sum to 2 | count the n - 1 adjacent pairs, as the C `bitinformation` does | not executed | BitInformation.PyAdjacentCountsOvercount | BitInformation.PyAdjacentCountsCorrected |
| src/hdf_bit_analysis.c:99-108 | `total_elements` is set only when `ndims > 0`; the dataset array comes from `malloc` (line 143), so a scalar dataset keeps whatever was there | a scalar float dataset whose slot happens to hold 2: it is analysed as a whole of 2 elements although it holds 1 | a scalar has one element and is skipped as a single value | not executed | Hdf.ScalarReadAsTwo | Hdf.CollectedCountMatches |
