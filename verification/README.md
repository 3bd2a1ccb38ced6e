# TiC-SAT: a verified model of the accelerator and what feeds it

TiC-SAT runs transformer layers on a small systolic array. This project models, in Dafny 4.11,

- the array as a clocked state machine over its five memories, and as the object that updates them in place;
- the driver that loads a tile of weights, streams a block of activations through it and accumulates the results;
- the dense weight format and the seven other ways the driver walks a weight matrix, with the encoders the repository has;
- the packed and blocked kernels around the products: transposition, integer softmax, add-and-normalise, layout conversion;
- one attention head, which composes all of these;
- two small tools of the simulator that comes with it: the checkpoint upgrade scheduler and the message framing.

The three results everything else builds to are

1. `DenseProduct.DenseIsMatMul`: what the driver leaves in the packed, blocked output is the ordinary matrix product of the matrices in
   its packed, blocked inputs, for every size, from every state the array can have been left in;
2. the `Via...` methods of `Pipelines`: every compressed format, from its encoder through its decoder, gives that same output. Two
   formats can fail; `HiddenKey.HiddenKeyExact` and `InterleavedLimits.InterleavedExact` say exactly when tiles are lost, and
   `LostTiles.HiddenKeyProducts` and `LostTiles.InterleavedProducts` that products are then wrong;
3. `Attention.SingleHeadSelfAttn.Compute`: what one call of the head makes of whatever its buffers hold; on zeros this is the blocked form
   of softmax((X Wq)(X Wk)^T)(X Wv), scaled.

## Reading the model

- The array size K, the lane widths of activations and weights, the sequence length and the numbers of tiles are all symbolic. A
  `Geometry` holds K, the two `Lanes` (bits per element, elements per 32-bit word) and the words per row of K elements.
  `Machine.BuildGeometry` shows that every K that is a multiple of four, with 8-, 16- or 32-bit elements, is such a geometry.
- Words are integers below 2^32. Elements are stored most significant lane first by the array. A pointer to elements reads a word least
  significant lane first (little-endian memory); `Elements.Flat` is that view.
- 32-bit accumulators wrap around in two's complement (`Arith.Int32`); elements wrap to their lane width.
- Table offsets are written with `Arith.Mul`, which is multiplication (`Arith.MulIs`).
- Encoders and drivers get the numbers of tile rows and columns; the program computes them by dividing the dimensions by K or by the
  words per row.
- Memory is passed as arrays of the exact length. Pointers that move through a buffer are positions in it. Lists of pointers to tiles
  (`values` of the compressed row and column formats) are lists of positions in the dense kernel.
- Row-major buffers are blocked buffers with a single block, so the row-major and the strided form of a kernel share their inner loops
  (`RowPasses`). `StridedKernels` relates the two on the two layouts.
- Softmax and add-and-normalise follow the integer branches. The scale of add-and-normalise goes through a double-precision square root;
  its integer part takes only the values 4, 2, 1 and 0, changes only at variances 1, 2 and 10, and is exact at the perfect squares among
  them, so rounding does not matter (`AddNorm.SdInvIsRoot`). What converting the root of a negative variance gives is a parameter.
- What the kernels and formats compute is also said without the functions that compute it: `KernelLaws` by the exponential, division and
  the square root, `FormatLaws` by the digits and positions of the words.
- The products of the head and the three projections share one array object, as all multipliers of the program do.

Where the code does not do what its own comments or its callers suggest, the code is modelled as it is, and a theorem says exactly when
it meets the expectation:

- the driver passes the number of a word where the array expects the number of an element: `Misaligned.MultipliesExactlyWhenAligned`;
- the decoder of the interleaved format starts at another bit than the encoder: `InterleavedLimits.InterleavedExact`;
- the buffer of the interleaved format is not always long enough: `InterleavedLimits.CapacityExact`;
- a tile that starts with the hidden key is taken for a dropped one: `HiddenKey.HiddenKeyExact`;
- a second call of the head finds the results of the first in its buffers: `Attention.SecondCall`;
- the mean of a row is divided as an unsigned number: `AddNorm.MeanExact`; each deviation is exclusive-ored with 2 where a square is
  meant: `AddNorm.XorBelowSquare`, a statement about single deviations, whose sum over a row can still agree;
- the accumulators of the array can wrap around: `Overflow.ExactlyFits`;
- eight-bit scores can read as negative numbers: `AttentionBounds.SignedScoresExact`;
- an empty message ends reading: `Framing.ReadBackExact`.

## Model

| member | source | states |
|---|---|---|
| Words.LaneOfPack | accelerator/systolic_m2m.cc:38-50 | packing lanes and extracting the n-th, most significant first, gives back that lane |
| Words.PackOfUnpack | accelerator/systolic_m2m.cc:38-50 | unpacking a word into its lanes and packing them again gives the word |
| Words.PackByOr | accelerator/systolic_m2m.cc:111-130 | or-ing shifted lanes into a word is packing them |
| Words.AddActIn32 | accelerator/smm_gem.cc:171-191 | the lane-by-lane loop computes the lane-wise sum modulo the lane width |
| Words.LaneOfAdd | accelerator/smm_gem.cc:171-191 | each lane of the sum is the sum of the lanes modulo the lane width: no carry crosses a lane |
| Words.AddSwap | accelerator/smm_gem.cc:171-191 | results accumulate in any order |
| Words.LaneOrder | accelerator/systolic_m2m.cc:38-50 | lanes 0 to 3 of 0x01020304 are 1 to 4 with eight bits, lanes 0 and 1 of 0x00010002 are 1 and 2 with sixteen, and a 32-bit lane is the word |
| Machine.BuildGeometry | transformer_layers/util.h:17-26 | K a multiple of four and the three element widths give whole words per row |
| Systolic.SystolicArray.constructor | accelerator/systolic_m2m.h:45-62 | all memories start at zero |
| Systolic.SystolicArray.LoadWeights | accelerator/systolic_m2m.cc:52-65 | the lanes of the word are written from the index on, up to the end of the weights; the flag tells whether a word was not zero |
| Systolic.SystolicArray.StoreInput | accelerator/systolic_m2m.cc:67-105 | the lanes go to the off-diagonal of the waiting triangle, nothing else changes |
| Systolic.SystolicArray.RetrieveOutput | accelerator/systolic_m2m.cc:107-131 | the result packs consecutive columns of the anti-diagonal of the output triangle |
| Systolic.SystolicArray.InputQueue | accelerator/systolic_m2m.cc:133-136 | store and read without a tick |
| Systolic.SystolicArray.SkewInput | accelerator/systolic_m2m.cc:170-176 | in place, row by row, equals: the first input column takes the last waiting column, the waiting triangle moves right |
| Systolic.SystolicArray.Accumulate | accelerator/systolic_m2m.cc:178-195 | the descending in-place loop equals the simultaneous multiply-accumulate of all cells on the old sums |
| Systolic.SystolicArray.ShiftInput | accelerator/systolic_m2m.cc:197-202 | in place, equals moving all input registers right at once |
| Systolic.SystolicArray.SkewOutput | accelerator/systolic_m2m.cc:204-211 | in place, column by column, equals moving the output triangle down and taking the masked sums of the last row on top |
| Systolic.SystolicArray.StreamInOut | accelerator/systolic_m2m.cc:165-222 | one call is one simultaneous tick of the whole machine, after which the result is read |
| Machine.StoredAt | accelerator/systolic_m2m.cc:87-96 | where each stored lane is found, and that every other cell is unchanged |
| Machine.RetrievedLane | accelerator/systolic_m2m.cc:112-128 | which cell each lane of a result comes from |
| Machine.DiagPosWraps | accelerator/systolic_m2m.cc:92-93 | a store past the last row starts again at row 0 |
| Machine.OutPosWraps | accelerator/systolic_m2m.cc:112-128 | a read past the last column starts again at column 0 |
| Machine.StartColIs | accelerator/systolic_m2m.cc:112-112 | a read is one word ahead of the index of its call, and starts again at column 0 |
| Machine.MacAllAt | accelerator/systolic_m2m.cc:193-193 | the new sum of cell (r+1, c) is the product at (r, c) plus the old sum above it; the top row stays |
| Wavefront.WaveStart | accelerator/systolic_m2m.cc:165-222 | the wave invariant holds before the first row of a run in any state whose top partial sums are zero |
| Wavefront.WaveTick | accelerator/systolic_m2m.cc:165-222 | every tick keeps the wave invariant: cell (r, c) has worked on row n-1-r-c, partial sums and both triangles hold the matching rows |
| Wavefront.Emerges | accelerator/systolic_m2m.cc:165-222 | a finished row is readable 2K-2 ticks after its input row, whatever was in the array before |
| Wavefront.TickTop | accelerator/systolic_m2m.cc:178-195 | a tick keeps the top partial sums zero |
| Feeding.FedWave | accelerator/sparseMatrixMultiplication.cpp:120-150 | at every moment of a run, rows in the array and words in the waiting triangle are those the wave invariant says |
| Feeding.KeptResult | accelerator/sparseMatrixMultiplication.cpp:133-149 | the call after 2K-1+i rows and j words returns word j of product row i |
| Feeding.LoadedTile | accelerator/sparseMatrixMultiplication.cpp:108-112 | after all words of a tile are loaded the weights are the tile's elements, whatever they were |
| Reachable.ReachTop | accelerator/systolic_m2m.cc:52-195 | after every sequence of load, queue and stream calls on a new array, in every geometry, the top partial sums are zero |
| Reachable.ReachFlag | accelerator/systolic_m2m.cc:62-166 | after every sequence of calls on a new array the flag of the array is set if and only if a non-zero word has been loaded since the last streaming call |
| Reachable.ReachBounded | accelerator/systolic_m2m.cc:52-195 | after every such sequence, in every geometry, the partial sums of row r are at most r largest products in magnitude |
| Reachable.NeverWraps | accelerator/systolic_m2m.cc:178-195 | if K largest products fit 32 bits, the next tick adds without wrap-around in every reachable state |
| Reachable.EightBitBound | accelerator/systolic_m2m.h:45-53 | with eight-bit elements the partial sums of row r are at most r * 2^14 in magnitude, for every K |
| Overflow.ExactlyFits | accelerator/systolic_m2m.cc:178-195 | no sequence of calls leads to a tick that wraps around if and only if K largest products fit 32 bits |
| Overflow.Wraps | accelerator/systolic_m2m.cc:178-195 | otherwise loading and streaming only most negative elements does |
| Overflow.EightBitExact | accelerator/systolic_m2m.h:45-53 | with eight-bit elements there is no wrap-around exactly for K below 2^17 |
| Overflow.WideWraps | accelerator/systolic_m2m.h:45-53 | with 32-bit elements there is, for every K |
| TileProduct.ProductLane | accelerator/sparseMatrixMultiplication.cpp:101-154 | each lane of the block product is the dot product of an input row with a weight column, modulo the lane width |
| TileProduct.KeptIsProduct | accelerator/sparseMatrixMultiplication.cpp:101-154 | the results the driver keeps are the product of block and tile, from any state with zero top partial sums |
| Runs.CallResult | accelerator/sparseMatrixMultiplication.cpp:133-149 | the n-th kept result is what the call at that moment returns |
| Runs.CallsKept | accelerator/sparseMatrixMultiplication.cpp:139-149 | the calls that keep a result are exactly as many as the block has words |
| Misaligned.MultipliesExactlyWhenAligned | accelerator/sparseMatrixMultiplication.cpp:123-131 | the driver computes the product for all states, blocks and tiles if and only if a word holds one element, a row holds one word, or there are no rows |
| Misaligned.LostProduct | accelerator/sparseMatrixMultiplication.cpp:123-131 | in every other geometry: a block and a tile whose product has a first element that is not zero |
| Misaligned.NothingKept | accelerator/sparseMatrixMultiplication.cpp:123-131 | for which the driver, on a new array, keeps a first element that is zero |
| Multiplier.SparseMatrixMultiplier.LoadTile | accelerator/sparseMatrixMultiplication.cpp:108-112 | loading writes the tile at `off` into the weights and changes no other memory of the array |
| Multiplier.SparseMatrixMultiplier.StreamBlock | accelerator/sparseMatrixMultiplication.cpp:115-138 | after the rows of the block the array and the output are where the run says |
| Multiplier.SparseMatrixMultiplier.Flush | accelerator/sparseMatrixMultiplication.cpp:139-152 | after the flush every kept result has been added once |
| Multiplier.SparseMatrixMultiplier.ProcessMultiplication | accelerator/sparseMatrixMultiplication.cpp:101-154 | in any geometry: the kept results of the run on its own input block are added to its own output block, every other word is unchanged, and the top partial sums stay zero |
| Walks.DriverVisits | accelerator/sparseMatrixMultiplication.cpp:101-154 | in an aligned geometry that is adding block times tile, from any prior state |
| Walks.AddZeroTile | accelerator/sparseMatrixMultiplication.cpp:286-310 | a tile of zeros adds nothing |
| Walks.SkipZeros | accelerator/sparseMatrixMultiplication.cpp:286-310 | a walk without its zero tiles has the same result |
| Walks.AnyOrder | accelerator/sparseMatrixMultiplication.cpp:156-180 | walks over the same tiles in any order have the same result |
| DenseProduct.DenseElement | accelerator/sparseMatrixMultiplication.cpp:312-324 | each element after the dense walk is the old element plus row times column, wrapped to the lane width |
| DenseProduct.DenseIsMatMulAdd | accelerator/sparseMatrixMultiplication.cpp:312-324 | the dense walk adds the matrix product of the matrices in the packed, blocked buffers to the matrix in the output |
| DenseProduct.DenseIsMatMul | accelerator/sparseMatrixMultiplication.cpp:312-324 | into a zero output it writes the matrix product |
| Matrices.MatrixInjective | accelerator/sparseMatrixMultiplication.cpp:115-119 | a packed, blocked buffer is determined by its matrix |
| Matrices.MatrixOfEncode | accelerator/sparseMatrixMultiplication.cpp:115-119 | packing a matrix into blocks and reading it back gives the matrix |
| Matrices.WrapIs | accelerator/smm_gem.cc:171-191 | wrapping to the lane width gives the one number of the signed range that differs by a multiple of 2^bits |
| Multiplier.SparseMatrixMultiplier.ComputeNonPruned | accelerator/sparseMatrixMultiplication.cpp:312-324 | the output is the dense walk over the old output |
| Multiplier.SparseMatrixMultiplier.RunTimeZero | accelerator/sparseMatrixMultiplication.cpp:294-300 | the word-by-word test finds out whether the tile is all zero |
| Multiplier.SparseMatrixMultiplier.ComputeDynamic | accelerator/sparseMatrixMultiplication.cpp:286-310 | skipping zero tiles at run time gives the dense result |
| Tiles.TileAllZeros | transformer_layers/sparse_rep.cc:239-264 | the test of the encoders, with its early exits, finds out whether the tile is all zero |
| PointerFormats.Dense2Csr | transformer_layers/sparse_rep.cc:31-83 | pointers count the tiles before each row of tiles, and the lists hold column and position of every tile that is not all zero, once, in row order |
| PointerFormats.Dense2Csc | transformer_layers/sparse_rep.cc:85-135 | the same by columns |
| PointerFormats.PointersEnds | transformer_layers/sparse_rep.cc:31-135 | pointers start at zero and end at the number of listed tiles |
| PointerFormats.PointersMonotone | transformer_layers/sparse_rep.cc:31-135 | pointers do not decrease, and stay within the lists |
| PointerFormats.CsrIncreasing | transformer_layers/sparse_rep.cc:31-83 | columns strictly increase within a row |
| PointerFormats.CscIncreasing | transformer_layers/sparse_rep.cc:85-135 | rows strictly increase within a column |
| PointerFormats.CsrEntry | transformer_layers/sparse_rep.cc:31-83 | each entry of a row segment names the right row, column and words |
| PointerFormats.CscEntry | transformer_layers/sparse_rep.cc:85-135 | each entry of a column segment names the right row, column and words |
| PointerFormats.RowsAreTiles | accelerator/sparseMatrixMultiplication.cpp:156-167 | row order and storage order visit the same tiles, each once |
| Multiplier.RowOrder | accelerator/sparseMatrixMultiplication.cpp:156-167 | and so have the same result |
| Multiplier.SparseMatrixMultiplier.ComputeCSR | accelerator/sparseMatrixMultiplication.cpp:156-167 | walking compressed rows gives the dense result |
| Multiplier.SparseMatrixMultiplier.ComputeCSC | accelerator/sparseMatrixMultiplication.cpp:169-180 | walking compressed columns gives the dense result |
| MetaData.Dense2MetaData | transformer_layers/sparse_rep.cc:137-202 | a mark per column of tiles, marks per tile of each marked column only, and the tiles that are not all zero one after the other |
| MetaData.MarkMeans | transformer_layers/sparse_rep.cc:137-202 | a clear column mark means zero tiles; in a marked column the second level, at the rank of the column, says which tiles are not all zero, although marks of zero columns are overwritten |
| Multiplier.SparseMatrixMultiplier.ComputeMetaData | accelerator/sparseMatrixMultiplication.cpp:182-201 | decoding both levels gives the dense result |
| InterleavedEncoder.Dense2InterleavedMetaData | transformer_layers/sparse_rep.cc:204-289 | every block holds its length, one bit for each tile of its column, set exactly for tiles that are not all zero, and those tiles in order |
| InterleavedEncoder.EncodeBlock | transformer_layers/sparse_rep.cc:229-287 | one block is added behind the others, which stay as they are |
| FormatLaws.BlockLength | transformer_layers/sparse_rep.cc:229-287 | block 0 starts at word 0; a block starts with its length, which is one word, the bitmap and the tiles that are not all zero, and adding it leads to the next block |
| FormatLaws.BitmapWord | transformer_layers/sparse_rep.cc:275-284 | word p of a bitmap is the number with binary digit i, counted from the least significant, set exactly if tile 32p + i of the column exists and is not all zero |
| FormatLaws.BlockTiles | transformer_layers/sparse_rep.cc:267-274 | the tiles of the column that are not all zero follow the bitmap one after the other |
| FormatLaws.SizeFormula | transformer_layers/sparse_rep.cc:218-220 | the allocated length, in rows and words per row of the kernel |
| Interleaved.BlockInStep | accelerator/sparseMatrixMultiplication.cpp:227-239 | from any row of a block on, with the bitmap position in step, the decoder visits the remaining tiles that are not all zero and stops exactly at the end of the block |
| Interleaved.DecodeEncoded | accelerator/sparseMatrixMultiplication.cpp:203-241 | with at least 32 rows of tiles the decoder visits exactly the tiles that are not all zero, in order |
| InterleavedLimits.LandsOnNext | accelerator/sparseMatrixMultiplication.cpp:227-239 | whatever bits it looks at, a decoder that leaves a block leaves it exactly at its end |
| InterleavedLimits.InterleavedExact | accelerator/sparseMatrixMultiplication.cpp:212-223 | decoding gives back the tiles if and only if there are at least 32 rows of tiles or none, or the kernel is all zero |
| InterleavedLimits.CapacityExact | transformer_layers/sparse_rep.cc:218-220 | the allocated buffer holds the encoding of every kernel of a shape if and only if the extra words cover the block headers |
| InterleavedLimits.WideWeightsFit | transformer_layers/sparse_rep.cc:218-220 | with one weight per word they always do |
| InterleavedLimits.NarrowWeightsOverflow | transformer_layers/sparse_rep.cc:218-220 | with four weights per word and 100 columns of one tile they do not |
| Multiplier.SparseMatrixMultiplier.DecodeColumn | accelerator/sparseMatrixMultiplication.cpp:216-239 | the decoding loop of one block makes the visits of the decoder and ends where it does |
| Multiplier.SparseMatrixMultiplier.ComputeInterleavedMetaData | accelerator/sparseMatrixMultiplication.cpp:203-241 | for any buffer the decoder can read, the output is the walk over the decoded visits |
| Multiplier.InterleavedIsDense | accelerator/sparseMatrixMultiplication.cpp:203-241 | which is the dense result when the bitmap is aligned or the kernel is all zero |
| Compaction.RemoveZeroTiles | transformer_layers/sparse_rep.cc:292-338 | the buffer starts with the tiles that are not all zero, in storage order, one after the other |
| FormatLaws.CompactIs | transformer_layers/sparse_rep.cc:292-338 | a buffer is compacted if and only if it starts with the concatenation of the words of the picked tiles |
| Multiplier.SparseMatrixMultiplier.ComputeWithFlag | accelerator/sparseMatrixMultiplication.cpp:243-263 | with a flag bit, most significant first, for exactly the zero tiles (`FormatLaws.FlagDigits` says which numbers these words are), the compacted tiles give the dense result |
| FormatLaws.FlagDigits | accelerator/sparseMatrixMultiplication.cpp:243-263 | flag words mark the zero tiles if and only if digit i of word p, in binary with the most significant digit first, is 1 exactly for the zero tiles 32p + i |
| FormatLaws.FirstFlag | accelerator/sparseMatrixMultiplication.cpp:243-263 | the word 0x80000000 marks tile 0 and no other |
| HiddenKey.InterleaveHiddenFlagZeroFree | transformer_layers/sparse_rep.cc:341-390 | all tiles in storage order with one key word in place of each zero tile |
| HiddenKey.HiddenKeyExact | accelerator/sparseMatrixMultiplication.cpp:266-283 | decoding gives back the tiles if and only if no tile that is not all zero starts with the key |
| HiddenKey.Collision | accelerator/sparseMatrixMultiplication.cpp:273-276 | at a tile that starts with the key the tile is lost for good |
| Multiplier.SparseMatrixMultiplier.ComputeHiddenKey | accelerator/sparseMatrixMultiplication.cpp:266-283 | for any buffer the decoder can read, the output is the walk over the decoded visits |
| Multiplier.HiddenKeyIsDense | accelerator/sparseMatrixMultiplication.cpp:266-283 | which is the dense result without collisions |
| Pipelines.ViaCompressedRows | accelerator/sparseMatrixMultiplication.cpp:327-336 | encoding a dense kernel by rows and computing with the result leaves the dense result |
| Pipelines.ViaCompressedColumns | accelerator/sparseMatrixMultiplication.cpp:327-336 | the same by columns |
| Pipelines.ViaMetaData | accelerator/sparseMatrixMultiplication.cpp:338-367 | the same with two levels of marks |
| Pipelines.ViaFlag | accelerator/sparseMatrixMultiplication.cpp:338-367 | the same with compacted tiles, for flags that mark the zero tiles, as `FormatLaws.FlagDigits` spells out |
| Pipelines.ViaHiddenKey | accelerator/sparseMatrixMultiplication.cpp:338-367 | the same with a key no other tile starts with |
| Pipelines.ViaInterleaved | accelerator/sparseMatrixMultiplication.cpp:338-367 | the same with interleaved bitmaps, for at least 32 rows of tiles or a zero kernel, and a kernel whose encoding fits the allocated buffer |
| LostTiles.LostTileShows | accelerator/sparseMatrixMultiplication.cpp:101-154 | if a tile that is not all zero is never visited, some input has another product, unless weights are wider than activations |
| LostTiles.HiddenKeyProducts | accelerator/sparseMatrixMultiplication.cpp:266-283 | the product of a decoded kernel is right for every input if and only if no tile that is not all zero starts with the key |
| LostTiles.InterleavedProducts | accelerator/sparseMatrixMultiplication.cpp:203-241 | the product of a decoded kernel is right for every input if and only if there are at least 32 rows of tiles or none, or the kernel is all zero |
| Pipelines.DenseResultIsProduct | accelerator/sparseMatrixMultiplication.cpp:312-324 | and that result, in a zero output, is the matrix product |
| Pipelines.DenseResultAddsProduct | accelerator/sparseMatrixMultiplication.cpp:312-324 | in any output, the result is the matrix product added to what the output held |
| Layouts.RowWise2BlockWise | transformer_layers/debuggerFunctions.cc:63-75 | the blocked buffer holds the whole blocks of the row-major one |
| Layouts.BlockWise2RowWise | transformer_layers/debuggerFunctions.cc:49-61 | every word of the blocked buffer goes to its place, and words behind the last whole block of a row are unchanged |
| Layouts.ToBlockWiseAt | transformer_layers/debuggerFunctions.cc:63-75 | where each word of the blocked buffer comes from |
| Layouts.ToRowWiseAt | transformer_layers/debuggerFunctions.cc:49-61 | where each word of the row-major buffer comes from |
| Layouts.BlockRoundTrip | transformer_layers/debuggerFunctions.cc:49-75 | to row-major order and back is the identity, for every row length |
| Layouts.RowRoundTrip | transformer_layers/debuggerFunctions.cc:49-75 | to blocked order and back is the identity for rows of whole blocks, and on the buffer itself for every row length |
| Transpose.GatherLanes | transformer_layers/transpose.cc:16-20 | the or-loop packs the same lane of several words |
| Transpose.TransposeRowMajor | transformer_layers/transpose.cc:4-23 | the output is the packed transpose of the row-major input |
| Transpose.TransposeRearranged | transformer_layers/transpose.cc:25-45 | the output is the packed, blocked transpose of the blocked input |
| Transpose.TransposeMoves | transformer_layers/transpose.cc:4-45 | element (r, c) of the input matrix is element (c, r) of the output matrix, for both layouts and all lane widths |
| Transpose.TransposeTwice | transformer_layers/transpose.cc:4-45 | transposing twice with the dimensions exchanged gives the buffer back |
| StridedKernels.TransposeRefines | transformer_layers/transpose.cc:4-45 | transposing the blocked image of a buffer gives the blocked image of its transpose |
| StridedKernels.TransposeBothForms | transformer_layers/transpose.cc:4-45 | run on a buffer and on its blocked image, the two transpositions leave a buffer and its blocked image |
| Elements.Store | transformer_layers/softmax.cc:94-98 | a store through an element pointer changes exactly that element |
| RowPasses.MapRow | transformer_layers/softmax.cc:117-133 | a strided in-place pass replaces every element of one row, adds up the new values and leaves all other rows alone |
| RowPasses.SumRow | transformer_layers/addNorm.cc:57-74 | a strided pass adds up a function of the elements of one row modulo 2^32 |
| Softmax.LookupIndex | transformer_layers/softmax.cc:95-95 | the table index is below 32 for every element and width |
| KernelLaws.TableRounds | transformer_layers/softmax.cc:9-11 | entry i of the table is the nearest integer to 4 e^(s/4), s being i read as a signed five-bit number |
| KernelLaws.RootExists | transformer_layers/softmax.cc:9-11 | 1.284026 is a fourth root of a number with the digits of e, so the laws of the table are not empty |
| KernelLaws.WeightRounds | transformer_layers/softmax.cc:95-95 | the weight of an element is the nearest integer to 4 e^(s/4), s being its five most significant bits, signed |
| KernelLaws.SoftmaxLaw | transformer_layers/softmax.cc:88-135 | with these integers as weights and m as their sum, each element of the softmax of a row is its weight divided by m / 256 + 1, rounded down; for m below 256 it is the weight |
| Softmax.MassBound | transformer_layers/softmax.cc:114-135 | a normalised row, of any length, has no negative element and sums to at most 255 |
| Softmax.RunningMass | transformer_layers/softmax.cc:117-125 | the running sum never exceeds the mass of the row, so it stays in 32 bits if the mass does |
| Softmax.ShortRowsFit | transformer_layers/softmax.cc:117-125 | the mass fits for rows of up to 2^31 / 170 elements |
| Softmax.SoftmaxRow | transformer_layers/softmax.cc:116-134 | one row whose mass fits 32 bits becomes its softmax, which `KernelLaws.SoftmaxLaw` determines; all others are unchanged |
| Softmax.Compute | transformer_layers/softmax.cc:88-112 | every row of the row-major buffer becomes its softmax, determined by `KernelLaws.SoftmaxLaw` |
| Softmax.ComputeRearranged | transformer_layers/softmax.cc:114-135 | every row of the blocked buffer becomes its softmax, determined by `KernelLaws.SoftmaxLaw` |
| StridedKernels.SoftmaxBothForms | transformer_layers/softmax.cc:88-135 | run on a buffer and on its blocked image, the row-major and the strided form leave a buffer, the softmax of the rows, and its blocked image |
| Softmax.PostSoftmax | transformer_layers/softmax.cc:137-143 | every element, read as signed, is divided by 64 toward zero (`KernelLaws.ScaleLaw`) |
| KernelLaws.TruncDivExact | transformer_layers/softmax.cc:140-140 | a number is the quotient toward zero if and only if it has the largest magnitude whose product with the divisor does not exceed the dividend in magnitude, and not the opposite sign |
| KernelLaws.TruncDivOdd | transformer_layers/softmax.cc:140-140 | negating the dividend negates the quotient |
| KernelLaws.ScaleLaw | transformer_layers/softmax.cc:137-143 | a stored element, read as signed, becomes its quotient by 64 toward zero |
| KernelLaws.ScaledLaw | transformer_layers/softmax.cc:137-143 | so does every element of a matrix that fits its lanes |
| KernelLaws.ProductInRange | transformer_layers/selfattention.cc:93-96 | the products that are scaled fit their lanes |
| AddNorm.AddInto | transformer_layers/addNorm.cc:22-27 | consecutive elements are added with wrap-around to the lane width, and their 32-bit sum is returned; over a whole buffer every word becomes the lane-wise sum of the two words |
| AddNorm.AddedWords | transformer_layers/addNorm.cc:22-27 | adding all elements in memory order is adding word by word, lane by lane, without carries |
| AddNorm.NormaliseRow | transformer_layers/addNorm.cc:29-43 | one row is normalised as `KernelLaws.NormLaw` says, all others are unchanged |
| AddNorm.Compute | transformer_layers/addNorm.cc:17-45 | every row of the row-major buffer becomes the normalised sum of the two rows (`AddNorm.AddedWords`, `KernelLaws.NormLaw`) |
| AddNorm.ComputeRearranged | transformer_layers/addNorm.cc:47-88 | every row of the blocked buffer becomes the normalised sum of the two rows (`AddNorm.AddedWords`, `KernelLaws.NormLaw`) |
| StridedKernels.AddNormBothForms | transformer_layers/addNorm.cc:17-88 | run on buffers and on their blocked images, the row-major and the strided form leave the normalised sums and their blocked image |
| AddNorm.MeanExact | transformer_layers/addNorm.cc:30-30 | the mean is the sum divided by the dimension, rounded down, for every 32-bit sum if and only if the dimension divides 2^32 |
| AddNorm.MeanOfMinusOne | transformer_layers/addNorm.cc:30-30 | for dimension 12 and sum -1 the code computes 0x55555555 |
| KernelLaws.MeanLaw | transformer_layers/addNorm.cc:30-30 | the mean is the signed number with the low 32 bits of the quotient of the sum, taken as an unsigned 64-bit number, by the dimension |
| KernelLaws.MeanIs | transformer_layers/addNorm.cc:30-30 | it is the quotient rounded down if the sum is not negative or the dimension divides 2^32 |
| KernelLaws.NormLaw | transformer_layers/addNorm.cc:29-43 | given the mean, the deviations exclusive-ored with 2, their mean toward zero as variance and the integer part of 4 / (sqrt(variance) + 1) as scale, each element becomes its deviation from the mean times the scale, divided by the elements per word toward zero |
| AddNorm.XorBelowSquare | transformer_layers/addNorm.cc:32-34 | the exclusive or of one deviation with 2 is never its square, and smaller exactly for deviations other than 0 and 1 |
| AddNorm.SpreadUnderestimated | transformer_layers/addNorm.cc:32-34 | so the sum over a row without such deviations is below the sum of squares |
| AddNorm.SdInvIsRoot | transformer_layers/addNorm.cc:36-37 | the scale for a variance that is not negative is the integer part of 4 / (sqrt(variance) + 1), over the reals |
| AddNorm.WideRowVanishes | transformer_layers/addNorm.cc:35-43 | a row with a variance of ten or more is normalised to zeros |
| AddNorm.ConstantRow | transformer_layers/addNorm.cc:29-43 | a row of equal elements is normalised to zeros if its mean is right |
| Attention.Multiply | transformer_layers/selfattention.cc:88-94 | one product on the array, with a buffer of activations as weights, adds the matrix product to the output |
| Attention.SoftmaxInPlace | transformer_layers/selfattention.cc:91-91 | the matrix in the score buffer becomes its softmax by rows, in every lane width |
| Attention.SingleHeadSelfAttn.constructor | transformer_layers/selfattention.cc:9-30 | the buffers are new, separate, zero and of the sizes the products need |
| Attention.SingleHeadSelfAttn.Project | transformer_layers/selfattention.cc:78-85 | X Wq is added to the query buffer, X Wk to the key buffer and X Wv to the value buffer, each with its own weight array, and the keys are transposed |
| Attention.SingleHeadSelfAttn.Score | transformer_layers/selfattention.cc:88-91 | scores are the softmax of old scores plus queries times transposed keys |
| Attention.SingleHeadSelfAttn.Attend | transformer_layers/selfattention.cc:93-96 | the output is old output plus scores times values, scaled |
| Attention.SingleHeadSelfAttn.Compute | transformer_layers/selfattention.cc:77-97 | what one call makes of each buffer and of the output, whatever they held, for all sizes that are multiples of K: the three projections are added each to its buffer, the scores are the softmax of old scores plus queries times transposed keys, the output is old output plus scores times values, scaled |
| Attention.SingleHeadSelfAttn.ComputeOnce | transformer_layers/selfattention.cc:77-97 | on zeroed buffers one call writes the blocked form of the scaled softmax((X Wq)(X Wk)^T)(X Wv), written out with the matrices in the query, key and value weight arrays |
| Attention.FirstCall | transformer_layers/selfattention.cc:77-97 | on zeros the step of the head is that formula |
| Attention.SecondCall | transformer_layers/selfattention.cc:78-80 | a second call with the same input works on doubled queries, keys and values |
| MatrixKernels.NarrowScoresFit | transformer_layers/softmax.cc:117-125 | up to 2^31 / 170 sequence positions the row sums of the softmax always fit |
| MatrixKernels.SoftmaxOfBuffer | transformer_layers/softmax.cc:114-135 | softmax in memory order is softmax of the rows of the matrix, although memory order reverses each word |
| MatrixKernels.ScaledBuffer | transformer_layers/softmax.cc:137-143 | the final pass divides every element of the matrix by 64, toward zero by `KernelLaws.ScaledLaw` |
| AttentionBounds.ScoresBound | transformer_layers/selfattention.cc:91-94 | with lanes wider than eight bits rows of scores sum to at most 255, and every partial sum of scores times values is at most 255 times the largest value |
| AttentionBounds.ProductExact | transformer_layers/selfattention.cc:93-94 | so the product does not wrap if 255 times the largest value fits a lane |
| AttentionBounds.SignedScoresExact | transformer_layers/softmax.cc:114-135 | reading scores as signed numbers keeps them if and only if lanes are wider than eight bits |
| AttentionBounds.NarrowScore | transformer_layers/softmax.cc:9-11 | with eight bits the score 170 reads as -86 |
| Upgrades.LinkLegacy | gem5-X-TiC-SAT/util/cpt_upgrader.py:167-171 | the loop over legacy versions ends at the first gap, and fails exactly if version 3 exists without version 2 |
| Upgrades.LinkedChain | gem5-X-TiC-SAT/util/cpt_upgrader.py:167-171 | after it each version depends on exactly the one before, and other scripts are unchanged |
| Upgrades.LoadAll | gem5-X-TiC-SAT/util/cpt_upgrader.py:167-185 | loading succeeds exactly if every tag and version named exists; then u is a dependency of t if and only if t names u as a chained or declared dependency or u names t as a forward one, and all dependencies are known |
| Upgrades.Upgrade | gem5-X-TiC-SAT/util/cpt_upgrader.py:238-252 | the loop ends; each upgrader or downgrader that is due is applied at most once and only after its dependencies were present; on success all are, and the tags are those of the upgraders and no downgrader's; with nothing to remove it fails if and only if the missing tags contain a cycle or one depends on a tag no script adds |
| Upgrades.ApplyAll | gem5-X-TiC-SAT/util/cpt_upgrader.py:248-252 | one round, in any order, keeps that order |
| Upgrades.DependsBefore | gem5-X-TiC-SAT/util/cpt_upgrader.py:140-144 | without removals, a dependency of an applied upgrade was there from the start or applied earlier |
| Upgrades.NoneOnCycle | gem5-X-TiC-SAT/util/cpt_upgrader.py:238-252 | tags that have all been applied in order contain no cycle |
| Upgrades.StuckHasReason | gem5-X-TiC-SAT/util/cpt_upgrader.py:243-246 | if nothing is ready the remaining tags contain a cycle, or one of them depends on a tag no script adds |
| Framing.VarintLength | gem5-X-TiC-SAT/util/protolib.py:146-158 | n bytes are enough exactly for numbers of 7n bits |
| Framing.VarintByte | gem5-X-TiC-SAT/util/protolib.py:146-158 | byte i of an encoding holds bits 7i to 7i + 6 of the value, and its top bit says whether another byte follows |
| Framing.EncodeVarint32 | gem5-X-TiC-SAT/util/protolib.py:146-158 | the loop appends the varint of the value |
| Framing.DecodeVarint32 | gem5-X-TiC-SAT/util/protolib.py:101-129 | the loop computes the decoding of what is left of the file and consumes just those bytes |
| Framing.VarintRoundTrip | gem5-X-TiC-SAT/util/protolib.py:101-158 | decoding an encoding followed by anything gives the value and its length below 2^32, and exactly what the conversion to 32 bits makes of every larger number |
| Framing.DecodeLaw | gem5-X-TiC-SAT/util/protolib.py:101-129 | decoding any bytes: up to ten bytes, least significant group first, form a number that is cut to 32 bits, less 2^32 if it does not fit 63 bits; otherwise the file ends early or the decoder gives up after ten bytes |
| Framing.Truncated | gem5-X-TiC-SAT/util/protolib.py:113-115 | a file that ends inside an encoding reads as end of file |
| Framing.EncodeMessage | gem5-X-TiC-SAT/util/protolib.py:160-166 | the length and the message are appended |
| Framing.DecodeMessage | gem5-X-TiC-SAT/util/protolib.py:131-144 | one attempt returns the next message or reports that there is none, and in both cases leaves exactly what follows the bytes it read |
| Framing.ReadBack | gem5-X-TiC-SAT/util/protolib.py:131-166 | what has been written is read back up to the first empty message |
| Framing.ReadBackExact | gem5-X-TiC-SAT/util/protolib.py:131-166 | the messages come back exactly if and only if none of them is empty |

## Left out

- Floating-point branches of the array, the accumulation, softmax and add-and-normalise.
- The inline-assembly calls to a simulated device; the model binds the driver to the array object, as a development build does.
- The checks of the array's own assertions are preconditions: stored indices stay below twice K.
- `conventionalCompute`, the software product, which uses another weight layout and fits four lanes only.
- `Dense` and the dispatch on the weight format: a dense layer without bias is one call of the multiplier. `Pipelines` joins each encoder
  with its decoder.
- The whole transformer block, the feed-forward layers and `transformer.cc`: sequencing, allocation and statistics over the parts modelled here.
- `computeFloat` and `softmax_fixed`, which depend on the exponential function and on rounding.
- `multihead_transpose`, the printing helpers and the test functions.
- Console output of encoders and drivers.
- InterleavedEncoder.Dense2InterleavedMetaData: requires that the result fits the allocated buffer, which `InterleavedLimits.CapacityExact` shows is not implied.
- Multiplier.SparseMatrixMultiplier.ComputeInterleavedMetaData: requires that decoding stays inside the buffer and visits existing tiles, because reading outside is undefined in the program.
- Multiplier.SparseMatrixMultiplier.ComputeHiddenKey: requires that decoding stays inside the buffer, for the same reason.
- Multiplier.SparseMatrixMultiplier.ComputeWithFlag: the flag words are an input; the repository has no encoder for them.
- Softmax.SoftmaxRow: the weights of the row sum to less than 2^31, because overflow is undefined in the program.
- Softmax.Compute: row lengths are multiples of the elements per word, because rows overlap otherwise.
- AddNorm.NormaliseRow: what the program makes of a negative variance is a parameter, because converting its root to an integer is undefined; overflow of the differences and products, undefined as well, wraps around.
- KernelLaws.NormLaw: for rows whose sums fit 32 bits, whose mean is right (`KernelLaws.MeanIs`) and whose variance is not negative; `KernelLaws.MeanLaw` and `AddNorm.MeanExact` cover the mean in the other cases.
- AddNorm.Compute: row lengths are multiples of the elements per word, because rows overlap otherwise.
- Attention.SingleHeadSelfAttn.Compute: dense weights and equal lane widths of activations and weights; the row sums of the softmax fit 32 bits.
- Upgrades.LoadAll: type checks of the scripts, and reading them from files.
- Upgrades.Upgrade: what a script does to a checkpoint, and reading and writing of the file; with tags to remove, no condition for success is given, because `ready` asks for dependencies to be present where the documentation of downgraders asks for them to be removed.
- Framing.DecodeMessage: parsing a message from its bytes; a message is its bytes.
- Configuration, topology and viewer scripts of the simulator.
