/** From a dense kernel through each encoder and its decoder: all formats leave the same matrix product. */
module Pipelines {
  import opened Arith
  import opened Words
  import opened Walks
  import opened Tiles
  import opened Matrices
  import opened DenseProduct
  import opened PointerFormats
  import opened Compaction
  import opened MetaData
  import opened HiddenKey
  import opened Interleaved
  import opened InterleavedEncoder
  import opened InterleavedLimits
  import opened Multiplier

  /** A call that can be made: a ready array, and a dense kernel apart from everything that is written. */
  ghost predicate Callable(mult: SparseMatrixMultiplier, input: array<Word>, output: array<Word>, kernel: array<Word>)
    reads mult.smm, mult.smm.Repr(), input, kernel
  {
    && mult.Ready(input, output) && kernel as object !in mult.smm.Repr() && kernel != output
    && IsKernel(mult.JobFor(input), kernel[..])
  }

  /** What the dense walk makes of an output. */
  ghost function DenseResult(mult: SparseMatrixMultiplier, out: seq<Word>, input: seq<Word>, kernel: seq<Word>): (r: seq<Word>)
  {
    var job := Job(mult.g, mult.seqLen, mult.RowInW(), mult.ColInW(), input);
    if job.Ok() && IsKernel(job, kernel) && |out| == job.OutSize() then Walk(job, out, DenseVisits(job, kernel)) else out
  }

  method ViaCompressedRows(mult: SparseMatrixMultiplier, input: array<Word>, output: array<Word>, kernel: array<Word>)
    requires Callable(mult, input, output, kernel)
    modifies mult.smm.Repr(), output
    ensures mult.Ready(input, output)
    ensures output[..] == DenseResult(mult, old(output[..]), old(input[..]), old(kernel[..]))
  {
    hide Mul, Walk, DenseVisits, Compressed, RowVisits;
    var rows, cols := mult.RowInW(), mult.ColInW();
    var colInd, rowPtr, values := new nat[Mul(rows, cols)], new nat[rows + 1], new nat[Mul(rows, cols)];
    var _ := Dense2Csr(mult.g, kernel, rows, cols, colInd, rowPtr, values);
    mult.ComputeCSR(input, output, colInd, rowPtr, values, kernel);
  }

  method ViaCompressedColumns(mult: SparseMatrixMultiplier, input: array<Word>, output: array<Word>, kernel: array<Word>)
    requires Callable(mult, input, output, kernel)
    modifies mult.smm.Repr(), output
    ensures mult.Ready(input, output)
    ensures output[..] == DenseResult(mult, old(output[..]), old(input[..]), old(kernel[..]))
  {
    hide Mul, Walk, DenseVisits, Compressed, TileVisits;
    var rows, cols := mult.RowInW(), mult.ColInW();
    var colPtr, rowInd, values := new nat[cols + 1], new nat[Mul(cols, rows)], new nat[Mul(cols, rows)];
    var _ := Dense2Csc(mult.g, kernel, rows, cols, colPtr, rowInd, values);
    mult.ComputeCSC(input, output, colPtr, rowInd, values, kernel);
  }

  method ViaMetaData(mult: SparseMatrixMultiplier, input: array<Word>, output: array<Word>, kernel: array<Word>)
    requires Callable(mult, input, output, kernel)
    modifies mult.smm.Repr(), output
    ensures mult.Ready(input, output)
    ensures output[..] == DenseResult(mult, old(output[..]), old(input[..]), old(kernel[..]))
  {
    hide Mul, Walk, DenseVisits, IsMetaData;
    var rows, cols := mult.RowInW(), mult.ColInW();
    var m1, m2 := new Word[cols](_ => 0), new Word[Mul(cols, rows)](_ => 0);
    var values := Dense2MetaData(mult.g, kernel, rows, cols, m1, m2);
    mult.ComputeMetaData(input, output, m1, m2, values, kernel[..]);
  }

  /** The flag words come from outside; they must mark exactly the zero tiles. */
  method ViaFlag(mult: SparseMatrixMultiplier, input: array<Word>, output: array<Word>, kernel: array<Word>, flag: array<Word>)
    requires Callable(mult, input, output, kernel) && flag as object !in mult.smm.Repr() && flag != output
    requires MarksZeros(TileVisits(mult.g, mult.RowInW(), mult.ColInW(), kernel[..]), flag[..])
    modifies mult.smm.Repr(), output
    ensures mult.Ready(input, output)
    ensures output[..] == DenseResult(mult, old(output[..]), old(input[..]), old(kernel[..]))
  {
    hide Mul, Walk, DenseVisits, Compact, TileVisits, ZeroTile, FlagBit;
    var values := RemoveZeroTiles(mult.g, kernel, mult.RowInW(), mult.ColInW());
    mult.ComputeWithFlag(input, output, flag, values, kernel[..]);
  }

  /** No tile that is not all zero starts with the key. */
  method ViaHiddenKey(mult: SparseMatrixMultiplier, input: array<Word>, output: array<Word>, kernel: array<Word>, key: Word)
    requires Callable(mult, input, output, kernel)
    requires var vs := TileVisits(mult.g, mult.RowInW(), mult.ColInW(), kernel[..]);
             forall i :: 0 <= i < |vs| ==> !Collides(vs, key, i)
    modifies mult.smm.Repr(), output
    ensures mult.Ready(input, output)
    ensures output[..] == DenseResult(mult, old(output[..]), old(input[..]), old(kernel[..]))
  {
    hide Mul, Walk, Decoded, Encoded, Collides, TileVisit;
    ghost var job := mult.JobFor(input);
    var values := InterleaveHiddenFlagZeroFree(mult.g, kernel, mult.RowInW(), mult.ColInW(), key);
    HiddenKeyIsDense(job, output[..], kernel[..], key, values[..]);
    mult.ComputeHiddenKey(input, output, key, values);
  }

  /** At least 32 rows of tiles, unless the kernel is all zero, and room in the allocated buffer for this kernel. */
  method ViaInterleaved(mult: SparseMatrixMultiplier, input: array<Word>, output: array<Word>, kernel: array<Word>)
    requires Callable(mult, input, output, kernel) && (BitmapAligned(mult.RowInW()) || ZeroTile(kernel[..]))
    requires RoomFor(mult.g, mult.RowInW(), mult.ColInW(), kernel[..])
    requires NewKernelSize(mult.g, mult.RowInW(), mult.ColInW()) < 0x1_0000_0000
    modifies mult.smm.Repr(), output
    ensures mult.Ready(input, output)
    ensures output[..] == DenseResult(mult, old(output[..]), old(input[..]), old(kernel[..]))
  {
    hide Mul, Walk, Decode, IsInterleaved, TileVisits, NewKernelSize, Start, MetaWords, BitmapAligned, ZeroTile;
    ghost var job := mult.JobFor(input);
    TileSizePositive(mult.g);
    var values := Dense2InterleavedMetaData(mult.g, kernel, mult.RowInW(), mult.ColInW());
    InterleavedIsDense(job, output[..], kernel[..], values[..]);
    mult.ComputeInterleavedMetaData(input, output, values);
  }

  /** The result is the matrix product added to what the output held. */
  lemma DenseResultAddsProduct(mult: SparseMatrixMultiplier, out: seq<Word>, input: seq<Word>, kernel: seq<Word>)
    requires var job := Job(mult.g, mult.seqLen, mult.RowInW(), mult.ColInW(), input);
             job.Ok() && IsKernel(job, kernel) && |out| == job.OutSize()
    ensures var job := Job(mult.g, mult.seqLen, mult.RowInW(), mult.ColInW(), input);
            && |DenseResult(mult, out, input, kernel)| == job.OutSize()
            && OutMatrix(job, DenseResult(mult, out, input, kernel))
               == MatMulAdd(job.g.act, OutMatrix(job, out), Activations(job), WeightMatrix(job, kernel),
                            job.rows, Mul(job.tileRows, job.g.k), Mul(job.tileCols, job.g.k))
  {
    hide Mul, Walk, DenseVisits, OutMatrix, MatMulAdd, Activations, WeightMatrix;
    DenseIsMatMulAdd(Job(mult.g, mult.seqLen, mult.RowInW(), mult.ColInW(), input), kernel, out);
  }

  /** The result, in a zero output, is the matrix product. */
  lemma DenseResultIsProduct(mult: SparseMatrixMultiplier, out: seq<Word>, input: seq<Word>, kernel: seq<Word>)
    requires var job := Job(mult.g, mult.seqLen, mult.RowInW(), mult.ColInW(), input);
             job.Ok() && IsKernel(job, kernel) && |out| == job.OutSize() && ZeroTile(out)
    ensures var job := Job(mult.g, mult.seqLen, mult.RowInW(), mult.ColInW(), input);
            && |DenseResult(mult, out, input, kernel)| == job.OutSize()
            && OutMatrix(job, DenseResult(mult, out, input, kernel))
               == MatMul(job.g.act, Activations(job), WeightMatrix(job, kernel),
                         job.rows, Mul(job.tileRows, job.g.k), Mul(job.tileCols, job.g.k))
  {
    hide Mul, Walk, DenseVisits, OutMatrix, MatMul, Activations, WeightMatrix, ZeroTile;
    DenseIsMatMul(Job(mult.g, mult.seqLen, mult.RowInW(), mult.ColInW(), input), kernel, out);
  }
}
