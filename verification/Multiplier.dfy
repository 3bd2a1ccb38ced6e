/** The driver of the array: one tile at a time, then all tiles of a weight matrix in one of its formats. */
module Multiplier {
  import opened Arith
  import opened Words
  import opened Machine
  import opened Wavefront
  import opened Feeding
  import opened TileProduct
  import opened Runs
  import opened Systolic
  import opened Walks
  import opened Tiles
  import opened DenseProduct
  import opened PointerFormats
  import opened Bits
  import opened Compaction
  import opened MetaData
  import opened HiddenKey
  import opened Interleaved
  import opened InterleavedLimits

  class SparseMatrixMultiplier {
    const g: Geometry
    const inputSize: nat
    const outputSize: nat
    const seqLen: nat
    const smm: SystolicArray

    constructor (smm: SystolicArray, inputSize: nat, outputSize: nat, seqLen: nat)
      ensures this.smm == smm && this.g == smm.g
      ensures this.inputSize == inputSize && this.outputSize == outputSize && this.seqLen == seqLen
    {
      this.smm := smm;
      this.g := smm.g;
      this.inputSize := inputSize;
      this.outputSize := outputSize;
      this.seqLen := seqLen;
    }

    /** Rows and columns of the tile grid. */
    function RowInW(): nat {
      if g.k == 0 then 0 else inputSize / g.k
    }

    function ColInW(): nat {
      if g.k == 0 then 0 else outputSize / g.k
    }

    /** The product this object computes for a given input. */
    ghost function JobFor(input: array<Word>): Job
      reads input
    {
      Job(g, seqLen, RowInW(), ColInW(), input[..])
    }

    /** What every product needs: an array whose top partial sums are zero, and separate buffers of the right size. */
    ghost predicate Ready(input: array<Word>, output: array<Word>)
      reads smm, smm.Repr(), input
    {
      && smm.Valid() && g == smm.g && Aligned(g) && ZeroTop(g, smm.Now())
      && {input as object, output} !! smm.Repr() && input != output
      && JobFor(input).Ok() && output.Length == JobFor(input).OutSize()
    }

    /** Only the last word of a row is streamed, the others are queued. */
    method Feed1(j: nat, val: Word) returns (mult: Word)
      requires smm.Valid() && g == smm.g && j < g.actCols
      modifies smm.Repr()
      ensures smm.Valid()
      ensures smm.Now() == Feed(g, old(smm.Now()), j, val)
      ensures mult == Retrieved(g, smm.Now(), j)
    {
      hide Stored, Tick, Retrieved, LaneValues;
      IndexRoom(g, j);
      if j == g.actCols - 1 {
        mult := smm.StreamInOut(j, val);
      } else {
        mult := smm.InputQueue(j, val);
      }
    }

    /** Every word of the tile is written at the flat index of its first weight. */
    method LoadTile(values: array<Word>, off: nat)
      requires smm.Valid() && g == smm.g && off + TileSize(g) <= values.Length
      requires values as object !in smm.Repr()
      modifies smm.Repr()
      ensures smm.Valid()
      ensures smm.Now() == Loading(g, old(smm.Now()), values[off..off + TileSize(g)])
    {
      hide LaneValues, Loaded, Elems, Mul;
      ghost var m0, tile := smm.Now(), values[off..off + TileSize(g)];
      var k := 0;
      while k < TileSize(g)
        invariant 0 <= k <= TileSize(g)
        invariant smm.Valid()
        invariant smm.Now() == m0.(weights := LoadedWords(g, m0.weights, tile, k),
                                   nonZeroTile := m0.nonZeroTile || HasNonZero(tile[..k]))
        invariant values[off..off + TileSize(g)] == tile
      {
        assert values[off + k] == tile[k] && tile[..k + 1] == tile[..k] + [tile[k]];
        var _ := smm.LoadWeights(Mul(k, g.wgt.per), values[off + k]);
        k := k + 1;
      }
      assert tile[..|tile|] == tile;
      LoadedTile(g, m0.weights, tile);
    }

    /** One call of the run, and the accumulation of its result once results are valid. */
    method Step(ghost r: Run, t: nat, j: nat, val: Word, output: array<Word>, outPtr: nat, ghost n: nat)
      returns (next: nat)
      requires smm.Valid() && r.g == g == smm.g && r.Ok() && output as object !in smm.Repr()
      requires j < g.actCols && t == Mul(n, g.actCols) + j && t < Calls(g, r.rows) && val == WordAt(r.x, t)
      requires smm.Now() == Fed(g, r.m, r.x, n, j) && Progress(r, t, outPtr, output[..])
      modifies smm.Repr(), output
      ensures smm.Valid()
      ensures smm.Now() == Fed(g, r.m, r.x, n, j + 1) && Progress(r, t + 1, next, output[..])
    {
      hide Feed, Retrieved, Mul, Progress, Shaped, AddLanes, LaneValues, KeptWord;
      var mult := Feed1(j, val);
      ghost var out := output[..];
      next := outPtr;
      if t >= FirstKept(g) {
        ProgressRoom(r, t, outPtr, out);
        CallResult(g, r.m, r.x, n, j);
        ProgressKeep(r, t, outPtr, out, mult);
        var sum := AddActIn32(g.act, output[next], mult);
        output[next] := sum;
        next := next + 1;
        assert output[..] == out[outPtr := AddLanes(g.act, out[outPtr], mult)];
      } else {
        ProgressSkip(r, t, outPtr, out);
      }
    }

    /** The rows of the block, word by word. */
    method StreamBlock(ghost r: Run, input: array<Word>, base: nat, output: array<Word>, outPtr: nat)
      returns (next: nat)
      requires smm.Valid() && r.g == g == smm.g && r.Ok() && r.rows == seqLen
      requires {input as object, output} !! smm.Repr() && input != output
      requires base + BlockSize(g, seqLen) <= input.Length && r.x == input[base..base + BlockSize(g, seqLen)]
      requires smm.Now() == r.m && Progress(r, 0, outPtr, output[..])
      modifies smm.Repr(), output
      ensures smm.Valid()
      ensures smm.Now() == Fed(g, r.m, r.x, seqLen, 0)
      ensures Progress(r, BlockSize(g, seqLen), next, output[..])
    {
      hide Feed, Progress, Shaped, LaneValues;
      ColsFacts(g);
      CallsKept(g, seqLen);
      next := outPtr;
      var inPtr := base;
      var i := 0;
      while i < seqLen
        invariant 0 <= i <= seqLen && smm.Valid()
        invariant inPtr == base + Mul(i, g.actCols)
        invariant smm.Now() == Fed(g, r.m, r.x, i, 0)
        invariant r.x == input[base..base + BlockSize(g, seqLen)]
        invariant Progress(r, Mul(i, g.actCols), next, output[..])
      {
        MulFits(seqLen, g.actCols, i);
        var j := 0;
        while j < g.actCols
          invariant 0 <= j <= g.actCols && smm.Valid()
          invariant inPtr == base + Mul(i, g.actCols) + j
          invariant smm.Now() == Fed(g, r.m, r.x, i, j)
          invariant r.x == input[base..base + BlockSize(g, seqLen)]
          invariant Progress(r, Mul(i, g.actCols) + j, next, output[..])
        {
          next := Step(r, Mul(i, g.actCols) + j, j, input[inPtr], output, next, i);
          inPtr := inPtr + 1;
          j := j + 1;
        }
        i := i + 1;
      }
    }

    /** Zero words until the last result has left the array. */
    method Flush(ghost r: Run, output: array<Word>, outPtr: nat)
      requires smm.Valid() && r.g == g == smm.g && r.Ok() && r.rows == seqLen
      requires output as object !in smm.Repr()
      requires smm.Now() == Fed(g, r.m, r.x, seqLen, 0)
      requires Progress(r, BlockSize(g, seqLen), outPtr, output[..])
      modifies smm.Repr(), output
      ensures smm.Valid()
      ensures exists n, j :: 0 <= n && 0 <= j <= g.actCols && smm.Now() == Fed(g, r.m, r.x, n, j)
      ensures output[..] == AddBlock(g.act, r.out0, r.base, KeptWords(g, r.m, r.x, seqLen))
    {
      hide Feed, Progress, Shaped, LaneValues, KeptWords, AddBlock;
      ColsFacts(g);
      CallsKept(g, seqLen);
      ghost var n, j := seqLen, 0;
      var next := outPtr;
      var i := BlockSize(g, seqLen);
      while i < Calls(g, seqLen)
        invariant BlockSize(g, seqLen) <= i <= Calls(g, seqLen) && smm.Valid()
        invariant i == Mul(n, g.actCols) + j && 0 <= n && 0 <= j < g.actCols
        invariant smm.Now() == Fed(g, r.m, r.x, n, j)
        invariant Progress(r, i, next, output[..])
      {
        ColOf(g.actCols, n, j);
        next := Step(r, i, Col(g.actCols, i), 0, output, next, n);
        if j + 1 < g.actCols {
          j := j + 1;
        } else {
          n, j := n + 1, 0;
        }
        i := i + 1;
      }
      ProgressEnd(r, next, output[..]);
    }

    /**
     * Load a tile, stream a block of activations through it, flush, and add the valid results to a block of
     * the output. `row` and `col` are tile coordinates.
     */
    method ProcessMultiplication(input: array<Word>, output: array<Word>, row: nat, col: nat, values: array<Word>, off: nat)
      requires smm.Valid() && g == smm.g
      requires {input as object, output, values} !! smm.Repr() && input != output && values != output
      requires Mul(row + 1, BlockSize(g, seqLen)) <= input.Length
      requires Mul(col + 1, BlockSize(g, seqLen)) <= output.Length
      requires off + TileSize(g) <= values.Length
      modifies smm.Repr(), output
      ensures smm.Valid()
      ensures ZeroTop(g, old(smm.Now())) ==> ZeroTop(g, smm.Now())
      ensures output[..] == DriverOutput(g, old(smm.Now()), seqLen, old(output[..]), input[..], row, col,
                                         values[off..off + TileSize(g)])
    {
      hide Fed, Mul, Progress, Shaped, LaneValues, KeptWords, AddBlock, Elems;
      ghost var m0, out0 := smm.Now(), output[..];
      LoadTile(values, off);
      var b := BlockSize(g, seqLen);
      MulNext(row, b);
      MulNext(col, b);
      var base, outPtr := Mul(row, b), Mul(col, b);
      ghost var r := Run(g, smm.Now(), input[base..base + b], seqLen, out0, outPtr);
      ProgressStart(r);
      outPtr := StreamBlock(r, input, base, output, outPtr);
      Flush(r, output, outPtr);
      if ZeroTop(g, m0) {
        ghost var n, j :| 0 <= n && 0 <= j <= g.actCols && smm.Now() == Fed(g, r.m, r.x, n, j);
        FedTop(g, r.m, r.x, n, j);
      }
      assert input[..][base..base + b] == input[base..base + b];
    }

    /** The output is what the first `n` visits of a walk make of `out0`. */
    ghost predicate Reached(job: Job, vs: seq<Visit>, out0: seq<Word>, n: nat, input: array<Word>, output: array<Word>)
      reads smm, smm.Repr(), input, output
    {
      && Ready(input, output) && JobFor(input) == job && |out0| == output.Length
      && AllFit(job, vs) && n <= |vs| && output[..] == Walked(job, out0, vs, n)
    }

    lemma Begin(job: Job, vs: seq<Visit>, input: array<Word>, output: array<Word>)
      requires Ready(input, output) && job == JobFor(input) && AllFit(job, vs)
      ensures Reached(job, vs, output[..], 0, input, output)
    {
      hide Walk, Walked, Mul, Aligned, ZeroTop, Shaped, LaneValues, Fits;
      WalkedEnds(job, output[..], vs);
    }

    lemma Finish(job: Job, vs: seq<Visit>, out0: seq<Word>, input: array<Word>, output: array<Word>)
      requires Reached(job, vs, out0, |vs|, input, output)
      ensures Ready(input, output) && job.Ok() && |out0| == job.OutSize() && AllFit(job, vs)
      ensures JobFor(input) == job && output[..] == Walk(job, out0, vs)
    {
      hide Walk, Walked, Mul, Aligned, ZeroTop, Shaped, LaneValues, Fits;
      WalkedEnds(job, out0, vs);
    }

    /** Zero tiles can be skipped. */
    lemma Skip(job: Job, vs: seq<Visit>, out0: seq<Word>, m: nat, n: nat, input: array<Word>, output: array<Word>)
      requires Reached(job, vs, out0, m, input, output) && m <= n <= |vs|
      requires forall t :: m <= t < n ==> ZeroTile(vs[t].tile)
      ensures Reached(job, vs, out0, n, input, output) && Picked(vs, n) == Picked(vs, m)
    {
      hide Walked, Mul, Aligned, ZeroTop, Shaped, LaneValues, Fits, Picked, ZeroTile;
      SkipRange(job, out0, vs, m, n);
    }

    /** One visit of a walk. */
    method VisitTile(ghost job: Job, ghost vs: seq<Visit>, ghost out0: seq<Word>, ghost n: nat, input: array<Word>,
                     output: array<Word>, row: nat, col: nat, values: array<Word>, off: nat)
      requires Reached(job, vs, out0, n, input, output) && n < |vs|
      requires values as object !in smm.Repr() && values != output && off + TileSize(g) <= values.Length
      requires vs[n] == Visit(row, col, values[off..off + TileSize(g)])
      modifies smm.Repr(), output
      ensures Reached(job, vs, out0, n + 1, input, output)
    {
      hide Walked, DriverOutput, AddTile, Mul, Aligned, ZeroTop, Shaped, LaneValues;
      assert Fits(job, vs[n]);
      DriverVisits(job, smm.Now(), output[..], vs[n]);
      WalkedNext(job, out0, vs, n);
      ProcessMultiplication(input, output, row, col, values, off);
    }

    /** All tiles in storage order. */
    method ComputeNonPruned(input: array<Word>, output: array<Word>, values: array<Word>)
      requires Ready(input, output) && values as object !in smm.Repr() && values != output
      requires IsKernel(JobFor(input), values[..])
      modifies smm.Repr(), output
      ensures Ready(input, output)
      ensures output[..] == Walk(JobFor(input), old(output[..]), DenseVisits(JobFor(input), values[..]))
    {
      hide Reached, Walk, Mul, Aligned, ZeroTop, Shaped, LaneValues, DenseVisit, Fits;
      ghost var job, kernel, out0 := JobFor(input), values[..], output[..];
      ghost var vs := DenseVisits(job, kernel);
      Begin(job, vs, input, output);
      MulNone(RowInW());
      MulNone(TileSize(g));
      var off, i := 0, 0;
      while i < ColInW()
        invariant 0 <= i <= ColInW() && values[..] == kernel
        invariant Mul(i, RowInW()) <= |vs| && off == Mul(Mul(i, RowInW()), TileSize(g))
        invariant Reached(job, vs, out0, Mul(i, RowInW()), input, output)
      {
        MulFits(ColInW(), RowInW(), i);
        MulNext(i, RowInW());
        var j := 0;
        while j < RowInW()
          invariant 0 <= j <= RowInW() && values[..] == kernel && off == Mul(Mul(i, RowInW()) + j, TileSize(g))
          invariant Reached(job, vs, out0, Mul(i, RowInW()) + j, input, output)
        {
          DenseVisitAt(job, kernel, i, j);
          VisitTile(job, vs, out0, Mul(i, RowInW()) + j, input, output, j, i, values, off);
          MulNext(Mul(i, RowInW()) + j, TileSize(g));
          off := off + TileSize(g);
          j := j + 1;
        }
        i := i + 1;
      }
      Finish(job, vs, out0, input, output);
    }

    /** The run-time zero test of the dynamic format: word by word, leaving at the first that is not zero. */
    method RunTimeZero(values: array<Word>, off: nat) returns (zeroTile: bool)
      requires off + TileSize(g) <= values.Length
      ensures zeroTile <==> ZeroTile(values[off..off + TileSize(g)])
    {
      zeroTile := true;
      ghost var tile := values[off..off + TileSize(g)];
      var k := 0;
      while k < TileSize(g)
        invariant 0 <= k <= TileSize(g) && zeroTile
        invariant forall p :: 0 <= p < k ==> tile[p] == 0
      {
        assert values[off + k] == tile[k];
        if values[off + k] != 0 {
          zeroTile := false;
          break;
        }
        k := k + 1;
      }
    }

    /** All tiles in storage order, skipping those that turn out to be zero. */
    method ComputeDynamic(input: array<Word>, output: array<Word>, values: array<Word>)
      requires Ready(input, output) && values as object !in smm.Repr() && values != output
      requires IsKernel(JobFor(input), values[..])
      modifies smm.Repr(), output
      ensures Ready(input, output)
      ensures output[..] == Walk(JobFor(input), old(output[..]), DenseVisits(JobFor(input), values[..]))
    {
      hide Reached, Walk, Mul, Aligned, ZeroTop, Shaped, LaneValues, DenseVisit, Fits, ZeroTile, Picked;
      ghost var job, kernel, out0 := JobFor(input), values[..], output[..];
      ghost var vs := DenseVisits(job, kernel);
      Begin(job, vs, input, output);
      MulNone(RowInW());
      MulNone(TileSize(g));
      var off, i := 0, 0;
      while i < ColInW()
        invariant 0 <= i <= ColInW() && values[..] == kernel
        invariant Mul(i, RowInW()) <= |vs| && off == Mul(Mul(i, RowInW()), TileSize(g))
        invariant Reached(job, vs, out0, Mul(i, RowInW()), input, output)
      {
        MulFits(ColInW(), RowInW(), i);
        MulNext(i, RowInW());
        var j := 0;
        while j < RowInW()
          invariant 0 <= j <= RowInW() && values[..] == kernel && off == Mul(Mul(i, RowInW()) + j, TileSize(g))
          invariant Reached(job, vs, out0, Mul(i, RowInW()) + j, input, output)
        {
          DenseVisitAt(job, kernel, i, j);
          ghost var n := Mul(i, RowInW()) + j;
          var zeroTile := RunTimeZero(values, off);
          if zeroTile {
            Skip(job, vs, out0, n, n + 1, input, output);
          } else {
            VisitTile(job, vs, out0, n, input, output, j, i, values, off);
          }
          MulNext(n, TileSize(g));
          off := off + TileSize(g);
          j := j + 1;
        }
        i := i + 1;
      }
      Finish(job, vs, out0, input, output);
    }

    /** Compressed columns: `colPtr[i]..colPtr[i + 1]` lists the tiles of column `i`. */
    method ComputeCSC(input: array<Word>, output: array<Word>, colPtr: array<nat>, rowInd: array<nat>,
                      values: array<nat>, kernel: array<Word>)
      requires Ready(input, output) && kernel as object !in smm.Repr() && kernel != output
      requires IsKernel(JobFor(input), kernel[..])
      requires {colPtr as object, rowInd, values} !! smm.Repr() + {output}
      requires Compressed(g, kernel[..], TileVisits(g, RowInW(), ColInW(), kernel[..]), false, ColInW(), RowInW(),
                          colPtr[..], rowInd[..], values[..])
      modifies smm.Repr(), output
      ensures Ready(input, output)
      ensures output[..] == Walk(JobFor(input), old(output[..]), DenseVisits(JobFor(input), kernel[..]))
    {
      hide Reached, Walk, Mul, Aligned, ZeroTop, Shaped, LaneValues, TileVisit, Fits, ZeroTile, Listed, Pointed, Picked;
      ghost var job, out0, k0 := JobFor(input), output[..], kernel[..];
      ghost var vs := TileVisits(g, RowInW(), ColInW(), k0);
      ghost var nz := NonZero(vs);
      ghost var ptr, ind, vals := colPtr[..], rowInd[..], values[..];
      assert vs == DenseVisits(job, k0);
      SkipZeros(job, out0, vs);
      Begin(job, nz, input, output);
      PointersEnds(g, k0, vs, false, ColInW(), RowInW(), ptr, ind, vals);
      var i := 0;
      while i < ColInW()
        invariant 0 <= i <= ColInW()
        invariant kernel[..] == k0 && colPtr[..] == ptr && rowInd[..] == ind && values[..] == vals
        invariant ptr[i] <= |nz| && Reached(job, nz, out0, ptr[i], input, output)
      {
        PointersMonotone(g, k0, vs, false, ColInW(), RowInW(), ptr, ind, vals, i);
        var j := colPtr[i];
        while j < colPtr[i + 1]
          invariant ptr[i] <= j <= ptr[i + 1]
          invariant kernel[..] == k0 && colPtr[..] == ptr && rowInd[..] == ind && values[..] == vals
          invariant Reached(job, nz, out0, j, input, output)
        {
          CscEntry(g, RowInW(), ColInW(), k0, ptr, ind, vals, i, j);
          VisitTile(job, nz, out0, j, input, output, rowInd[j], i, kernel, values[j]);
          j := j + 1;
        }
        i := i + 1;
      }
      Finish(job, nz, out0, input, output);
    }

    /** Compressed rows: `rowPtr[i]..rowPtr[i + 1]` lists the tiles of row `i`. */
    method ComputeCSR(input: array<Word>, output: array<Word>, colInd: array<nat>, rowPtr: array<nat>,
                      values: array<nat>, kernel: array<Word>)
      requires Ready(input, output) && kernel as object !in smm.Repr() && kernel != output
      requires IsKernel(JobFor(input), kernel[..])
      requires {rowPtr as object, colInd, values} !! smm.Repr() + {output}
      requires Compressed(g, kernel[..], RowVisits(g, RowInW(), ColInW(), kernel[..]), true, RowInW(), ColInW(),
                          rowPtr[..], colInd[..], values[..])
      modifies smm.Repr(), output
      ensures Ready(input, output)
      ensures output[..] == Walk(JobFor(input), old(output[..]), DenseVisits(JobFor(input), kernel[..]))
    {
      hide Reached, Walk, Mul, Aligned, ZeroTop, Shaped, LaneValues, TileVisit, RowVisit, Fits, ZeroTile, Listed, Pointed, Picked;
      ghost var job, out0, k0 := JobFor(input), output[..], kernel[..];
      ghost var vs := RowVisits(g, RowInW(), ColInW(), k0);
      ghost var nz := NonZero(vs);
      ghost var ptr, ind, vals := rowPtr[..], colInd[..], values[..];
      RowOrder(job, out0, k0);
      SkipZeros(job, out0, vs);
      Begin(job, nz, input, output);
      PointersEnds(g, k0, vs, true, RowInW(), ColInW(), ptr, ind, vals);
      var i := 0;
      while i < RowInW()
        invariant 0 <= i <= RowInW()
        invariant kernel[..] == k0 && rowPtr[..] == ptr && colInd[..] == ind && values[..] == vals
        invariant ptr[i] <= |nz| && Reached(job, nz, out0, ptr[i], input, output)
      {
        PointersMonotone(g, k0, vs, true, RowInW(), ColInW(), ptr, ind, vals, i);
        var j := rowPtr[i];
        while j < rowPtr[i + 1]
          invariant ptr[i] <= j <= ptr[i + 1]
          invariant kernel[..] == k0 && rowPtr[..] == ptr && colInd[..] == ind && values[..] == vals
          invariant Reached(job, nz, out0, j, input, output)
        {
          CsrEntry(g, RowInW(), ColInW(), k0, ptr, ind, vals, i, j);
          VisitTile(job, nz, out0, j, input, output, i, colInd[j], kernel, values[j]);
          j := j + 1;
        }
        i := i + 1;
      }
      Finish(job, nz, out0, input, output);
    }

    /** One visit of a walk over compacted tiles. */
    method VisitPicked(ghost job: Job, ghost vs: seq<Visit>, ghost out0: seq<Word>, ghost n: nat, input: array<Word>,
                       output: array<Word>, row: nat, col: nat, values: array<Word>, off: nat) returns (next: nat)
      requires Reached(job, vs, out0, n, input, output) && n < |vs|
      requires values as object !in smm.Repr() && values != output
      requires Compact(g, values[..], NonZero(vs)) && off == Mul(|Picked(vs, n)|, TileSize(g))
      requires !ZeroTile(vs[n].tile) && vs[n].row == row && vs[n].col == col
      modifies smm.Repr(), output
      ensures Reached(job, vs, out0, n + 1, input, output) && next == Mul(|Picked(vs, n + 1)|, TileSize(g))
    {
      hide Reached, Mul, Aligned, ZeroTop, Shaped, LaneValues, Picked, ZeroTile, Compact, Fits;
      CompactAt(g, values[..], vs, n);
      assert values[..][off..off + TileSize(g)] == values[off..off + TileSize(g)];
      VisitTile(job, vs, out0, n, input, output, row, col, values, off);
      next := off + TileSize(g);
    }

    /** Two levels of marks: one per column of tiles, and one per tile of each marked column. */
    method ComputeMetaData(input: array<Word>, output: array<Word>, m1: array<Word>, m2: array<Word>,
                           values: array<Word>, ghost kernel: seq<Word>)
      requires Ready(input, output) && {m1 as object, m2, values} !! smm.Repr() + {output}
      requires IsKernel(JobFor(input), kernel)
      requires IsMetaData(g, RowInW(), ColInW(), kernel, m1[..], m2[..], values[..])
      modifies smm.Repr(), output
      ensures Ready(input, output)
      ensures output[..] == Walk(JobFor(input), old(output[..]), DenseVisits(JobFor(input), kernel))
    {
      hide Reached, Walk, Mul, Aligned, ZeroTop, Shaped, LaneValues, TileVisit, Fits, ZeroTile, Picked, Compact, Marked, Rank;
      ghost var job, out0, vs := JobFor(input), output[..], TileVisits(g, RowInW(), ColInW(), kernel);
      ghost var s1, s2, vals := m1[..], m2[..], values[..];
      assert vs == DenseVisits(job, kernel);
      Begin(job, vs, input, output);
      PickedAll(vs);
      MarkedNone(vs, RowInW(), s1, s2);
      MulNone(TileSize(g));
      var off, p1, p2, i := 0, 0, 0, 0;
      while i < ColInW()
        invariant 0 <= i <= ColInW() && p1 == i && m1[..] == s1 && m2[..] == s2 && values[..] == vals
        invariant Mul(i, RowInW()) <= |vs| && off == Mul(|Picked(vs, Mul(i, RowInW()))|, TileSize(g))
        invariant p2 == Mul(Rank(vs, RowInW(), i), RowInW())
        invariant Reached(job, vs, out0, Mul(i, RowInW()), input, output)
      {
        MulFits(ColInW(), RowInW(), i);
        MulNext(i, RowInW());
        RankStep(vs, RowInW(), ColInW(), s1, s2, i);
        MulNext(Rank(vs, RowInW(), i), RowInW());
        p1 := p1 + 1;
        if m1[p1 - 1] == 0 {
          ZeroColumn(vs, RowInW(), ColInW(), s1, s2, i);
          Skip(job, vs, out0, Mul(i, RowInW()), Mul(i, RowInW()) + RowInW(), input, output);
        } else {
          off, p2 := DecodeMarked(job, vs, out0, input, output, m1, m2, values, kernel, off, p2, i);
        }
        i := i + 1;
      }
      Finish(job, vs, out0, input, output);
    }

    /** A marked column. */
    method DecodeMarked(ghost job: Job, ghost vs: seq<Visit>, ghost out0: seq<Word>, input: array<Word>,
                        output: array<Word>, ghost m1: array<Word>, m2: array<Word>, values: array<Word>,
                        ghost kernel: seq<Word>, off0: nat, p0: nat, col: nat)
      returns (off: nat, p2: nat)
      requires {m1 as object, m2, values} !! smm.Repr() + {output}
      requires IsTileGrid(g, RowInW(), ColInW(), kernel) && vs == TileVisits(g, RowInW(), ColInW(), kernel)
      requires IsMetaData(g, RowInW(), ColInW(), kernel, m1[..], m2[..], values[..])
      requires col < ColInW() && Mul(col, RowInW()) + RowInW() <= |vs| && col < m1.Length && m1[col] != 0
      requires off0 == Mul(|Picked(vs, Mul(col, RowInW()))|, TileSize(g)) && p0 == Mul(Rank(vs, RowInW(), col), RowInW())
      requires Reached(job, vs, out0, Mul(col, RowInW()), input, output)
      modifies smm.Repr(), output
      ensures off == Mul(|Picked(vs, Mul(col, RowInW()) + RowInW())|, TileSize(g)) && p2 == p0 + RowInW()
      ensures Reached(job, vs, out0, Mul(col, RowInW()) + RowInW(), input, output)
    {
      hide Reached, Mul, Aligned, ZeroTop, Shaped, LaneValues, TileVisit, Fits, ZeroTile, Picked, Compact, Marked, Rank;
      ghost var s1, s2, vals := m1[..], m2[..], values[..];
      off, p2 := off0, p0;
      var j := 0;
      while j < RowInW()
        invariant 0 <= j <= RowInW() && m1[..] == s1 && m2[..] == s2 && values[..] == vals
        invariant off == Mul(|Picked(vs, Mul(col, RowInW()) + j)|, TileSize(g)) && p2 == p0 + j
        invariant Reached(job, vs, out0, Mul(col, RowInW()) + j, input, output)
      {
        ghost var n := Mul(col, RowInW()) + j;
        MarkMeans(vs, RowInW(), ColInW(), s1, s2, col, j);
        p2 := p2 + 1;
        if m2[p2 - 1] == 0 {
          Skip(job, vs, out0, n, n + 1, input, output);
        } else {
          TileVisitAt(g, RowInW(), ColInW(), kernel, col, j);
          off := VisitPicked(job, vs, out0, n, input, output, j, col, values, off);
        }
        j := j + 1;
      }
    }

    /** One bit per tile, most significant first; a set bit stands for a tile that was dropped. */
    method ComputeWithFlag(input: array<Word>, output: array<Word>, flag: array<Word>, values: array<Word>,
                           ghost kernel: seq<Word>)
      requires Ready(input, output) && {flag as object, values} !! smm.Repr() + {output}
      requires IsKernel(JobFor(input), kernel)
      requires IsFlagged(g, TileVisits(g, RowInW(), ColInW(), kernel), flag[..], values[..])
      modifies smm.Repr(), output
      ensures Ready(input, output)
      ensures output[..] == Walk(JobFor(input), old(output[..]), DenseVisits(JobFor(input), kernel))
    {
      hide Reached, Walk, Mul, Aligned, ZeroTop, Shaped, LaneValues, TileVisit, Fits, Picked, IsFlagged;
      ghost var job, out0, vs := JobFor(input), output[..], TileVisits(g, RowInW(), ColInW(), kernel);
      ghost var flags, vals := flag[..], values[..];
      assert vs == DenseVisits(job, kernel);
      Begin(job, vs, input, output);
      PickedAll(vs);
      MulNone(RowInW());
      MulNone(TileSize(g));
      var off: nat, p: nat, counter: nat, i := 0, 0, 0, 0;
      while i < ColInW()
        invariant 0 <= i <= ColInW() && flag[..] == flags && values[..] == vals
        invariant Mul(i, RowInW()) <= |vs| && off == Mul(|Picked(vs, Mul(i, RowInW()))|, TileSize(g))
        invariant counter <= 32 && 32 * p + counter == Mul(i, RowInW())
        invariant Reached(job, vs, out0, Mul(i, RowInW()), input, output)
      {
        MulFits(ColInW(), RowInW(), i);
        MulNext(i, RowInW());
        var j := 0;
        while j < RowInW()
          invariant 0 <= j <= RowInW() && flag[..] == flags && values[..] == vals
          invariant off == Mul(|Picked(vs, Mul(i, RowInW()) + j)|, TileSize(g))
          invariant counter <= 32 && 32 * p + counter == Mul(i, RowInW()) + j
          invariant Reached(job, vs, out0, Mul(i, RowInW()) + j, input, output)
        {
          TileVisitAt(g, RowInW(), ColInW(), kernel, i, j);
          off, p, counter := DecodeFlagged(job, vs, out0, Mul(i, RowInW()) + j, input, output, flag, values, off, p, counter, j, i);
          j := j + 1;
        }
        i := i + 1;
      }
      Finish(job, vs, out0, input, output);
    }

    /** One tile of the flag format. */
    method DecodeFlagged(ghost job: Job, ghost vs: seq<Visit>, ghost out0: seq<Word>, ghost n: nat, input: array<Word>,
                         output: array<Word>, flag: array<Word>, values: array<Word>, off0: nat, p0: nat, counter0: nat,
                         row: nat, col: nat)
      returns (off: nat, p: nat, counter: nat)
      requires {flag as object, values} !! smm.Repr() + {output}
      requires n < |vs| && IsFlagged(g, vs, flag[..], values[..]) && Reached(job, vs, out0, n, input, output)
      requires off0 == Mul(|Picked(vs, n)|, TileSize(g)) && counter0 <= 32 && 32 * p0 + counter0 == n
      requires vs[n].row == row && vs[n].col == col
      modifies smm.Repr(), output
      ensures off == Mul(|Picked(vs, n + 1)|, TileSize(g)) && counter <= 32 && 32 * p + counter == n + 1
      ensures Reached(job, vs, out0, n + 1, input, output)
    {
      hide Reached, Mul, Aligned, ZeroTop, Shaped, LaneValues, Fits, ZeroTile, Picked, Compact, Bit;
      off, p, counter := off0, p0, counter0;
      if counter == 32 {
        counter, p := 0, p + 1;
      }
      assert n / 32 == p && n % 32 == counter;
      assert FlagBit(flag[..], n) <==> ZeroTile(vs[n].tile);
      counter := counter + 1;
      if Bit(flag[p], 32 - counter) {
        Skip(job, vs, out0, n, n + 1, input, output);
      } else {
        off := VisitPicked(job, vs, out0, n, input, output, row, col, values, off);
      }
    }

    /** A key word stands for a dropped tile; any other word starts a tile. */
    method ComputeHiddenKey(input: array<Word>, output: array<Word>, hiddenKey: Word, values: array<Word>)
      requires Ready(input, output) && values as object !in smm.Repr() && values != output
      requires Decoded(g, RowInW(), ColInW(), hiddenKey, values[..], 0, 0).Some?
      modifies smm.Repr(), output
      ensures Ready(input, output)
      ensures var vs := Decoded(g, RowInW(), ColInW(), hiddenKey, values[..], 0, 0).value;
              AllFit(JobFor(input), vs) && output[..] == Walk(JobFor(input), old(output[..]), vs)
    {
      hide Reached, Walk, Mul, Aligned, ZeroTop, Shaped, LaneValues, Fits, Decoded;
      ghost var job, out0, vals := JobFor(input), output[..], values[..];
      ghost var vs := Decoded(g, RowInW(), ColInW(), hiddenKey, vals, 0, 0).value;
      DecodedFit(job, hiddenKey, vals, 0, 0);
      Begin(job, vs, input, output);
      MulNone(RowInW());
      ghost var q := 0;
      var off: nat, i := 0, 0;
      while i < ColInW()
        invariant 0 <= i <= ColInW() && values[..] == vals && 0 <= q <= |vs|
        invariant Decoded(g, RowInW(), ColInW(), hiddenKey, vals, Mul(i, RowInW()), off) == Some(vs[q..])
        invariant Reached(job, vs, out0, q, input, output)
      {
        MulNext(i, RowInW());
        var j := 0;
        while j < RowInW()
          invariant 0 <= j <= RowInW() && values[..] == vals && 0 <= q <= |vs|
          invariant Decoded(g, RowInW(), ColInW(), hiddenKey, vals, Mul(i, RowInW()) + j, off) == Some(vs[q..])
          invariant Reached(job, vs, out0, q, input, output)
        {
          DecodedNext(g, RowInW(), ColInW(), hiddenKey, vals, i, j, off, vs, q);
          if hiddenKey == values[off] {
            off := off + 1;
          } else {
            VisitTile(job, vs, out0, q, input, output, j, i, values, off);
            off := off + TileSize(g);
            q := q + 1;
          }
          j := j + 1;
        }
        i := i + 1;
      }
      DecodedDone(g, RowInW(), ColInW(), hiddenKey, vals, off);
      Finish(job, vs, out0, input, output);
    }

    /** For each column of tiles a block: its length, one bit per tile, and the tiles whose bit is set. */
    method ComputeInterleavedMetaData(input: array<Word>, output: array<Word>, values: array<Word>)
      requires Ready(input, output) && values as object !in smm.Repr() && values != output
      requires Decode(g, RowInW(), ColInW(), values[..], 0, 0).Some?
      requires AllFit(JobFor(input), Decode(g, RowInW(), ColInW(), values[..], 0, 0).value)
      modifies smm.Repr(), output
      ensures Ready(input, output)
      ensures output[..] == Walk(JobFor(input), old(output[..]), Decode(g, RowInW(), ColInW(), values[..], 0, 0).value)
    {
      hide Reached, Walk, Mul, Aligned, ZeroTop, Shaped, LaneValues, Fits, DecodeBlock, MetaWords, FirstBit, Decode;
      ghost var job, out0, vals := JobFor(input), output[..], values[..];
      ghost var vs := Decode(g, RowInW(), ColInW(), vals, 0, 0).value;
      Begin(job, vs, input, output);
      ghost var q := 0;
      var off: nat, i := 0, 0;
      while i < ColInW()
        invariant 0 <= i <= ColInW() && values[..] == vals && 0 <= q <= |vs|
        invariant Decode(g, RowInW(), ColInW(), vals, i, off) == Some(vs[q..])
        invariant Reached(job, vs, out0, q, input, output)
      {
        DecodeNext(g, RowInW(), ColInW(), vals, i, off, vs, q);
        var nextBlock := off + values[off];
        off, q := DecodeColumn(job, vs, out0, q, input, output, values, off + 1, FirstBit(RowInW()),
                               off + 1 + MetaWords(RowInW()), nextBlock, i);
        i := i + 1;
      }
      DecodeDone(g, RowInW(), ColInW(), vals, i, off);
      Finish(job, vs, out0, input, output);
    }

    /** The decoding loop of one block. */
    method DecodeColumn(ghost job: Job, ghost vs: seq<Visit>, ghost out0: seq<Word>, ghost q0: nat, input: array<Word>,
                        output: array<Word>, values: array<Word>, meta0: nat, bit0: nat, off0: nat, nextBlock: nat, col: nat)
      returns (off: nat, ghost q: nat)
      requires Reached(job, vs, out0, q0, input, output) && values as object !in smm.Repr() && values != output
      requires q0 <= |vs| && bit0 <= 32
      requires var r := DecodeBlock(g, values[..], meta0, bit0, off0, nextBlock, 0, col); r.Some? && r.value.0 <= vs[q0..]
      modifies smm.Repr(), output
      ensures var r := DecodeBlock(g, values[..], meta0, bit0, off0, nextBlock, 0, col);
              q == q0 + |r.value.0| <= |vs| && off == r.value.1
      ensures Reached(job, vs, out0, q, input, output)
    {
      hide Reached, Mul, Aligned, ZeroTop, Shaped, LaneValues, Fits, Bit, DecodeBlock;
      ghost var vals := values[..];
      ghost var e := DecodeBlock(g, vals, meta0, bit0, off0, nextBlock, 0, col).value;
      off, q := off0, q0;
      var metadata, counter32, row := meta0, bit0, 0;
      while off < nextBlock
        invariant values[..] == vals && 0 <= metadata && 0 <= counter32 <= 32 && 0 <= row
        invariant q0 <= q <= q0 + |e.0| <= |vs|
        invariant DecodeBlock(g, vals, metadata, counter32, off, nextBlock, row, col) == Some((e.0[q - q0..], e.1))
        invariant Reached(job, vs, out0, q, input, output)
        decreases 32 * |vals| + 32 - (32 * metadata + counter32)
      {
        DecodeBit(g, vals, metadata, counter32, off, nextBlock, row, col, e.0, q - q0, e.1);
        if counter32 == 32 {
          counter32, metadata := 0, metadata + 1;
        }
        counter32 := counter32 + 1;
        if Bit(values[metadata], counter32 - 1) {
          assert vs[q0..][q - q0] == vs[q];
          VisitTile(job, vs, out0, q, input, output, row, col, values, off);
          off := off + TileSize(g);
          q := q + 1;
        }
        row := row + 1;
      }
      DecodeBlockDone(g, vals, metadata, counter32, off, nextBlock, row, col);
    }
  }

  lemma DecodeBlockDone(g: Geometry, words: seq<Word>, meta: nat, bit: nat, vals: nat, next: nat, row: nat, col: nat)
    requires bit <= 32 && vals >= next
    ensures DecodeBlock(g, words, meta, bit, vals, next, row, col) == Some(([], vals))
  {
  }

  /** One round of the decoding loop: `vs[q..]` remains to be visited, and the block ends at `e`. */
  lemma DecodeBit(g: Geometry, words: seq<Word>, meta: nat, bit: nat, vals: nat, next: nat, row: nat, col: nat,
                  vs: seq<Visit>, q: nat, e: nat)
    requires bit <= 32 && vals < next && q <= |vs|
    requires DecodeBlock(g, words, meta, bit, vals, next, row, col) == Some((vs[q..], e))
    ensures var m, b := if bit == 32 then meta + 1 else meta, if bit == 32 then 0 else bit;
            && m < |words|
            && if !Bit(words[m], b) then DecodeBlock(g, words, m, b + 1, vals, next, row + 1, col) == Some((vs[q..], e))
               else
                 && vals + TileSize(g) <= |words| && q < |vs| && vs[q] == Visit(row, col, words[vals..vals + TileSize(g)])
                 && DecodeBlock(g, words, m, b + 1, vals + TileSize(g), next, row + 1, col) == Some((vs[q + 1..], e))
  {
    hide Bit;
    var m, b := if bit == 32 then meta + 1 else meta, if bit == 32 then 0 else bit;
    if Bit(words[m], b) {
      var rest := DecodeBlock(g, words, m, b + 1, vals + TileSize(g), next, row + 1, col);
      var v := Visit(row, col, words[vals..vals + TileSize(g)]);
      assert vs[q..] == [v] + rest.value.0;
      assert |vs[q..]| >= 1 && vs[q..][0] == v;
      assert vs[q + 1..] == vs[q..][1..] == rest.value.0;
    }
  }

  lemma DecodeDone(g: Geometry, tileRows: nat, tileCols: nat, words: seq<Word>, j: nat, pos: nat)
    requires j >= tileCols
    ensures Decode(g, tileRows, tileCols, words, j, pos) == Some([])
  {
  }

  lemma DecodeNext(g: Geometry, tileRows: nat, tileCols: nat, words: seq<Word>, j: nat, pos: nat, vs: seq<Visit>, q: nat)
    requires j < tileCols && q <= |vs| && Decode(g, tileRows, tileCols, words, j, pos) == Some(vs[q..])
    ensures pos < |words| && FirstBit(tileRows) <= 32
    ensures var r := DecodeBlock(g, words, pos + 1, FirstBit(tileRows), pos + 1 + MetaWords(tileRows), pos + words[pos], 0, j);
            && r.Some? && r.value.0 <= vs[q..]
            && Decode(g, tileRows, tileCols, words, j + 1, r.value.1) == Some(vs[q + |r.value.0|..])
  {
    hide DecodeBlock, MetaWords;
    var r := DecodeBlock(g, words, pos + 1, FirstBit(tileRows), pos + 1 + MetaWords(tileRows), pos + words[pos], 0, j);
    assert vs[q..][|r.value.0|..] == vs[q + |r.value.0|..];
  }

  lemma DecodedDone(g: Geometry, tileRows: nat, tileCols: nat, key: Word, words: seq<Word>, pos: nat)
    ensures Decoded(g, tileRows, tileCols, key, words, Mul(tileCols, tileRows), pos) == Some([])
  {
  }

  lemma DecodedNext(g: Geometry, tileRows: nat, tileCols: nat, key: Word, words: seq<Word>, col: nat, row: nat, pos: nat,
                    vs: seq<Visit>, q: nat)
    requires row < tileRows && col < tileCols && q <= |vs|
    requires Decoded(g, tileRows, tileCols, key, words, Mul(col, tileRows) + row, pos) == Some(vs[q..])
    ensures pos < |words|
    ensures var n := Mul(col, tileRows) + row;
            if words[pos] == key then Decoded(g, tileRows, tileCols, key, words, n + 1, pos + 1) == Some(vs[q..])
            else
              && pos + TileSize(g) <= |words| && q < |vs| && vs[q] == Visit(row, col, words[pos..pos + TileSize(g)])
              && Decoded(g, tileRows, tileCols, key, words, n + 1, pos + TileSize(g)) == Some(vs[q + 1..])
  {
    hide Mul;
    MulFits(tileCols, tileRows, col);
    MulDiv(tileRows, col, row);
    var n := Mul(col, tileRows) + row;
    if words[pos] != key {
      var rest := Decoded(g, tileRows, tileCols, key, words, n + 1, pos + TileSize(g)).value;
      assert vs[q..] == [Visit(row, col, words[pos..pos + TileSize(g)])] + rest;
      assert vs[q..][0] == vs[q] && vs[q + 1..] == vs[q..][1..] == rest;
    }
  }

  lemma {:induction false} DecodedFit(job: Job, key: Word, words: seq<Word>, n: nat, pos: nat)
    requires job.Ok() && Decoded(job.g, job.tileRows, job.tileCols, key, words, n, pos).Some?
    ensures AllFit(job, Decoded(job.g, job.tileRows, job.tileCols, key, words, n, pos).value)
    decreases Mul(job.tileCols, job.tileRows) - n
  {
    hide Mul;
    if n < Mul(job.tileCols, job.tileRows) {
      DivMul(job.tileCols, job.tileRows, n);
      if words[pos] == key {
        DecodedFit(job, key, words, n + 1, pos + 1);
      } else {
        DecodedFit(job, key, words, n + 1, pos + TileSize(job.g));
      }
    }
  }

  /** Without collisions the hidden-key format gives the dense result. */
  lemma HiddenKeyIsDense(job: Job, out: seq<Word>, kernel: seq<Word>, key: Word, words: seq<Word>)
    requires job.Ok() && IsKernel(job, kernel) && |out| == job.OutSize()
    requires var vs := DenseVisits(job, kernel);
             Encoded(vs, key, |vs|) <= words && forall i :: 0 <= i < |vs| ==> !Collides(vs, key, i)
    ensures var r := Decoded(job.g, job.tileRows, job.tileCols, key, words, 0, 0);
            r.Some? && AllFit(job, r.value) && Walk(job, out, r.value) == Walk(job, out, DenseVisits(job, kernel))
  {
    hide Walk, Encoded, Collides, Decoded, Mul, TileVisit;
    HiddenKeyExact(job.g, job.tileRows, job.tileCols, kernel, key, words);
    SkipZeros(job, out, DenseVisits(job, kernel));
  }

  /** With at least 32 rows of tiles, or nothing to multiply, the interleaved format gives the dense result. */
  lemma InterleavedIsDense(job: Job, out: seq<Word>, kernel: seq<Word>, words: seq<Word>)
    requires job.Ok() && IsKernel(job, kernel) && |out| == job.OutSize() && (BitmapAligned(job.tileRows) || ZeroTile(kernel))
    requires IsInterleaved(job.g, job.tileRows, job.tileCols, kernel, words)
    ensures var r := Decode(job.g, job.tileRows, job.tileCols, words, 0, 0);
            r.Some? && AllFit(job, r.value) && Walk(job, out, r.value) == Walk(job, out, DenseVisits(job, kernel))
  {
    hide Walk, Decode, Mul, TileVisit, IsInterleaved, ZeroTile;
    TileSizePositive(job.g);
    InterleavedExact(job.g, job.tileRows, job.tileCols, kernel, words);
    SkipZeros(job, out, DenseVisits(job, kernel));
  }

  /** The flag bit of tile `n`. */
  ghost predicate FlagBit(flag: seq<Word>, n: nat) {
    n / 32 < |flag| && Bit(flag[n / 32], 31 - n % 32)
  }

  /** A flag bit for exactly the zero tiles, and the words of the other tiles. */
  ghost predicate IsFlagged(g: Geometry, vs: seq<Visit>, flag: seq<Word>, words: seq<Word>) {
    Compact(g, words, NonZero(vs)) && MarksZeros(vs, flag)
  }

  ghost predicate MarksZeros(vs: seq<Visit>, flag: seq<Word>) {
    |vs| <= 32 * |flag| && forall n :: 0 <= n < |vs| ==> (FlagBit(flag, n) <==> ZeroTile(vs[n].tile))
  }

  lemma RankStep(vs: seq<Visit>, tileRows: nat, n: nat, m1: seq<Word>, m2: seq<Word>, j: nat)
    requires Marked(vs, tileRows, n, m1, m2) && j < n && Mul(j + 1, tileRows) <= |vs| && Mul(j, tileRows) <= |vs|
    ensures j < |m1| && Rank(vs, tileRows, j + 1) == Rank(vs, tileRows, j) + if m1[j] == 0 then 0 else 1
  {
    hide Mul, ColumnZero, TilesMarked;
    assert ColumnMarked(vs, tileRows, j, m1, m2);
  }

  lemma ZeroColumn(vs: seq<Visit>, tileRows: nat, n: nat, m1: seq<Word>, m2: seq<Word>, j: nat)
    requires Marked(vs, tileRows, n, m1, m2) && j < n && m1[j] == 0
    ensures Mul(j, tileRows) + tileRows <= |vs|
    ensures forall t :: Mul(j, tileRows) <= t < Mul(j, tileRows) + tileRows ==> ZeroTile(vs[t].tile)
  {
    hide Mul, Marked, ZeroTile;
    MarkedRoom(vs, tileRows, n, m1, m2, j);
    forall t | Mul(j, tileRows) <= t < Mul(j, tileRows) + tileRows
      ensures ZeroTile(vs[t].tile)
    {
      MarkMeans(vs, tileRows, n, m1, m2, j, t - Mul(j, tileRows));
    }
  }

  lemma MarkedRoom(vs: seq<Visit>, tileRows: nat, n: nat, m1: seq<Word>, m2: seq<Word>, j: nat)
    requires Marked(vs, tileRows, n, m1, m2) && j < n
    ensures Mul(j, tileRows) + tileRows <= |vs| && j < |m1|
  {
    hide Mul;
    assert ColumnMarked(vs, tileRows, j, m1, m2);
  }

  /** Row order and storage order have the same result. */
  lemma RowOrder(job: Job, out: seq<Word>, kernel: seq<Word>)
    requires job.Ok() && IsKernel(job, kernel) && |out| == job.OutSize()
    ensures var vs := RowVisits(job.g, job.tileRows, job.tileCols, kernel);
            AllFit(job, vs) && Walk(job, out, vs) == Walk(job, out, DenseVisits(job, kernel))
  {
    hide Walk, RowVisit, TileVisit, Mul;
    RowsAreTiles(job.g, job.tileRows, job.tileCols, kernel);
    AnyOrder(job, out, RowVisits(job.g, job.tileRows, job.tileCols, kernel), DenseVisits(job, kernel));
  }
}
