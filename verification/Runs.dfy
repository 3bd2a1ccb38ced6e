/** One run of the driver: the calls it makes, the results it keeps, and where it adds them. */
module Runs {
  import opened Arith
  import opened Words
  import opened Machine
  import opened Wavefront
  import opened Feeding
  import opened TileProduct

  /** The array after a tile of weights has been written to it. */
  ghost function Loading(g: Geometry, m: State, tile: seq<Word>): (n: State)
    requires g.Valid() && Shaped(g, m) && IsTile(g, tile)
    ensures Shaped(g, n)
  {
    TileRoom(g);
    m.(weights := Elems(g.wgt, tile), nonZeroTile := m.nonZeroTile || HasNonZero(tile))
  }

  ghost predicate HasNonZero(tile: seq<Word>) {
    exists i :: 0 <= i < |tile| && tile[i] != 0
  }

  /** Loading a tile leaves the partial sums alone. */
  lemma LoadingTop(g: Geometry, m: State, tile: seq<Word>)
    requires g.Valid() && Shaped(g, m) && ZeroTop(g, m) && IsTile(g, tile)
    ensures ZeroTop(g, Loading(g, m, tile)) && Loading(g, m, tile).weights == Elems(g.wgt, tile)
  {
    hide At, Elems;
  }

  /** The output after one call of the tile driver. */
  ghost function DriverOutput(g: Geometry, m: State, rows: nat, out: seq<Word>, input: seq<Word>, row: nat, col: nat,
                              tile: seq<Word>): (r: seq<Word>)
    requires g.Valid() && Shaped(g, m) && IsTile(g, tile)
    requires Mul(row + 1, BlockSize(g, rows)) <= |input| && Mul(col + 1, BlockSize(g, rows)) <= |out|
    ensures |r| == |out|
  {
    var b := BlockSize(g, rows);
    AddBlock(g.act, out, Mul(col, b), KeptWords(g, Loading(g, m, tile), input[Mul(row, b)..Mul(row, b) + b], rows))
  }

  /** The parameters of a run and what it accumulates into. */
  datatype Run = Run(g: Geometry, m: State, x: seq<Word>, rows: nat, out0: seq<Word>, base: nat) {
    ghost predicate Ok() {
      g.Valid() && Shaped(g, m) && |x| == BlockSize(g, rows) && base + BlockSize(g, rows) <= |out0|
    }
  }

  /** The first call whose result is kept. */
  function FirstKept(g: Geometry): (t: nat)
    requires g.Valid()
  {
    ColsFacts(g);
    MulFits(2 * g.k - 1, g.actCols, 0);
    Mul(2 * g.k - 1, g.actCols) - 1
  }

  /** The number of calls: all words of the block and of 2K - 1 further rows of zeros, except the last one. */
  function Calls(g: Geometry, rows: nat): (t: nat)
    requires g.Valid()
  {
    ColsFacts(g);
    MulFits(rows + 2 * g.k - 1, g.actCols, 0);
    Mul(rows + 2 * g.k - 1, g.actCols) - 1
  }

  /** Calls and kept results differ by the latency. */
  lemma CallsKept(g: Geometry, rows: nat)
    requires g.Valid()
    ensures Calls(g, rows) == FirstKept(g) + BlockSize(g, rows)
  {
    MulAdd(rows, 2 * g.k - 1, g.actCols);
  }

  /** How many results have been kept after `t` calls. */
  ghost function Kept(g: Geometry, t: nat): (n: nat)
    requires g.Valid()
  {
    if t < FirstKept(g) then 0 else t - FirstKept(g)
  }

  /** After `t` calls: the kept results are added, and nothing else has changed. */
  ghost predicate Progress(r: Run, t: nat, outPtr: nat, out: seq<Word>)
    requires r.Ok()
  {
    && Kept(r.g, t) <= BlockSize(r.g, r.rows) && outPtr == r.base + Kept(r.g, t)
    && out == AddBlock(r.g.act, r.out0, r.base, KeptWords(r.g, r.m, r.x, r.rows)[..Kept(r.g, t)])
  }

  lemma ProgressStart(r: Run)
    requires r.Ok()
    ensures Progress(r, 0, r.base, r.out0)
  {
    hide AddLanes, KeptWords;
    assert AddBlock(r.g.act, r.out0, r.base, KeptWords(r.g, r.m, r.x, r.rows)[..0]) == r.out0;
  }

  lemma ProgressEnd(r: Run, outPtr: nat, out: seq<Word>)
    requires r.Ok() && Progress(r, Calls(r.g, r.rows), outPtr, out)
    ensures out == AddBlock(r.g.act, r.out0, r.base, KeptWords(r.g, r.m, r.x, r.rows))
  {
    hide AddBlock, KeptWords, Mul;
    CallsKept(r.g, r.rows);
    var vs := KeptWords(r.g, r.m, r.x, r.rows);
    assert vs[..|vs|] == vs;
  }

  /** The result of the call with `n` rows and `j` words before it, once results are kept. */
  lemma CallResult(g: Geometry, m: State, x: seq<Word>, n: nat, j: nat)
    requires g.Valid() && Shaped(g, m) && j < g.actCols && Mul(n, g.actCols) + j >= FirstKept(g)
    ensures KeptWord(g, m, x, Mul(n, g.actCols) + j - FirstKept(g)) == Retrieved(g, Fed(g, m, x, n, j + 1), j)
  {
    hide Retrieved, Feed, KeptWord, Shaped, Col;
    var (n', j') := if j + 1 < g.actCols then (n, j + 1) else (n + 1, 0);
    assert Mul(n', g.actCols) + j' == Mul(n, g.actCols) + j + 1;
    assert n' >= 2 * g.k - 1 by {
      if n' < 2 * g.k - 1 {
        MulFits(2 * g.k - 1, g.actCols, n');
        assert false;
      }
    }
    var i := n' - (2 * g.k - 1);
    MulAdd(i, 2 * g.k - 1, g.actCols);
    KeptWordAt(g, m, x, i, j');
    assert Fed(g, m, x, n', j') == Fed(g, m, x, n, j + 1);
  }

  lemma ProgressSkip(r: Run, t: nat, outPtr: nat, out: seq<Word>)
    requires r.Ok() && Progress(r, t, outPtr, out) && t < FirstKept(r.g)
    ensures Progress(r, t + 1, outPtr, out)
  {
    hide AddBlock, KeptWords, Mul;
  }

  /** Where the next kept result goes, and that this word has not been touched yet. */
  lemma ProgressRoom(r: Run, t: nat, outPtr: nat, out: seq<Word>)
    requires r.Ok() && Progress(r, t, outPtr, out) && FirstKept(r.g) <= t < Calls(r.g, r.rows)
    ensures Kept(r.g, t) < BlockSize(r.g, r.rows) && outPtr < |out| == |r.out0| && out[outPtr] == r.out0[outPtr]
  {
    hide AddLanes, KeptWords, Mul;
    CallsKept(r.g, r.rows);
  }

  lemma ProgressKeep(r: Run, t: nat, outPtr: nat, out: seq<Word>, mult: Word)
    requires r.Ok() && Progress(r, t, outPtr, out) && FirstKept(r.g) <= t < Calls(r.g, r.rows)
    requires outPtr < |out| && mult == KeptWord(r.g, r.m, r.x, t - FirstKept(r.g))
    ensures Progress(r, t + 1, outPtr + 1, out[outPtr := AddLanes(r.g.act, out[outPtr], mult)])
  {
    hide AddLanes, AddBlock, Mul, KeptWord;
    ProgressRoom(r, t, outPtr, out);
    AddBlockNext(r.g.act, r.out0, r.base, KeptWords(r.g, r.m, r.x, r.rows), Kept(r.g, t));
  }
}
