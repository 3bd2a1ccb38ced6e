/** The product of one block of activations with one tile of weights, and its accumulation into memory. */
module TileProduct {
  import opened Arith
  import opened Words
  import opened Machine
  import opened Wavefront
  import opened Feeding

  /** Words in a block: `rows` rows of K activations. */
  function BlockSize(g: Geometry, rows: nat): nat {
    Mul(rows, g.actCols)
  }

  /** Words in a tile of weights. */
  function TileSize(g: Geometry): nat {
    Mul(g.k, g.wgtCols)
  }

  /** `out` with the words `vs` added, lane by lane, from `base` on. */
  ghost function AddBlock(l: Lanes, out: seq<Word>, base: nat, vs: seq<Word>): (r: seq<Word>)
    requires l.Valid() && base + |vs| <= |out|
    ensures |r| == |out|
    ensures forall p :: 0 <= p < |out| ==>
              r[p] == if base <= p < base + |vs| then AddLanes(l, out[p], vs[p - base]) else out[p]
  {
    seq<Word>(|out|, p requires 0 <= p < |out| =>
      if base <= p < base + |vs| then AddLanes(l, out[p], vs[p - base]) else out[p])
  }

  /** One more word. */
  lemma AddBlockNext(l: Lanes, out: seq<Word>, base: nat, vs: seq<Word>, n: nat)
    requires l.Valid() && base + |vs| <= |out| && n < |vs|
    ensures AddBlock(l, out, base, vs[..n + 1])
         == AddBlock(l, out, base, vs[..n])[base + n := AddLanes(l, out[base + n], vs[n])]
  {
    hide AddLanes;
  }

  /** Row and word of the q-th word of a block. */
  ghost function KeptWord(g: Geometry, m: State, x: seq<Word>, q: nat): Word
    requires g.Valid() && Shaped(g, m)
  {
    ColsFacts(g);
    Retrieved(g, Fed(g, m, x, 2 * g.k - 1 + q / g.actCols, Col(g.actCols, q)), CallBefore(g, Col(g.actCols, q)))
  }

  /** What the driver reads from the array while it keeps results. */
  ghost function KeptWords(g: Geometry, m: State, x: seq<Word>, rows: nat): (vs: seq<Word>)
    requires g.Valid() && Shaped(g, m)
    ensures |vs| == BlockSize(g, rows)
  {
    seq<Word>(BlockSize(g, rows), q requires 0 <= q < BlockSize(g, rows) => KeptWord(g, m, x, q))
  }

  ghost function ProductWord(g: Geometry, x: seq<Word>, w: seq<int>, q: nat): Word
    requires g.Valid()
  {
    ColsFacts(g);
    TileWord(g, RowAt(g, x, q / g.actCols), w, Col(g.actCols, q))
  }

  /** The product of a block of activations with a tile of weights, packed like the block. */
  ghost function Product(g: Geometry, x: seq<Word>, tile: seq<Word>, rows: nat): (vs: seq<Word>)
    requires g.Valid()
    ensures |vs| == BlockSize(g, rows)
  {
    seq<Word>(BlockSize(g, rows), q requires 0 <= q < BlockSize(g, rows) => ProductWord(g, x, Elems(g.wgt, tile), q))
  }

  lemma KeptWordAt(g: Geometry, m: State, x: seq<Word>, i: nat, j: nat)
    requires g.Valid() && Shaped(g, m) && j < g.actCols
    ensures KeptWord(g, m, x, Mul(i, g.actCols) + j) == Retrieved(g, Fed(g, m, x, 2 * g.k - 1 + i, j), CallBefore(g, j))
  {
    hide Retrieved, Fed;
    MulDiv(g.actCols, i, j);
  }

  /** Lane `l` of word `j` of product row `i`. */
  lemma ProductLane(g: Geometry, x: seq<Word>, tile: seq<Word>, rows: nat, i: nat, j: nat, l: nat)
    requires g.Valid() && i < rows && j < g.actCols && l < g.act.per
    ensures Mul(i, g.actCols) + j < BlockSize(g, rows)
    ensures Lane(g.act, Product(g, x, tile, rows)[Mul(i, g.actCols) + j], l)
         == Mask(g, Dot(RowAt(g, x, i), Elems(g.wgt, tile), g.k, Mul(j, g.act.per) + l, g.k))
  {
    hide Lane, Dot, RowAt, Elems, Pack;
    MulFits(rows, g.actCols, i);
    MulDiv(g.actCols, i, j);
    LaneOfPack(g.act, TileLanes(g, RowAt(g, x, i), Elems(g.wgt, tile), j), l);
  }

  /** In an aligned geometry the kept words are the product, from any state with zero top partial sums. */
  lemma KeptIsProduct(g: Geometry, m: State, x: seq<Word>, tile: seq<Word>, rows: nat)
    requires g.Valid() && Aligned(g) && Shaped(g, m) && ZeroTop(g, m) && m.weights == Elems(g.wgt, tile)
    ensures KeptWords(g, m, x, rows) == Product(g, x, tile, rows)
  {
    hide KeptWord, ProductWord, Aligned, ZeroTop, Shaped;
    forall q | 0 <= q < BlockSize(g, rows)
      ensures KeptWord(g, m, x, q) == ProductWord(g, x, m.weights, q)
    {
      KeptWordIsProduct(g, m, x, q);
    }
  }

  lemma KeptWordIsProduct(g: Geometry, m: State, x: seq<Word>, q: nat)
    requires g.Valid() && Aligned(g) && Shaped(g, m) && ZeroTop(g, m)
    ensures KeptWord(g, m, x, q) == ProductWord(g, x, m.weights, q)
  {
    hide Retrieved, Fed, TileWord, RowAt, ZeroTop, Shaped, Col;
    ColsFacts(g);
    KeptResult(g, m, x, 2 * g.k - 1 + q / g.actCols, q / g.actCols, Col(g.actCols, q));
  }
}
