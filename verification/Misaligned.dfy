/**
 * The driver passes the number of a word within its row, the array reads it as the number of an element.
 * The two agree only if a word holds one element or a row holds one word; in every other geometry the last
 * element of a row is never stored, and there are inputs whose product is lost.
 */
module Misaligned {
  import opened Arith
  import opened Words
  import opened Machine
  import opened Wavefront
  import opened Feeding
  import opened TileProduct
  import opened Runs
  import opened Systolic

  /** The kept words are the product, for every start state, block and tile. */
  ghost predicate Multiplies(g: Geometry, rows: nat)
    requires g.Valid()
  {
    forall m: State, x: seq<Word>, tile: seq<Word> ::
      Shaped(g, m) && ZeroTop(g, m) && IsTile(g, tile) && |x| == BlockSize(g, rows) ==>
      KeptWords(g, Loading(g, m, tile), x, rows) == Product(g, x, tile, rows)
  }

  /** Nothing reaches the partial sums: weights sit in the last row only, and the last row has no input. */
  ghost predicate Dead(g: Geometry, m: State)
    requires g.k > 0
  {
    var b := Mul(g.k - 1, g.k);
    && (forall p :: 0 <= p < |m.weights| && p < b ==> m.weights[p] == 0)
    && (forall p :: b <= p < |m.inp| ==> m.inp[p] == 0)
    && (forall p :: b <= p < |m.inWait| ==> m.inWait[p] == 0)
    && (forall p :: 0 <= p < |m.acc| ==> m.acc[p] == 0)
    && (forall p :: 0 <= p < |m.outWait| ==> m.outWait[p] == 0)
  }

  /** With several words per row and several elements per word, no word index reaches the last element. */
  lemma LastNotReached(g: Geometry, j: nat)
    requires g.Valid() && !Aligned(g) && j < g.actCols
    ensures j + g.act.per <= g.k - 1
  {
    MulAtLeastSum(g.actCols, g.act.per);
  }

  lemma {:induction false} MulAtLeastSum(a: nat, b: nat)
    requires b >= 2
    ensures a >= 2 ==> Mul(a, b) >= a + b
    ensures a == 1 ==> Mul(a, b) == b
  {
    if a >= 2 {
      MulAtLeastSum(a - 1, b);
    }
  }

  lemma {:induction false} StoredDead(g: Geometry, s: seq<int>, idx: nat, val: Word, n: nat)
    requires g.k > 0 && g.act.bits > 0 && |s| == Mul(g.k, g.k) && n <= g.act.per && idx + n <= g.k - 1
    requires forall p :: Mul(g.k - 1, g.k) <= p < |s| ==> s[p] == 0
    ensures forall p :: Mul(g.k - 1, g.k) <= p < |s| ==> Stored(g, s, idx, val, n)[p] == 0
    decreases n
  {
    hide Act, DiagPos;
    if n > 0 {
      StoredDead(g, s, idx, val, n - 1);
      DiagPosIs(g.k, idx + n - 1);
      MulFits(g.k - 1, g.k, idx + n - 1);
    }
  }

  lemma ShiftDead(k: nat, s: seq<int>)
    requires k > 0 && |s| == Mul(k, k) && forall p :: Mul(k - 1, k) <= p < |s| ==> s[p] == 0
    ensures forall p :: Mul(k - 1, k) <= p < |s| ==> ShiftRight(k, s)[p] == 0
  {
    hide Col;
    ColOf(k, k - 1, 0);
  }

  lemma LoadDead(k: nat, inp: seq<int>, inWait: seq<int>)
    requires k > 0 && |inp| == |inWait| == Mul(k, k)
    requires forall p :: Mul(k - 1, k) <= p < |inp| ==> inp[p] == 0
    requires forall p :: Mul(k - 1, k) <= p < |inWait| ==> inWait[p] == 0
    ensures forall p :: Mul(k - 1, k) <= p < |inp| ==> LoadFirst(k, inp, inWait)[p] == 0
  {
    hide Col;
  }

  lemma MacDead(k: nat, acc: seq<int>, inp: seq<int>, w: seq<int>)
    requires k > 0 && |inp| == |w| == Mul(k, k) && |acc| == |inp| + k
    requires forall p :: 0 <= p < |acc| ==> acc[p] == 0
    requires forall p :: Mul(k - 1, k) <= p < |inp| ==> inp[p] == 0
    requires forall p :: 0 <= p < Mul(k - 1, k) ==> w[p] == 0
    ensures forall p :: 0 <= p < |acc| ==> MacAll(k, acc, inp, w)[p] == 0
  {
    forall p | 0 <= p < |inp|
      ensures Mac(inp[p], w[p], acc[p]) == 0
    {
      assert inp[p] == 0 || w[p] == 0;
      assert inp[p] * w[p] == 0;
    }
  }

  lemma OutDead(g: Geometry, outWait: seq<int>, last: seq<int>)
    requires |last| <= |outWait|
    requires forall p :: 0 <= p < |outWait| ==> outWait[p] == 0
    requires forall p :: 0 <= p < |last| ==> last[p] == 0
    ensures forall p :: 0 <= p < |outWait| ==> ShiftDown(g, outWait, last)[p] == 0
  {
    DivModUnique(0, Pow2(g.act.bits), 0, 0);
  }

  lemma TickDead(g: Geometry, m: State)
    requires g.Valid() && Shaped(g, m) && Dead(g, m)
    ensures Dead(g, Tick(g, m))
  {
    hide LoadFirst, ShiftRight, MacAll, ShiftDown, LaneValues;
    var loaded := LoadFirst(g.k, m.inp, m.inWait);
    LoadDead(g.k, m.inp, m.inWait);
    ShiftDead(g.k, loaded);
    ShiftDead(g.k, m.inWait);
    MacDead(g.k, m.acc, loaded, m.weights);
    MulFits(g.k, g.k, 0);
    OutDead(g, m.outWait, MacAll(g.k, m.acc, loaded, m.weights)[Mul(g.k, g.k)..]);
  }

  lemma FeedDead(g: Geometry, m: State, j: nat, val: Word)
    requires g.Valid() && !Aligned(g) && Shaped(g, m) && Dead(g, m) && j < g.actCols
    ensures Dead(g, Feed(g, m, j, val))
  {
    hide Stored, Tick, LaneValues;
    LastNotReached(g, j);
    StoredDead(g, m.inWait, j, val, g.act.per);
    TickDead(g, m.(inWait := Stored(g, m.inWait, j, val, g.act.per)));
  }

  lemma {:induction false} FedDead(g: Geometry, m: State, x: seq<Word>, n: nat, j: nat)
    requires g.Valid() && !Aligned(g) && Shaped(g, m) && Dead(g, m) && j <= g.actCols
    ensures Dead(g, Fed(g, m, x, n, j))
    decreases n, j
  {
    hide Dead, Shaped, Feed, Mul;
    if j > 0 {
      FedDead(g, m, x, n, j - 1);
      FeedDead(g, Fed(g, m, x, n, j - 1), j - 1, WordAt(x, Mul(n, g.actCols) + j - 1));
    } else if n > 0 {
      FedDead(g, m, x, n - 1, g.actCols);
    }
  }

  // ----- the lost product

  ghost function ZeroWords(n: nat): (s: seq<Word>)
    ensures |s| == n && forall i :: 0 <= i < n ==> s[i] == 0
  {
    seq<Word>(n, _ => 0)
  }

  /** The word whose lane `n` is one and whose other lanes are zero. */
  ghost function UnitWord(l: Lanes, n: nat): Word
    requires l.Valid() && n < l.per
  {
    WithLane(l, 0, n, 1)
  }

  lemma UnitLane(l: Lanes, n: nat, i: nat)
    requires l.Valid() && n < l.per && i < l.per
    ensures Lane(l, UnitWord(l, n), i) == if i == n then 1 else 0
  {
    hide Lane, WithLane;
    LaneOfWithLane(l, 0, n, 1, i);
    LaneOfZero(l, i);
  }

  /** One non-zero element: the given lane of the given word. */
  lemma UnitElems(l: Lanes, ws: seq<Word>, j: nat, n: nat, p: nat)
    requires l.Valid() && j < |ws| && n < l.per && ws == ZeroWords(|ws|)[j := UnitWord(l, n)]
    requires p < Mul(|ws|, l.per)
    ensures Elems(l, ws)[p] != 0 <==> p == Mul(j, l.per) + n
    ensures Elems(l, ws)[p] == -1 || Elems(l, ws)[p] == 0 || Elems(l, ws)[p] == 1
  {
    hide Lane, Elems, UnitWord, Mul;
    var a, b := MulSplit(|ws|, l.per, p);
    ElemsAt(l, ws, a, b);
    UnitLane(l, n, b);
    LaneOfZero(l, b);
    SignedUnit(l);
    if a == j && b == n {
    } else if Mul(a, l.per) + b == Mul(j, l.per) + n {
      MulUnique(l.per, a, b, j, n);
    }
  }

  lemma SignedUnit(l: Lanes)
    requires l.bits >= 1
    ensures Signed(l, 0) == 0
    ensures Signed(l, 1) == 1 || Signed(l, 1) == -1
  {
    assert Pow2(l.bits) == 2 * Pow2(l.bits - 1);
    if Pow2(l.bits - 1) == 1 {
      assert Pow2(l.bits) == 2;
    }
  }

  /** A block whose only non-zero element is the last one of row 0. */
  ghost function LastElement(g: Geometry, rows: nat): (x: seq<Word>)
    requires g.Valid() && rows > 0
    ensures |x| == BlockSize(g, rows)
  {
    ColsFacts(g);
    MulFits(rows, g.actCols, 0);
    ZeroWords(BlockSize(g, rows))[g.actCols - 1 := UnitWord(g.act, g.act.per - 1)]
  }

  /** A tile whose only non-zero weight is the first one of the last row. */
  ghost function LastWeight(g: Geometry): (tile: seq<Word>)
    requires g.Valid()
    ensures IsTile(g, tile)
  {
    ColsFacts(g);
    MulFits(g.k, g.wgtCols, g.k - 1);
    ZeroWords(TileSize(g))[Mul(g.k - 1, g.wgtCols) := UnitWord(g.wgt, 0)]
  }

  lemma LastElementRow(g: Geometry, rows: nat, p: nat)
    requires g.Valid() && rows > 0 && p < g.k
    ensures RowAt(g, LastElement(g, rows), 0)[p] != 0 <==> p == g.k - 1
    ensures var e := RowAt(g, LastElement(g, rows), 0)[p]; e == -1 || e == 0 || e == 1
  {
    hide Elems, UnitWord;
    ColsFacts(g);
    MulFits(rows, g.actCols, 0);
    var x := LastElement(g, rows);
    var ws := Window(x, Mul(0, g.actCols), g.actCols);
    assert ws == ZeroWords(|ws|)[g.actCols - 1 := UnitWord(g.act, g.act.per - 1)];
    UnitElems(g.act, ws, g.actCols - 1, g.act.per - 1, p);
  }

  lemma LastWeightAt(g: Geometry, p: nat)
    requires g.Valid() && p < Mul(g.k, g.k)
    ensures |Elems(g.wgt, LastWeight(g))| == Mul(g.k, g.k)
    ensures Elems(g.wgt, LastWeight(g))[p] != 0 <==> p == Mul(g.k - 1, g.k)
    ensures var e := Elems(g.wgt, LastWeight(g))[p]; e == -1 || e == 0 || e == 1
  {
    hide Elems, UnitWord;
    ColsFacts(g);
    TileRoom(g);
    MulFits(g.k, g.wgtCols, g.k - 1);
    MulMul(g.k - 1, g.wgtCols, g.wgt.per);
    UnitElems(g.wgt, LastWeight(g), Mul(g.k - 1, g.wgtCols), 0, p);
  }

  lemma {:induction false} LeadingZeros(x: seq<int>, w: seq<int>, k: nat, c: nat, n: nat)
    requires n <= |x| && forall p :: 0 <= p < n ==> x[p] == 0
    ensures Dot(x, w, k, c, n) == 0
  {
    if n > 0 {
      LeadingZeros(x, w, k, c, n - 1);
      assert x[n - 1] * At(w, k, n - 1, c) == 0;
    }
  }

  /** The product has a non-zero element. */
  lemma LostProduct(g: Geometry, rows: nat)
    requires g.Valid() && rows > 0
    ensures g.actCols > 0 && BlockSize(g, rows) > 0
    ensures Lane(g.act, Product(g, LastElement(g, rows), LastWeight(g), rows)[0], 0) != 0
  {
    hide Lane, Elems, RowAt, Product;
    ColsFacts(g);
    var row, w := RowAt(g, LastElement(g, rows), 0), Elems(g.wgt, LastWeight(g));
    forall p | 0 <= p < g.k - 1
      ensures row[p] == 0
    {
      LastElementRow(g, rows, p);
    }
    LeadingZeros(row, w, g.k, 0, g.k - 1);
    LastElementRow(g, rows, g.k - 1);
    MulFits(g.k, g.k, g.k - 1);
    LastWeightAt(g, Mul(g.k - 1, g.k));
    UnitMask(g, row[g.k - 1], w[Mul(g.k - 1, g.k)]);
    ProductLane(g, LastElement(g, rows), LastWeight(g), rows, 0, 0, 0);
  }

  lemma UnitMask(g: Geometry, a: int, b: int)
    requires g.act.bits >= 1 && (a == 1 || a == -1) && (b == 1 || b == -1)
    ensures Mask(g, a * b) != 0
  {
    assert a * b == 1 || a * b == -1;
    assert Pow2(g.act.bits) == 2 * Pow2(g.act.bits - 1);
    DivModUnique(1, Pow2(g.act.bits), 0, 1);
    DivModUnique(-1, Pow2(g.act.bits), -1, Pow2(g.act.bits) - 1);
  }

  lemma BlankDead(g: Geometry)
    requires g.Valid()
    ensures Shaped(g, Blank(g)) && ZeroTop(g, Blank(g))
    ensures Dead(g, Loading(g, Blank(g), LastWeight(g)))
  {
    hide Elems, LastWeight;
    TileRoom(g);
    forall p | 0 <= p < Mul(g.k - 1, g.k)
      ensures Elems(g.wgt, LastWeight(g))[p] == 0
    {
      LastWeightAt(g, p);
    }
  }

  /** From a new array object, nothing but zero is read. */
  lemma NothingKept(g: Geometry, rows: nat)
    requires g.Valid() && !Aligned(g) && rows > 0
    ensures g.actCols > 0 && BlockSize(g, rows) > 0 && Shaped(g, Blank(g))
    ensures Lane(g.act, KeptWords(g, Loading(g, Blank(g), LastWeight(g)), LastElement(g, rows), rows)[0], 0) == 0
  {
    hide Lane, Elems, LastWeight, LastElement, Fed, Shaped, Blank, ZeroTop, Loading, Dead, Retrieved, KeptWord;
    BlankDead(g);
    ColsFacts(g);
    MulFits(rows, g.actCols, 0);
    var m, x := Loading(g, Blank(g), LastWeight(g)), LastElement(g, rows);
    FedDead(g, m, x, 2 * g.k - 1, 0);
    KeptWordAt(g, m, x, 0, 0);
    DeadReads(g, Fed(g, m, x, 2 * g.k - 1, 0), CallBefore(g, 0));
  }

  lemma DeadReads(g: Geometry, m: State, idx: nat)
    requires g.Valid() && Shaped(g, m) && Dead(g, m)
    ensures Lane(g.act, Retrieved(g, m, idx), 0) == 0
  {
    hide Lane, OutPos;
    LaneOfPack(g.act, RetrievedLanes(g, m, StartCol(g, idx)), 0);
  }

  /**
   * The driver computes the product for every start state, block and tile exactly if the geometry is aligned
   * or there are no rows at all.
   */
  lemma MultipliesExactlyWhenAligned(g: Geometry, rows: nat)
    requires g.Valid()
    ensures Multiplies(g, rows) <==> Aligned(g) || rows == 0
  {
    hide KeptWords, Product, Aligned, Shaped, ZeroTop, Elems, Loading;
    if Aligned(g) {
      forall m: State, x: seq<Word>, tile: seq<Word> |
        Shaped(g, m) && ZeroTop(g, m) && IsTile(g, tile) && |x| == BlockSize(g, rows)
        ensures KeptWords(g, Loading(g, m, tile), x, rows) == Product(g, x, tile, rows)
      {
        LoadingTop(g, m, tile);
        KeptIsProduct(g, Loading(g, m, tile), x, tile, rows);
      }
    } else if rows > 0 {
      BlankDead(g);
      NothingKept(g, rows);
      LostProduct(g, rows);
      assert KeptWords(g, Loading(g, Blank(g), LastWeight(g)), LastElement(g, rows), rows)
          != Product(g, LastElement(g, rows), LastWeight(g), rows);
    }
  }
}
