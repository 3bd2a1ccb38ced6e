/** Transposition of packed matrices, row-major and blocked. */
module Transpose {
  import opened Arith
  import opened Words
  import opened Matrices

  /**
   * A matrix of `bi` blocks of layout `yi` and as many rows as `bo` blocks of layout `yo` have columns, transposed
   * into `bo` blocks of layout `yo`.
   */
  ghost predicate Transposable(yi: Layout, bi: nat, yo: Layout, bo: nat, s: seq<Word>) {
    yi.Valid() && yo.Valid() && yi.l == yo.l && IsBuffer(yi, Mul(bo, yo.k), bi, s)
  }

  ghost function TransposedMatrix(yi: Layout, bi: nat, yo: Layout, bo: nat, s: seq<Word>): (a: Matrix)
    requires Transposable(yi, bi, yo, bo, s)
    ensures IsMatrix(Mul(bi, yi.k), Mul(bo, yo.k), a)
  {
    Transposed(Mul(bo, yo.k), Mul(bi, yi.k), MatrixOf(yi, Mul(bo, yo.k), bi, s))
  }

  ghost function TransposedBuffer(yi: Layout, bi: nat, yo: Layout, bo: nat, s: seq<Word>): (t: seq<Word>)
    requires Transposable(yi, bi, yo, bo, s)
    ensures IsBuffer(yo, Mul(bi, yi.k), bo, t)
  {
    Encode(yo, Mul(bi, yi.k), bo, TransposedMatrix(yi, bi, yo, bo, s))
  }

  // ----- properties

  /** Element (r, c) moves to (c, r). */
  lemma TransposeMoves(yi: Layout, bi: nat, yo: Layout, bo: nat, s: seq<Word>)
    requires Transposable(yi, bi, yo, bo, s)
    ensures MatrixOf(yo, Mul(bi, yi.k), bo, TransposedBuffer(yi, bi, yo, bo, s))
         == Transposed(Mul(bo, yo.k), Mul(bi, yi.k), MatrixOf(yi, Mul(bo, yo.k), bi, s))
  {
    hide Mul, MatrixOf, Encode, Pow2;
    MatrixInRange(yi, Mul(bo, yo.k), bi, s);
    MatrixOfEncode(yo, Mul(bi, yi.k), bo, TransposedMatrix(yi, bi, yo, bo, s));
  }

  /** Transposing twice gives the buffer back. */
  lemma TransposeTwice(yi: Layout, bi: nat, yo: Layout, bo: nat, s: seq<Word>)
    requires Transposable(yi, bi, yo, bo, s)
    ensures TransposedBuffer(yo, bo, yi, bi, TransposedBuffer(yi, bi, yo, bo, s)) == s
  {
    hide Mul, MatrixOf, Encode;
    var n, m := Mul(bo, yo.k), Mul(bi, yi.k);
    var a := MatrixOf(yi, n, bi, s);
    TransposeMoves(yi, bi, yo, bo, s);
    TwiceTransposed(n, m, a);
    EncodeMatrix(yi, n, bi, s);
  }

  lemma TwiceTransposed(n: nat, m: nat, a: Matrix)
    requires IsMatrix(n, m, a)
    ensures Transposed(m, n, Transposed(n, m, a)) == a
  {
    var t := Transposed(m, n, Transposed(n, m, a));
    forall i | 0 <= i < n
      ensures t[i] == a[i]
    {
    }
  }

  /** Buffers of equal matrices have transposes of equal matrices, whatever their layouts. */
  lemma TransposeCommutes(yi: Layout, bi: nat, yo: Layout, bo: nat, s: seq<Word>,
                          yi': Layout, bi': nat, yo': Layout, bo': nat, s': seq<Word>)
    requires Transposable(yi, bi, yo, bo, s) && Transposable(yi', bi', yo', bo', s')
    requires Mul(bo, yo.k) == Mul(bo', yo'.k) && Mul(bi, yi.k) == Mul(bi', yi'.k)
    requires MatrixOf(yi, Mul(bo, yo.k), bi, s) == MatrixOf(yi', Mul(bo, yo.k), bi', s')
    ensures MatrixOf(yo, Mul(bi, yi.k), bo, TransposedBuffer(yi, bi, yo, bo, s))
         == MatrixOf(yo', Mul(bi, yi.k), bo', TransposedBuffer(yi', bi', yo', bo', s'))
  {
    hide Mul, MatrixOf, Encode;
    TransposeMoves(yi, bi, yo, bo, s);
    TransposeMoves(yi', bi', yo', bo', s');
  }

  // ----- one word of the result

  /** Lane `n` of `per` words at equal distances. */
  ghost function Gathered(l: Lanes, s: seq<Word>, base: nat, stride: nat, n: nat): (vs: seq<int>)
    requires l.Valid() && n < l.per && base + Mul(l.per - 1, stride) < |s|
    ensures AreLanes(l, vs)
  {
    seq(l.per, i requires 0 <= i < l.per => GatheredLane(l, s, base, stride, n, i))
  }

  ghost function GatheredLane(l: Lanes, s: seq<Word>, base: nat, stride: nat, n: nat, i: nat): (v: int)
    requires l.Valid() && n < l.per && base + Mul(l.per - 1, stride) < |s| && i < l.per
    ensures 0 <= v < Pow2(l.bits)
  {
    MulLe(i, l.per - 1, stride);
    Lane(l, s[base + Mul(i, stride)], n)
  }

  method GatherLanes(l: Lanes, input: array<Word>, base: nat, stride: nat, n: nat) returns (result: Word)
    requires l.Valid() && n < l.per && base + Mul(l.per - 1, stride) < input.Length
    ensures result == Pack(l, Gathered(l, input[..], base, stride, n))
  {
    hide Mul, Lane, Pack;
    var lanes: seq<int> := [];
    var s := 0;
    while s < l.per
      invariant 0 <= s <= l.per && |lanes| == s
      invariant forall i :: 0 <= i < s ==> lanes[i] == Gathered(l, input[..], base, stride, n)[i]
    {
      MulLe(s, l.per - 1, stride);
      lanes := lanes + [Lane(l, input[base + Mul(s, stride)], n)];
      s := s + 1;
    }
    assert lanes == Gathered(l, input[..], base, stride, n);
    result := PackByOr(l, lanes);
  }

  /** Word `j` of row (d, m, n) of block `b` of the result gathers lane `n` of word `m` of `per` rows of block `d`. */
  lemma TransposedWord(yi: Layout, bi: nat, yo: Layout, bo: nat, s: seq<Word>, b: nat, d: nat, m: nat, n: nat, j: nat)
    requires Transposable(yi, bi, yo, bo, s) && b < bo && d < bi && m < yi.cols && n < yi.l.per && j < yo.cols
    ensures var base := Pos(yi, Mul(bo, yo.k), d, ColumnOf(yo, b, j, 0), m);
            var p := Pos(yo, Mul(bi, yi.k), b, ColumnOf(yi, d, m, n), j);
            && base + Mul(yi.l.per - 1, yi.cols) < |s| && p < |TransposedBuffer(yi, bi, yo, bo, s)|
            && TransposedBuffer(yi, bi, yo, bo, s)[p] == Pack(yi.l, Gathered(yi.l, s, base, yi.cols, n))
  {
    hide Mul, MatrixOf, Encode, EncodeWord, Lane, Gathered, Pack, Signed;
    var l, h, w, c := yi.l, Mul(bo, yo.k), Mul(bi, yi.k), ColumnOf(yi, d, m, n);
    var base := Pos(yi, h, d, ColumnOf(yo, b, j, 0), m);
    ColumnFits(yi, bi, d, m, n);
    GatherRoom(yi, bi, yo, bo, s, b, d, m, j);
    EncodePos(yo, w, bo, TransposedMatrix(yi, bi, yo, bo, s), b, c, j);
    var x, z := EncodeWord(yo, w, bo, TransposedMatrix(yi, bi, yo, bo, s), b, c, j), Pack(l, Gathered(l, s, base, yi.cols, n));
    forall i | 0 <= i < l.per
      ensures Lane(l, x, i) == Lane(l, z, i)
    {
      LaneOfEncode(yo, w, bo, TransposedMatrix(yi, bi, yo, bo, s), b, c, j, i);
      LaneOfPack(l, Gathered(l, s, base, yi.cols, n), i);
      GatheredElement(yi, bi, yo, bo, s, b, d, m, n, j, i);
    }
    SameLanes(l, x, z);
  }

  lemma GatherRoom(yi: Layout, bi: nat, yo: Layout, bo: nat, s: seq<Word>, b: nat, d: nat, m: nat, j: nat)
    requires Transposable(yi, bi, yo, bo, s) && b < bo && d < bi && m < yi.cols && j < yo.cols
    ensures Pos(yi, Mul(bo, yo.k), d, ColumnOf(yo, b, j, 0), m) + Mul(yi.l.per - 1, yi.cols) < |s|
  {
    hide Mul;
    var l := yi.l;
    ColumnFits(yo, bo, b, j, l.per - 1);
    PosFits(yi, Mul(bo, yo.k), bi, d, ColumnOf(yo, b, j, l.per - 1), m);
    MulAdd(ColumnOf(yo, b, j, 0), l.per - 1, yi.cols);
  }

  lemma GatheredElement(yi: Layout, bi: nat, yo: Layout, bo: nat, s: seq<Word>, b: nat, d: nat, m: nat, n: nat, j: nat, i: nat)
    requires Transposable(yi, bi, yo, bo, s) && b < bo && d < bi && m < yi.cols && n < yi.l.per && j < yo.cols && i < yi.l.per
    requires Pos(yi, Mul(bo, yo.k), d, ColumnOf(yo, b, j, 0), m) + Mul(yi.l.per - 1, yi.cols) < |s|
    ensures ColumnOf(yi, d, m, n) < Mul(bi, yi.k) && ColumnOf(yo, b, j, i) < Mul(bo, yo.k)
    ensures TransposedMatrix(yi, bi, yo, bo, s)[ColumnOf(yi, d, m, n)][ColumnOf(yo, b, j, i)] % Pow2(yi.l.bits)
         == Gathered(yi.l, s, Pos(yi, Mul(bo, yo.k), d, ColumnOf(yo, b, j, 0), m), yi.cols, n)[i]
  {
    hide Mul, MatrixOf, Lane, Signed;
    var h := Mul(bo, yo.k);
    ColumnFits(yi, bi, d, m, n);
    ColumnFits(yo, bo, b, j, i);
    MatrixAt(yi, h, bi, s, d, ColumnOf(yo, b, j, i), m, n);
    MulAdd(ColumnOf(yo, b, j, 0), i, yi.cols);
    SignedRange(yi.l, Lane(yi.l, s[Pos(yi, h, d, ColumnOf(yo, b, j, i), m)], n));
  }

  // ----- filling the result

  /** Every word is as before or already as in the target. */
  ghost predicate Toward(t: seq<Word>, s: seq<Word>, s': seq<Word>) {
    |t| == |s| == |s'| && forall p :: 0 <= p < |s| ==> s'[p] == s[p] || s'[p] == t[p]
  }

  /** Word `j` of row (d, m, n) of block `b` is in place. */
  ghost predicate Filled(yi: Layout, bi: nat, yo: Layout, t: seq<Word>, s: seq<Word>, b: nat, d: nat, m: nat, n: nat, j: nat) {
    var p := Pos(yo, Mul(bi, yi.k), b, ColumnOf(yi, d, m, n), j);
    p < |s| == |t| && s[p] == t[p]
  }

  /** If every word is in place the buffer is the target. */
  lemma AllFilled(yi: Layout, bi: nat, yo: Layout, bo: nat, t: seq<Word>, s: seq<Word>)
    requires yi.Valid() && IsBuffer(yo, Mul(bi, yi.k), bo, t) && |s| == |t|
    requires forall b, d, m, n, j :: 0 <= b < bo && 0 <= d < bi && 0 <= m < yi.cols && 0 <= n < yi.l.per && 0 <= j < yo.cols ==>
               Filled(yi, bi, yo, t, s, b, d, m, n, j)
    ensures s == t
  {
    hide Mul, Pos, ColumnOf;
    forall p | 0 <= p < |s|
      ensures s[p] == t[p]
    {
      var b, c, j := PosSplit(yo, Mul(bi, yi.k), bo, p);
      var d, m, n := ColumnSplit(yi, bi, c);
      assert Filled(yi, bi, yo, t, s, b, d, m, n, j);
    }
  }

  /** Writing a word of the target keeps what is in place. */
  lemma FilledNext(yi: Layout, bi: nat, yo: Layout, t: seq<Word>, s: seq<Word>, s': seq<Word>, b: nat, d: nat, m: nat, n: nat, j: nat)
    requires Pos(yo, Mul(bi, yi.k), b, ColumnOf(yi, d, m, n), j) < |s| == |t|
    requires var p := Pos(yo, Mul(bi, yi.k), b, ColumnOf(yi, d, m, n), j); s' == s[p := t[p]]
    ensures Filled(yi, bi, yo, t, s', b, d, m, n, j)
    ensures forall r, i :: Filled(yi, bi, yo, t, s, b, d, m, r, i) ==> Filled(yi, bi, yo, t, s', b, d, m, r, i)
  {
    hide Mul, Pos, ColumnOf;
  }

  ghost predicate RowFilled(yi: Layout, bi: nat, yo: Layout, t: seq<Word>, s: seq<Word>, b: nat, d: nat, m: nat, n: nat) {
    forall j :: 0 <= j < yo.cols ==> Filled(yi, bi, yo, t, s, b, d, m, n, j)
  }

  ghost predicate TileFilled(yi: Layout, bi: nat, yo: Layout, t: seq<Word>, s: seq<Word>, b: nat, d: nat) {
    forall m, n :: 0 <= m < yi.cols && 0 <= n < yi.l.per ==> RowFilled(yi, bi, yo, t, s, b, d, m, n)
  }

  lemma StillFilled(yi: Layout, bi: nat, yo: Layout, t: seq<Word>, s: seq<Word>, s': seq<Word>)
    requires Toward(t, s, s')
    ensures forall b, d, m, n :: RowFilled(yi, bi, yo, t, s, b, d, m, n) ==> RowFilled(yi, bi, yo, t, s', b, d, m, n)
    ensures forall b, d :: TileFilled(yi, bi, yo, t, s, b, d) ==> TileFilled(yi, bi, yo, t, s', b, d)
  {
    hide Mul, Pos, ColumnOf;
    forall b: nat, d: nat, m: nat, n: nat | RowFilled(yi, bi, yo, t, s, b, d, m, n)
      ensures RowFilled(yi, bi, yo, t, s', b, d, m, n)
    {
      forall j | 0 <= j < yo.cols
        ensures Filled(yi, bi, yo, t, s', b, d, m, n, j)
      {
        assert Filled(yi, bi, yo, t, s, b, d, m, n, j);
      }
    }
  }

  /** One row of one tile of the result. The tile at `tileInput` has rows of `cols` words. */
  method FillRow(y: Layout, ghost bi: nat, ghost bo: nat, input: array<Word>, output: array<Word>,
                 ghost b: nat, ghost d: nat, m: nat, n: nat, tileInput: nat, tileOutput: nat)
    requires Transposable(y, bi, y, bo, input[..]) && input != output
    requires output.Length == |TransposedBuffer(y, bi, y, bo, input[..])|
    requires b < bo && d < bi && m < y.cols && n < y.l.per
    requires tileInput == Mul(Mul(d, bo) + b, Mul(y.k, y.cols)) && tileOutput == Mul(Mul(b, bi) + d, Mul(y.k, y.cols))
    modifies output
    ensures var t := TransposedBuffer(y, bi, y, bo, input[..]);
            Toward(t, old(output[..]), output[..]) && RowFilled(y, bi, y, t, output[..], b, d, m, n)
  {
    hide Mul, TransposedBuffer, Gathered, Pack, Filled;
    ghost var t, s0 := TransposedBuffer(y, bi, y, bo, input[..]), output[..];
    ghost var src := input[..];
    var j := 0;
    while j < y.cols
      invariant 0 <= j <= y.cols && input[..] == src && Toward(t, s0, output[..])
      invariant forall i :: 0 <= i < j ==> Filled(y, bi, y, t, output[..], b, d, m, n, i)
    {
      TransposedWord(y, bi, y, bo, src, b, d, m, n, j);
      TileIndex(y, bo, d, b, Mul(j, y.l.per), m);
      TileIndex(y, bi, b, d, Mul(m, y.l.per) + n, j);
      TileStep(y, m, n);
      var result := GatherLanes(y.l, input, tileInput + Mul(Mul(j, y.l.per), y.cols) + m, y.cols, n);
      ghost var s := output[..];
      output[tileOutput + Mul(Mul(m, y.l.per), y.cols) + Mul(n, y.cols) + j] := result;
      ghost var p := Pos(y, Mul(bi, y.k), b, ColumnOf(y, d, m, n), j);
      assert output[..] == s[p := t[p]];
      FilledNext(y, bi, y, t, s, output[..], b, d, m, n, j);
      j := j + 1;
    }
  }

  /** Word `j` of row `r` of tile `i` of block `b`, when a block has `tiles` tiles. */
  lemma TileIndex(y: Layout, tiles: nat, b: nat, i: nat, r: nat, j: nat)
    ensures Mul(Mul(b, tiles) + i, Mul(y.k, y.cols)) + Mul(r, y.cols) + j == Pos(y, Mul(tiles, y.k), b, Mul(i, y.k) + r, j)
  {
    hide Mul;
    var t := Mul(y.k, y.cols);
    MulAdd(Mul(b, tiles), i, t);
    MulMul(b, tiles, t);
    MulMul(tiles, y.k, y.cols);
    MulMul(i, y.k, y.cols);
    MulAdd(Mul(i, y.k), r, y.cols);
  }

  lemma TileStep(y: Layout, m: nat, n: nat)
    ensures Mul(Mul(m, y.l.per) + n, y.cols) == Mul(Mul(m, y.l.per), y.cols) + Mul(n, y.cols)
  {
    MulAdd(Mul(m, y.l.per), n, y.cols);
  }

  method FillTile(y: Layout, ghost bi: nat, ghost bo: nat, input: array<Word>, output: array<Word>,
                  ghost b: nat, ghost d: nat, tileInput: nat, tileOutput: nat)
    requires Transposable(y, bi, y, bo, input[..]) && input != output
    requires output.Length == |TransposedBuffer(y, bi, y, bo, input[..])| && b < bo && d < bi
    requires tileInput == Mul(Mul(d, bo) + b, Mul(y.k, y.cols)) && tileOutput == Mul(Mul(b, bi) + d, Mul(y.k, y.cols))
    modifies output
    ensures var t := TransposedBuffer(y, bi, y, bo, input[..]);
            Toward(t, old(output[..]), output[..]) && TileFilled(y, bi, y, t, output[..], b, d)
  {
    hide Mul, TransposedBuffer, RowFilled;
    ghost var src, t, s0 := input[..], TransposedBuffer(y, bi, y, bo, input[..]), output[..];
    var m := 0;
    while m < y.cols
      invariant 0 <= m <= y.cols && input[..] == src && Toward(t, s0, output[..])
      invariant forall r, n :: 0 <= r < m && 0 <= n < y.l.per ==> RowFilled(y, bi, y, t, output[..], b, d, r, n)
    {
      var n := 0;
      while n < y.l.per
        invariant 0 <= n <= y.l.per && input[..] == src && Toward(t, s0, output[..])
        invariant forall r, i :: 0 <= r < m && 0 <= i < y.l.per ==> RowFilled(y, bi, y, t, output[..], b, d, r, i)
        invariant forall i :: 0 <= i < n ==> RowFilled(y, bi, y, t, output[..], b, d, m, i)
      {
        ghost var s := output[..];
        FillRow(y, bi, bo, input, output, b, d, m, n, tileInput, tileOutput);
        StillFilled(y, bi, y, t, s, output[..]);
        n := n + 1;
      }
      m := m + 1;
    }
  }

  /** The blocked form, tile by tile. */
  method TransposeRearranged(y: Layout, input: array<Word>, output: array<Word>, width: nat, height: nat)
    requires y.k > 0 && Transposable(y, width / y.k, y, height / y.k, input[..]) && input != output
    requires output.Length == |TransposedBuffer(y, width / y.k, y, height / y.k, input[..])|
    modifies output
    ensures output[..] == TransposedBuffer(y, width / y.k, y, height / y.k, input[..])
  {
    hide Mul, TransposedBuffer, TileFilled;
    var tileRow, tileCol := height / y.k, width / y.k;
    ghost var src, t := input[..], TransposedBuffer(y, tileCol, y, tileRow, input[..]);
    var i := 0;
    while i < tileRow
      invariant 0 <= i <= tileRow && input[..] == src
      invariant forall b, d :: 0 <= b < i && 0 <= d < tileCol ==> TileFilled(y, tileCol, y, t, output[..], b, d)
    {
      var j := 0;
      while j < tileCol
        invariant 0 <= j <= tileCol && input[..] == src
        invariant forall b, d :: 0 <= b < i && 0 <= d < tileCol ==> TileFilled(y, tileCol, y, t, output[..], b, d)
        invariant forall d :: 0 <= d < j ==> TileFilled(y, tileCol, y, t, output[..], i, d)
      {
        ghost var s := output[..];
        var tileInput := Mul(Mul(j, tileRow) + i, Mul(y.k, y.cols));
        var tileOutput := Mul(Mul(i, tileCol) + j, Mul(y.k, y.cols));
        FillTile(y, tileCol, tileRow, input, output, i, j, tileInput, tileOutput);
        StillFilled(y, tileCol, y, t, s, output[..]);
        j := j + 1;
      }
      i := i + 1;
    }
    TilesFilled(y, tileCol, y, tileRow, t, output[..]);
  }

  lemma TilesFilled(yi: Layout, bi: nat, yo: Layout, bo: nat, t: seq<Word>, s: seq<Word>)
    requires yi.Valid() && IsBuffer(yo, Mul(bi, yi.k), bo, t) && |s| == |t|
    requires forall b, d :: 0 <= b < bo && 0 <= d < bi ==> TileFilled(yi, bi, yo, t, s, b, d)
    ensures s == t
  {
    hide Mul, Filled;
    forall b, d, m, n, j | 0 <= b < bo && 0 <= d < bi && 0 <= m < yi.cols && 0 <= n < yi.l.per && 0 <= j < yo.cols
      ensures Filled(yi, bi, yo, t, s, b, d, m, n, j)
    {
      assert TileFilled(yi, bi, yo, t, s, b, d);
      assert RowFilled(yi, bi, yo, t, s, b, d, m, n);
    }
    AllFilled(yi, bi, yo, bo, t, s);
  }

  // ----- row-major

  /** Row-major buffers have a single block. */
  ghost function Plain(l: Lanes, words: nat): Layout {
    Layout(l, words, Mul(words, l.per))
  }

  lemma PlainPos(l: Lanes, words: nat, rows: nat, r: nat, j: nat)
    ensures Pos(Plain(l, words), rows, 0, r, j) == Mul(r, words) + j
    ensures ColumnOf(Plain(l, words), 0, j, 0) == Mul(j, l.per)
  {
    MulNone(Mul(rows, words));
    MulNone(Mul(words, l.per));
  }

  /** The `per` words that come from one group of `per` input words. */
  method FillGroup(l: Lanes, input: array<Word>, output: array<Word>, widthTile: nat, heightTile: nat, i: nat, j: nat)
    requires Transposable(Plain(l, widthTile), 1, Plain(l, heightTile), 1, input[..]) && input != output
    requires output.Length == |TransposedBuffer(Plain(l, widthTile), 1, Plain(l, heightTile), 1, input[..])|
    requires i < heightTile && j < widthTile
    modifies output
    ensures var t := TransposedBuffer(Plain(l, widthTile), 1, Plain(l, heightTile), 1, input[..]);
            && Toward(t, old(output[..]), output[..])
            && forall k :: 0 <= k < l.per ==> Filled(Plain(l, widthTile), 1, Plain(l, heightTile), t, output[..], 0, 0, j, k, i)
  {
    hide Mul, TransposedBuffer, Gathered, Pack, Filled;
    ghost var yi, yo := Plain(l, widthTile), Plain(l, heightTile);
    ghost var src, t, s0 := input[..], TransposedBuffer(yi, 1, yo, 1, input[..]), output[..];
    var k := 0;
    while k < l.per
      invariant 0 <= k <= l.per && input[..] == src && Toward(t, s0, output[..])
      invariant forall n :: 0 <= n < k ==> Filled(yi, 1, yo, t, output[..], 0, 0, j, n, i)
    {
      TransposedWord(yi, 1, yo, 1, src, 0, 0, j, k, i);
      PlainPos(l, heightTile, Mul(1, yi.k), Mul(j, l.per) + k, i);
      PlainPos(l, widthTile, Mul(1, yo.k), Mul(i, l.per), j);
      PlainColumn(l, widthTile, j, k);
      PlainColumn(l, heightTile, i, 0);
      var result := GatherLanes(l, input, Mul(Mul(i, l.per), widthTile) + j, widthTile, k);
      ghost var s := output[..];
      output[Mul(Mul(j, l.per) + k, heightTile) + i] := result;
      ghost var p := Pos(yo, Mul(1, yi.k), 0, ColumnOf(yi, 0, j, k), i);
      assert output[..] == s[p := t[p]];
      FilledNext(yi, 1, yo, t, s, output[..], 0, 0, j, k, i);
      k := k + 1;
    }
  }

  lemma PlainColumn(l: Lanes, words: nat, j: nat, n: nat)
    ensures ColumnOf(Plain(l, words), 0, j, n) == Mul(j, l.per) + n
  {
    MulNone(Mul(words, l.per));
  }

  /** The row-major form, group by group. */
  method TransposeRowMajor(l: Lanes, input: array<Word>, output: array<Word>, width: nat, height: nat)
    requires l.Valid() && input != output
    requires Transposable(Plain(l, width / l.per), 1, Plain(l, height / l.per), 1, input[..])
    requires output.Length == |TransposedBuffer(Plain(l, width / l.per), 1, Plain(l, height / l.per), 1, input[..])|
    modifies output
    ensures output[..] == TransposedBuffer(Plain(l, width / l.per), 1, Plain(l, height / l.per), 1, input[..])
  {
    hide Mul, TransposedBuffer, RowFilled;
    var heightTile, widthTile := height / l.per, width / l.per;
    ghost var yi, yo := Plain(l, widthTile), Plain(l, heightTile);
    ghost var src, t := input[..], TransposedBuffer(yi, 1, yo, 1, input[..]);
    var i := 0;
    while i < heightTile
      invariant 0 <= i <= heightTile && input[..] == src
      invariant forall r, c :: 0 <= r < i && 0 <= c < widthTile ==> GroupFilled(yi, yo, t, output[..], r, c)
    {
      var j := 0;
      while j < widthTile
        invariant 0 <= j <= widthTile && input[..] == src
        invariant forall r, c :: 0 <= r < i && 0 <= c < widthTile ==> GroupFilled(yi, yo, t, output[..], r, c)
        invariant forall c :: 0 <= c < j ==> GroupFilled(yi, yo, t, output[..], i, c)
      {
        ghost var s := output[..];
        FillGroup(l, input, output, widthTile, heightTile, i, j);
        GroupsStay(yi, yo, t, s, output[..]);
        j := j + 1;
      }
      i := i + 1;
    }
    GroupsFilled(yi, yo, t, output[..]);
  }

  ghost predicate GroupFilled(yi: Layout, yo: Layout, t: seq<Word>, s: seq<Word>, i: nat, j: nat) {
    forall n :: 0 <= n < yi.l.per ==> Filled(yi, 1, yo, t, s, 0, 0, j, n, i)
  }

  lemma GroupsStay(yi: Layout, yo: Layout, t: seq<Word>, s: seq<Word>, s': seq<Word>)
    requires Toward(t, s, s')
    ensures forall i, j :: GroupFilled(yi, yo, t, s, i, j) ==> GroupFilled(yi, yo, t, s', i, j)
  {
    hide Mul, Pos, ColumnOf;
    forall i: nat, j: nat | GroupFilled(yi, yo, t, s, i, j)
      ensures GroupFilled(yi, yo, t, s', i, j)
    {
      forall n | 0 <= n < yi.l.per
        ensures Filled(yi, 1, yo, t, s', 0, 0, j, n, i)
      {
        assert Filled(yi, 1, yo, t, s, 0, 0, j, n, i);
      }
    }
  }

  lemma GroupsFilled(yi: Layout, yo: Layout, t: seq<Word>, s: seq<Word>)
    requires yi.Valid() && IsBuffer(yo, Mul(1, yi.k), 1, t) && |s| == |t|
    requires forall i, j :: 0 <= i < yo.cols && 0 <= j < yi.cols ==> GroupFilled(yi, yo, t, s, i, j)
    ensures s == t
  {
    hide Mul, Filled;
    forall b, d, m, n, j | 0 <= b < 1 && 0 <= d < 1 && 0 <= m < yi.cols && 0 <= n < yi.l.per && 0 <= j < yo.cols
      ensures Filled(yi, 1, yo, t, s, b, d, m, n, j)
    {
      assert GroupFilled(yi, yo, t, s, j, m);
    }
    AllFilled(yi, 1, yo, 1, t, s);
  }
}
