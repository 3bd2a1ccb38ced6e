/** The words the formats consist of, as numbers and positions. */
module FormatLaws {
  import opened Arith
  import opened Words
  import opened Bits
  import opened Machine
  import opened TileProduct
  import opened Walks
  import opened Tiles
  import opened Compaction
  import opened Interleaved
  import opened InterleavedEncoder
  import InterleavedLimits
  import opened Multiplier

  // ----- words as 32 binary digits, most significant first

  ghost function Binary(): (l: Lanes)
    ensures l.Valid() && l.bits == 1 && l.per == 32
  {
    MulIs(32, 1);
    Lanes(1, 32)
  }

  lemma BinaryDigit(x: Word, i: nat)
    requires i < 32
    ensures Lane(Binary(), x, i) == if Bit(x, 31 - i) then 1 else 0
  {
    PlaceIsShift(1, 31 - i);
    MulIs(31 - i, 1);
    assert Pow2(1) == 2;
  }

  /** A word is the number with these binary digits exactly if its bits are they. */
  lemma BinaryWord(x: Word, z: seq<int>)
    requires AreLanes(Binary(), z)
    ensures x == Digits(1, z) <==> forall i :: 0 <= i < 32 ==> (Bit(x, 31 - i) <==> z[i] == 1)
  {
    hide Lane, Bit, Digits;
    var l := Binary();
    assert Pow2(1) == 2;
    forall i | 0 <= i < 32
      ensures Lane(l, x, i) == (if Bit(x, 31 - i) then 1 else 0) && Lane(l, Pack(l, z), i) == z[i] && (z[i] == 0 || z[i] == 1)
    {
      BinaryDigit(x, i);
      LaneOfPack(l, z, i);
    }
    if forall i :: 0 <= i < 32 ==> (Bit(x, 31 - i) <==> z[i] == 1) {
      SameLanes(l, x, Pack(l, z));
    }
  }

  // ----- compacted tiles

  /** The words of the tiles, one tile after the other. */
  ghost function Joined(picked: seq<Visit>): seq<Word> {
    if picked == [] then [] else Joined(picked[..|picked| - 1]) + picked[|picked| - 1].tile
  }

  lemma {:induction false} JoinedLength(g: Geometry, picked: seq<Visit>)
    requires forall q :: 0 <= q < |picked| ==> |picked[q].tile| == TileSize(g)
    ensures |Joined(picked)| == Mul(|picked|, TileSize(g))
  {
    if picked != [] {
      JoinedLength(g, picked[..|picked| - 1]);
      MulNext(|picked| - 1, TileSize(g));
    }
  }

  /** A buffer holds the compacted tiles exactly if it starts with their words. */
  lemma {:induction false} CompactIs(g: Geometry, words: seq<Word>, picked: seq<Visit>)
    requires forall q :: 0 <= q < |picked| ==> |picked[q].tile| == TileSize(g)
    ensures Compact(g, words, picked) <==> Joined(picked) <= words
  {
    hide Mul, TileSize, HoldsTile, Compact;
    if picked == [] {
      CompactNone(g, words);
    } else {
      var n := |picked| - 1;
      CompactIs(g, words, picked[..n]);
      JoinedLength(g, picked[..n]);
      CompactSplit(g, words, picked);
      HoldsAfter(g, words, Joined(picked[..n]), picked[n]);
    }
  }

  lemma HoldsAfter(g: Geometry, words: seq<Word>, s: seq<Word>, v: Visit)
    requires |v.tile| == TileSize(g)
    ensures s + v.tile <= words <==> s <= words && HoldsTile(g, words, |s|, v)
  {
    hide TileSize;
    var e := |s| + TileSize(g);
    if e <= |words| {
      assert words[..e] == words[..|s|] + words[|s|..e];
      assert (s + v.tile)[|s|..] == v.tile;
    }
  }

  lemma CompactSplit(g: Geometry, words: seq<Word>, picked: seq<Visit>)
    requires picked != []
    ensures var n := |picked| - 1;
            Compact(g, words, picked) <==>
              Compact(g, words, picked[..n]) && HoldsTile(g, words, Mul(n, TileSize(g)), picked[n])
  {
    hide Mul, TileSize, HoldsTile;
    var n := |picked| - 1;
    MulNext(n, TileSize(g));
    HoldsRoom(g, words, Mul(n, TileSize(g)), picked[n]);
    assert picked[..n] + [picked[n]] == picked;
  }

  lemma HoldsRoom(g: Geometry, words: seq<Word>, at: nat, v: Visit)
    ensures HoldsTile(g, words, at, v) ==> at + TileSize(g) <= |words|
  {
  }

  // ----- the flag format

  /** The flag words are numbers whose digits, most significant first, are set exactly for the zero tiles. */
  lemma FlagDigits(vs: seq<Visit>, flag: seq<Word>, zs: seq<seq<int>>)
    requires |zs| == |flag|
    requires forall p :: 0 <= p < |zs| ==> |zs[p]| == 32 && AreLanes(Binary(), zs[p]) && flag[p] == Digits(1, zs[p])
    ensures MarksZeros(vs, flag)
       <==> |vs| <= 32 * |flag| && forall p, i :: 0 <= p < |zs| && 0 <= i < 32 && 32 * p + i < |vs| ==>
              (zs[p][i] == 1 <==> ZeroTile(vs[32 * p + i].tile))
  {
    hide Digits, ZeroTile, FlagBit, AreLanes;
    if |vs| <= 32 * |flag| {
      forall p, i | 0 <= p < |zs| && 0 <= i < 32
        ensures FlagBit(flag, 32 * p + i) <==> zs[p][i] == 1
      {
        FlagDigit(flag, p, i, zs[p]);
      }
      forall n | 0 <= n < |vs|
        ensures n / 32 < |zs| && (FlagBit(flag, n) <==> zs[n / 32][n % 32] == 1)
      {
        FlagDigit(flag, n / 32, n % 32, zs[n / 32]);
      }
    }
  }

  lemma FlagDigit(flag: seq<Word>, p: nat, i: nat, z: seq<int>)
    requires p < |flag| && i < 32 && AreLanes(Binary(), z) && flag[p] == Digits(1, z)
    ensures |z| == 32 && (FlagBit(flag, 32 * p + i) <==> z[i] == 1)
  {
    hide Bit, Digits;
    BinaryWord(flag[p], z);
    assert (32 * p + i) / 32 == p && (32 * p + i) % 32 == i;
    assert Bit(flag[p], 31 - i) <==> z[i] == 1;
  }

  /** The word 0x80000000 drops the first tile and no other. */
  lemma FirstFlag(vs: seq<Visit>)
    requires |vs| <= 32
    ensures MarksZeros(vs, [0x8000_0000]) <==> forall n :: 0 <= n < |vs| ==> (ZeroTile(vs[n].tile) <==> n == 0)
  {
    hide Bit, ZeroTile;
    Pow2Table();
    Pow2Add(1, 31);
    assert Pow2(1) == 2 && Pow2(31) == 0x8000_0000;
    forall n | 0 <= n < |vs|
      ensures FlagBit([0x8000_0000], n) <==> n == 0
    {
      OneBit(31, 31 - n);
    }
  }

  // ----- interleaved bitmaps

  /** Word `p` of the bitmap of column `j`: bit i, from the least significant, stands for tile 32p + i. */
  lemma BitmapWord(g: Geometry, vs: seq<Visit>, tileRows: nat, j: nat, words: seq<Word>, p: nat, z: seq<int>)
    requires TileSize(g) >= 1 && BlockRight(g, vs, tileRows, j, words) && p < MetaWords(tileRows)
    requires AreLanes(Binary(), z) && forall i :: 0 <= i < 32 ==> (z[i] == 1 <==> Present(vs, tileRows, j, 32 * p + 31 - i))
    ensures Mul(j, tileRows) <= |vs| && Start(g, vs, tileRows, j) + 1 + p < |words|
    ensures words[Start(g, vs, tileRows, j) + 1 + p] == Digits(1, z)
  {
    hide Start, TilePos, TilesRight, Mul, Count, Bit, Digits, MetaWords;
    var at := Start(g, vs, tileRows, j);
    BlockEnds(g, vs, tileRows, j);
    CountMono(vs, Mul(j, tileRows), Mul(j, tileRows) + tileRows);
    TilePosMono(g, tileRows, j, Count(vs, Mul(j, tileRows)), Count(vs, Mul(j, tileRows) + tileRows));
    forall i | 0 <= i < 32
      ensures Bit(words[at + 1 + p], 31 - i) <==> z[i] == 1
    {
      var b := 32 * p + (31 - i);
      assert b / 32 == p && b % 32 == 31 - i && b < 32 * MetaWords(tileRows);
      assert MetaBit(words, at, b) <==> Present(vs, tileRows, j, b);
    }
    BinaryWord(words[at + 1 + p], z);
  }

  /** A block starts with its own length, which leads to the next block; the first block starts at 0. */
  lemma BlockLength(g: Geometry, vs: seq<Visit>, tileRows: nat, j: nat, words: seq<Word>)
    requires BlockRight(g, vs, tileRows, j, words)
    ensures Mul(j + 1, tileRows) <= |vs| && Start(g, vs, tileRows, 0) == 0 && Start(g, vs, tileRows, j) < |words|
    ensures var at, n := Start(g, vs, tileRows, j), |Between(vs, Mul(j, tileRows), Mul(j + 1, tileRows))|;
            words[at] == 1 + MetaWords(tileRows) + Mul(n, TileSize(g)) && at + words[at] == Start(g, vs, tileRows, j + 1)
  {
    hide Start, TilePos, Mul, Picked, BlockRight, MetaWords;
    BlockFits(g, vs, tileRows, j, words);
    BlockEnds(g, vs, tileRows, j);
    StartFirst(g, vs, tileRows);
    var c, e := Count(vs, Mul(j, tileRows)), Count(vs, Mul(j, tileRows) + tileRows);
    PickedPrefix(vs, Mul(j, tileRows), Mul(j, tileRows) + tileRows);
    InterleavedLimits.TilesBetween(g, tileRows, j, c, e);
  }

  /** The tiles of the column that are not all zero follow the bitmap, one after the other. */
  lemma BlockTiles(g: Geometry, vs: seq<Visit>, tileRows: nat, j: nat, words: seq<Word>, q: nat)
    requires BlockRight(g, vs, tileRows, j, words) && Mul(j, tileRows) + tileRows <= |vs|
    requires q < |Between(vs, Mul(j, tileRows), Mul(j, tileRows) + tileRows)|
    ensures HoldsTile(g, words, Start(g, vs, tileRows, j) + 1 + MetaWords(tileRows) + Mul(q, TileSize(g)),
                      Between(vs, Mul(j, tileRows), Mul(j, tileRows) + tileRows)[q])
  {
    hide Start, TilePos, Mul, Picked, BitsRight, MetaWords;
    var n, e := Mul(j, tileRows), Mul(j, tileRows) + tileRows;
    BlockEnds(g, vs, tileRows, j);
    PickedPrefix(vs, n, e);
    InterleavedLimits.TilesBetween(g, tileRows, j, Count(vs, n), Count(vs, n) + q);
    assert Between(vs, n, e)[q] == Picked(vs, e)[Count(vs, n) + q];
  }

  /** The allocated length, from the number of weight rows and of words in a row. */
  lemma SizeFormula(g: Geometry, tileRows: nat, tileCols: nat, nRow: nat, nCol: nat, area: nat)
    requires nRow == tileRows * g.k && nCol == tileCols * g.wgtCols && area == nRow * nCol
    requires g.k > 0 && 32 * (g.k * g.k) > 0
    ensures NewKernelSize(g, tileRows, tileCols)
         == 100 + area + (area * g.wgtCols) / (32 * (g.k * g.k)) + (nCol * g.wgtCols) / g.k
  {
    hide Mul;
    MulIs(tileRows, g.k);
    MulIs(tileCols, g.wgtCols);
    MulIs(nRow, nCol);
    MulIs(area, g.wgtCols);
    MulIs(g.k, g.k);
    MulIs(32, g.k * g.k);
    MulIs(nCol, g.wgtCols);
  }
}
