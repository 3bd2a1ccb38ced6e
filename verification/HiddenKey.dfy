/**
 * Hidden key: every zero tile is replaced by one key word. The decoder takes a word equal to the key for a
 * dropped tile, so the format is exact as long as no other tile starts with the key.
 */
module HiddenKey {
  import opened Arith
  import opened Words
  import opened Machine
  import opened TileProduct
  import opened Walks
  import opened Tiles
  import opened Compaction

  /** The encoding of the first `n` tiles. */
  ghost function Encoded(vs: seq<Visit>, key: Word, n: nat): (ws: seq<Word>)
    requires n <= |vs|
  {
    if n == 0 then []
    else Encoded(vs, key, n - 1) + if ZeroTile(vs[n - 1].tile) then [key] else vs[n - 1].tile
  }

  lemma {:induction false} EncodedRoom(g: Geometry, vs: seq<Visit>, key: Word, n: nat)
    requires n <= |vs| && TileSize(g) >= 1 && forall i :: 0 <= i < |vs| ==> |vs[i].tile| == TileSize(g)
    ensures |Encoded(vs, key, n)| <= Mul(n, TileSize(g))
    decreases n
  {
    hide ZeroTile;
    if n > 0 {
      EncodedRoom(g, vs, key, n - 1);
    }
  }

  lemma {:induction false} EncodedPrefix(vs: seq<Visit>, key: Word, m: nat, n: nat)
    requires m <= n <= |vs|
    ensures Encoded(vs, key, m) <= Encoded(vs, key, n)
    decreases n
  {
    hide ZeroTile;
    if m < n {
      EncodedPrefix(vs, key, m, n - 1);
    }
  }

  lemma TileSizePositive(g: Geometry)
    requires g.Valid()
    ensures TileSize(g) >= 1
  {
    ColsFacts(g);
    MulFits(g.k, g.wgtCols, 0);
  }

  /** All tiles in storage order, with the key in place of each zero tile. */
  method InterleaveHiddenFlagZeroFree(g: Geometry, kernel: array<Word>, tileRows: nat, tileCols: nat, hiddenFlag: Word)
    returns (newKernel: array<Word>)
    requires g.Valid() && IsTileGrid(g, tileRows, tileCols, kernel[..])
    ensures fresh(newKernel) && newKernel.Length == kernel.Length
    ensures var vs := TileVisits(g, tileRows, tileCols, kernel[..]); Encoded(vs, hiddenFlag, |vs|) <= newKernel[..]
  {
    hide Mul, ZeroTile, TileVisit, Splice, Encoded;
    ghost var vs := TileVisits(g, tileRows, tileCols, kernel[..]);
    newKernel := new Word[kernel.Length](_ => 0);
    EncodedNone(vs, hiddenFlag);
    MulSwap(tileRows, tileCols);
    MulNone(tileCols);
    var cursor, i := 0, 0;
    while i < tileRows
      invariant 0 <= i <= tileRows && Mul(i, tileCols) <= |vs|
      invariant cursor == |Encoded(vs, hiddenFlag, Mul(i, tileCols))| <= newKernel.Length
      invariant newKernel[..cursor] == Encoded(vs, hiddenFlag, Mul(i, tileCols))
    {
      MulFits(tileRows, tileCols, i);
      MulNext(i, tileCols);
      var j := 0;
      while j < tileCols
        invariant 0 <= j <= tileCols
        invariant cursor == |Encoded(vs, hiddenFlag, Mul(i, tileCols) + j)| <= newKernel.Length
        invariant newKernel[..cursor] == Encoded(vs, hiddenFlag, Mul(i, tileCols) + j)
      {
        cursor := AppendKeyed(g, kernel, tileRows, tileCols, newKernel, cursor, hiddenFlag, vs, Mul(i, tileCols) + j);
        j := j + 1;
      }
      i := i + 1;
    }
  }

  /** Append the n-th tile, or the key if the tile is all zero. */
  method AppendKeyed(g: Geometry, kernel: array<Word>, tileRows: nat, tileCols: nat, dst: array<Word>, cursor: nat,
                     key: Word, ghost vs: seq<Visit>, n: nat) returns (next: nat)
    requires g.Valid() && IsTileGrid(g, tileRows, tileCols, kernel[..]) && vs == TileVisits(g, tileRows, tileCols, kernel[..])
    requires n < |vs| && kernel != dst && dst.Length == kernel.Length
    requires cursor == |Encoded(vs, key, n)| <= dst.Length && dst[..cursor] == Encoded(vs, key, n)
    modifies dst
    ensures next == |Encoded(vs, key, n + 1)| <= dst.Length && dst[..next] == Encoded(vs, key, n + 1)
  {
    hide Mul, ZeroTile, TileVisit, Splice;
    VisitTileIs(g, tileRows, tileCols, kernel[..], n);
    TileSizePositive(g);
    EncodedRoom(g, vs, key, n);
    MulFits(|vs|, TileSize(g), n);
    ghost var dst0 := dst[..];
    var tileIndex := Mul(n, TileSize(g));
    var allZeros := TileAllZeros(g, kernel, tileIndex);
    if allZeros {
      dst[cursor] := key;
      next := cursor + 1;
      assert dst[..next] == dst0[..cursor] + [key];
    } else {
      next := CopyTile(g, kernel, tileIndex, dst, cursor);
      SpliceAt(dst0, cursor, vs[n].tile);
      SpliceBefore(dst0, cursor, vs[n].tile, 0, cursor);
      assert dst[..next] == dst[..][0..cursor] + dst[..][cursor..next];
      assert dst0[0..cursor] == dst0[..cursor];
    }
  }

  lemma EncodedNone(vs: seq<Visit>, key: Word)
    ensures Encoded(vs, key, 0) == []
  {
  }

  // ----- decoding

  /**
   * The visits the decoder makes from tile `n` on when its read position is `pos`; none if it would read outside
   * the buffer.
   */
  ghost function Decoded(g: Geometry, tileRows: nat, tileCols: nat, key: Word, words: seq<Word>, n: nat, pos: nat):
    (r: Option<seq<Visit>>)
    decreases Mul(tileCols, tileRows) - n
  {
    if n >= Mul(tileCols, tileRows) then Some([])
    else if pos >= |words| then None
    else if words[pos] == key then Decoded(g, tileRows, tileCols, key, words, n + 1, pos + 1)
    else if pos + TileSize(g) > |words| then None
    else
      DivMul(tileCols, tileRows, n);
      var rest := Decoded(g, tileRows, tileCols, key, words, n + 1, pos + TileSize(g));
      if rest.None? then None
      else Some([Visit(Col(tileRows, n), n / tileRows, words[pos..pos + TileSize(g)])] + rest.value)
  }

  /** The tiles from `n` on that are not all zero. */
  ghost function Remaining(vs: seq<Visit>, n: nat): (r: seq<Visit>)
    decreases |vs| - n
  {
    if n >= |vs| then []
    else (if ZeroTile(vs[n].tile) then [] else [vs[n]]) + Remaining(vs, n + 1)
  }

  lemma {:induction false} PickedAndRemaining(vs: seq<Visit>, n: nat)
    requires n <= |vs|
    ensures Picked(vs, n) + Remaining(vs, n) == NonZero(vs)
    decreases |vs| - n
  {
    hide Picked, ZeroTile, NonZero, Remaining;
    if n == |vs| {
      PickedAll(vs);
      RemainingNone(vs);
    } else {
      PickedNext(vs, n);
      PickedAndRemaining(vs, n + 1);
      RemainingNext(vs, n);
      Reassociate(Picked(vs, n), vs[n], Remaining(vs, n + 1));
    }
  }

  lemma Reassociate(a: seq<Visit>, v: Visit, b: seq<Visit>)
    ensures a + [v] + b == a + ([v] + b) && a + [] + b == a + b
  {
  }

  lemma RemainingAll(vs: seq<Visit>)
    ensures Remaining(vs, 0) == NonZero(vs)
  {
    hide Picked;
    PickedAll(vs);
    PickedAndRemaining(vs, 0);
  }

  /** Tile `n` cannot be told from a dropped tile. */
  ghost predicate Collides(vs: seq<Visit>, key: Word, n: nat) {
    n < |vs| && !ZeroTile(vs[n].tile) && |vs[n].tile| > 0 && vs[n].tile[0] == key
  }

  /** The word the decoder looks at when it reaches tile `n` in step. */
  lemma NextWords(g: Geometry, vs: seq<Visit>, key: Word, words: seq<Word>, n: nat)
    requires n < |vs| && TileSize(g) >= 1 && |vs[n].tile| == TileSize(g)
    requires Encoded(vs, key, |vs|) <= words
    ensures var pos := |Encoded(vs, key, n)|;
            && pos < |words|
            && (ZeroTile(vs[n].tile) ==> words[pos] == key && pos + 1 == |Encoded(vs, key, n + 1)|)
            && (!ZeroTile(vs[n].tile) ==>
                  && pos + TileSize(g) == |Encoded(vs, key, n + 1)| <= |words|
                  && words[pos..pos + TileSize(g)] == vs[n].tile && words[pos] == vs[n].tile[0])
  {
    hide ZeroTile;
    EncodedPrefix(vs, key, n + 1, |vs|);
    var pos, pos' := |Encoded(vs, key, n)|, |Encoded(vs, key, n + 1)|;
    assert words[..pos'] == Encoded(vs, key, n + 1);
    assert words[pos..pos'] == words[..pos'][pos..];
  }

  /** One tile without collision: the decoder stays in step and reports the tile unless it is zero. */
  lemma StepInStep(g: Geometry, tileRows: nat, tileCols: nat, kernel: seq<Word>, key: Word, words: seq<Word>, n: nat)
    requires TileSize(g) >= 1 && IsTileGrid(g, tileRows, tileCols, kernel)
    requires var vs := TileVisits(g, tileRows, tileCols, kernel);
             n < |vs| && Encoded(vs, key, |vs|) <= words && !Collides(vs, key, n)
    ensures var vs := TileVisits(g, tileRows, tileCols, kernel);
            var here := Decoded(g, tileRows, tileCols, key, words, n, |Encoded(vs, key, n)|);
            var rest := Decoded(g, tileRows, tileCols, key, words, n + 1, |Encoded(vs, key, n + 1)|);
            && (ZeroTile(vs[n].tile) ==> here == rest)
            && (!ZeroTile(vs[n].tile) ==> here == if rest.None? then None else Some([vs[n]] + rest.value))
  {
    hide ZeroTile, Encoded, Tile, Mul;
    NextWords(g, TileVisits(g, tileRows, tileCols, kernel), key, words, n);
  }

  lemma RemainingNone(vs: seq<Visit>)
    ensures Remaining(vs, |vs|) == []
  {
  }

  lemma RemainingNext(vs: seq<Visit>, n: nat)
    requires n < |vs|
    ensures ZeroTile(vs[n].tile) ==> Remaining(vs, n) == Remaining(vs, n + 1)
    ensures !ZeroTile(vs[n].tile) ==> Remaining(vs, n) == [vs[n]] + Remaining(vs, n + 1)
  {
    hide ZeroTile;
  }

  /** Without collisions the decoder finds the tiles that are not all zero. */
  lemma {:induction false} DecodeInStep(g: Geometry, tileRows: nat, tileCols: nat, kernel: seq<Word>, key: Word,
                                        words: seq<Word>, n: nat)
    requires TileSize(g) >= 1 && IsTileGrid(g, tileRows, tileCols, kernel)
    requires var vs := TileVisits(g, tileRows, tileCols, kernel);
             n <= |vs| && Encoded(vs, key, |vs|) <= words && forall i :: n <= i < |vs| ==> !Collides(vs, key, i)
    ensures var vs := TileVisits(g, tileRows, tileCols, kernel);
            Decoded(g, tileRows, tileCols, key, words, n, |Encoded(vs, key, n)|) == Some(Remaining(vs, n))
    decreases Mul(tileCols, tileRows) - n
  {
    hide ZeroTile, Encoded, TileVisit, Collides, Mul;
    var vs := TileVisits(g, tileRows, tileCols, kernel);
    if n < |vs| {
      DecodeInStep(g, tileRows, tileCols, kernel, key, words, n + 1);
      StepInStep(g, tileRows, tileCols, kernel, key, words, n);
      RemainingNext(vs, n);
    }
  }

  /** Everything decoded from tile `n` on has a later place in storage order. */
  lemma {:induction false} DecodedLater(g: Geometry, tileRows: nat, tileCols: nat, key: Word, words: seq<Word>, n: nat, pos: nat)
    requires Decoded(g, tileRows, tileCols, key, words, n, pos).Some?
    requires |Decoded(g, tileRows, tileCols, key, words, n, pos).value| > 0
    ensures var v := Decoded(g, tileRows, tileCols, key, words, n, pos).value[0];
            Mul(v.col, tileRows) + v.row >= n
    decreases Mul(tileCols, tileRows) - n
  {
    if n < Mul(tileCols, tileRows) {
      if words[pos] == key {
        DecodedLater(g, tileRows, tileCols, key, words, n + 1, pos + 1);
      } else {
        DivMul(tileCols, tileRows, n);
      }
    }
  }

  /** At a collision the tile is taken for a dropped one, and what follows cannot make up for it. */
  lemma Collision(g: Geometry, tileRows: nat, tileCols: nat, kernel: seq<Word>, key: Word, words: seq<Word>, n: nat)
    requires TileSize(g) >= 1 && IsTileGrid(g, tileRows, tileCols, kernel)
    requires var vs := TileVisits(g, tileRows, tileCols, kernel);
             n < |vs| && Encoded(vs, key, |vs|) <= words && Collides(vs, key, n)
    ensures var vs := TileVisits(g, tileRows, tileCols, kernel);
            Decoded(g, tileRows, tileCols, key, words, n, |Encoded(vs, key, n)|) != Some(Remaining(vs, n))
  {
    hide ZeroTile, Encoded, Tile, Mul, Remaining;
    var vs := TileVisits(g, tileRows, tileCols, kernel);
    var pos := |Encoded(vs, key, n)|;
    NextWords(g, vs, key, words, n);
    RemainingNext(vs, n);
    var r := Decoded(g, tileRows, tileCols, key, words, n + 1, pos + 1);
    if r.Some? && |r.value| > 0 {
      DecodedLater(g, tileRows, tileCols, key, words, n + 1, pos + 1);
      DivMul(tileCols, tileRows, n);
    }
  }

  /** Up to the first collision the decoder is in step; there it loses a tile. */
  lemma {:induction false} DecodeLoses(g: Geometry, tileRows: nat, tileCols: nat, kernel: seq<Word>, key: Word,
                                       words: seq<Word>, n: nat, bad: nat)
    requires TileSize(g) >= 1 && IsTileGrid(g, tileRows, tileCols, kernel)
    requires var vs := TileVisits(g, tileRows, tileCols, kernel);
             && n <= bad < |vs| && Encoded(vs, key, |vs|) <= words && Collides(vs, key, bad)
             && forall i :: n <= i < bad ==> !Collides(vs, key, i)
    ensures var vs := TileVisits(g, tileRows, tileCols, kernel);
            Decoded(g, tileRows, tileCols, key, words, n, |Encoded(vs, key, n)|) != Some(Remaining(vs, n))
    decreases bad - n
  {
    hide Decoded, Remaining, ZeroTile, Encoded, TileVisit, Collides, Mul;
    var vs := TileVisits(g, tileRows, tileCols, kernel);
    if n == bad {
      Collision(g, tileRows, tileCols, kernel, key, words, n);
    } else {
      DecodeLoses(g, tileRows, tileCols, kernel, key, words, n + 1, bad);
      StepInStep(g, tileRows, tileCols, kernel, key, words, n);
      RemainingNext(vs, n);
      var rest := Decoded(g, tileRows, tileCols, key, words, n + 1, |Encoded(vs, key, n + 1)|);
      if rest.Some? {
        SameTail(vs[n], rest.value, Remaining(vs, n + 1));
      }
    }
  }

  lemma SameTail(v: Visit, a: seq<Visit>, b: seq<Visit>)
    ensures [v] + a == [v] + b ==> a == b
  {
    assert ([v] + a)[1..] == a && ([v] + b)[1..] == b;
  }

  /** The decoder makes exactly the visits to tiles that are not all zero, if and only if no such tile starts with the key. */
  lemma HiddenKeyExact(g: Geometry, tileRows: nat, tileCols: nat, kernel: seq<Word>, key: Word, words: seq<Word>)
    requires g.Valid() && IsTileGrid(g, tileRows, tileCols, kernel)
    requires var vs := TileVisits(g, tileRows, tileCols, kernel); Encoded(vs, key, |vs|) <= words
    ensures var vs := TileVisits(g, tileRows, tileCols, kernel);
            Decoded(g, tileRows, tileCols, key, words, 0, 0) == Some(NonZero(vs))
            <==> forall i :: 0 <= i < |vs| ==> !Collides(vs, key, i)
  {
    hide Decoded, Encoded, Remaining, Collides, TileVisit, Mul;
    var vs := TileVisits(g, tileRows, tileCols, kernel);
    TileSizePositive(g);
    EncodedNone(vs, key);
    RemainingAll(vs);
    if forall i :: 0 <= i < |vs| ==> !Collides(vs, key, i) {
      DecodeInStep(g, tileRows, tileCols, kernel, key, words, 0);
    } else {
      var bad := FirstCollision(vs, key, 0);
      DecodeLoses(g, tileRows, tileCols, kernel, key, words, 0, bad);
    }
  }

  lemma {:induction false} FirstCollision(vs: seq<Visit>, key: Word, n: nat) returns (bad: nat)
    requires exists i :: n <= i < |vs| && Collides(vs, key, i)
    ensures n <= bad < |vs| && Collides(vs, key, bad) && forall i :: n <= i < bad ==> !Collides(vs, key, i)
    decreases |vs| - n
  {
    hide Collides;
    if Collides(vs, key, n) {
      bad := n;
    } else {
      bad := FirstCollision(vs, key, n + 1);
    }
  }
}
