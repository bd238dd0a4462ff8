/**
 * What a move does to one line, read in walking order (from the edge the
 * tiles move towards). A move is: pack the tiles against the edge, walk
 * the line merging equal neighbours once, and pack again.
 */
module Lines {
  import opened Cells

  /** The occupied cells of a line, in walking order. */
  function NonEmpty(s: seq<Cell>): (r: seq<Cell>)
    ensures |r| == Total(TileCount, s)
    ensures Total(ValueSum, r) == Total(ValueSum, s)
    ensures forall i | 0 <= i < |r| :: r[i].Some? && r[i] in s
  {
    if s == [] then []
    else
      var rest := NonEmpty(s[1..]);
      if s[0].Some? then
        assert ([s[0]] + rest)[1..] == rest;
        [s[0]] + rest
      else
        rest
  }

  lemma {:induction false} NonEmptyConcat(a: seq<Cell>, b: seq<Cell>)
    ensures NonEmpty(a + b) == NonEmpty(a) + NonEmpty(b)
  {
    if a == [] {
      assert a + b == b;
    } else {
      assert (a + b)[1..] == a[1..] + b;
      NonEmptyConcat(a[1..], b);
    }
  }

  /** A line without empty cells is its own list of tiles, and vice versa. */
  lemma NonEmptyOfFull(s: seq<Cell>)
    ensures NonEmpty(s) == s <==> forall i | 0 <= i < |s| :: s[i].Some?
  {
    TileCountFull(s);
    if forall i | 0 <= i < |s| :: s[i].Some? {
      NonEmptyOfFullRec(s);
    }
  }

  lemma {:induction false} NonEmptyOfFullRec(s: seq<Cell>)
    requires forall i | 0 <= i < |s| :: s[i].Some?
    ensures NonEmpty(s) == s
  {
    if s != [] {
      NonEmptyOfFullRec(s[1..]);
    }
  }

  lemma NonEmptyOfEmpties(n: nat)
    ensures NonEmpty(Empties(n)) == []
  {
    TotalEmpties(TileCount, n);
  }

  /** All tiles come before all empty cells: the first (tile count) cells are the occupied ones. */
  predicate IsPacked(s: seq<Cell>) {
    forall i | 0 <= i < |s| :: s[i].Some? <==> i < Total(TileCount, s)
  }

  /**
   * The collapse of one line: its tiles, in order, against the edge, and
   * the rest of the line empty.
   */
  function Packed(s: seq<Cell>): (r: seq<Cell>)
    ensures |r| == |s|
    ensures NonEmpty(r) == NonEmpty(s)
    ensures Total(ValueSum, r) == Total(ValueSum, s)
    ensures Total(TileCount, r) == Total(TileCount, s)
  {
    var tiles := NonEmpty(s);
    TileCountFull(s);
    var r := tiles + Empties(|s| - |tiles|);
    NonEmptyConcat(tiles, Empties(|s| - |tiles|));
    NonEmptyOfEmpties(|s| - |tiles|);
    NonEmptyOfFull(tiles);
    assert NonEmpty(r) == NonEmpty(s);
    TotalConcat(ValueSum, tiles, Empties(|s| - |tiles|));
    TotalEmpties(ValueSum, |s| - |tiles|);
    r
  }

  /** The collapse packs: tiles first, then empty cells. */
  lemma PackedIsPacked(s: seq<Cell>)
    ensures IsPacked(Packed(s))
  {
    var tiles := NonEmpty(s);
    var r := Packed(s);
    assert r == tiles + Empties(|s| - |tiles|);
    assert Total(TileCount, r) == |tiles|;
  }

  /** A run of tiles followed by empty cells is already collapsed. */
  lemma PackedOfTilesThenEmpties(a: seq<Cell>, n: nat)
    requires forall i | 0 <= i < |a| :: a[i].Some?
    ensures Packed(a + Empties(n)) == a + Empties(n)
  {
    NonEmptyConcat(a, Empties(n));
    NonEmptyOfFull(a);
    NonEmptyOfEmpties(n);
    assert NonEmpty(a + Empties(n)) == a;
  }

  /** A line is left alone by the collapse exactly when it is already packed. */
  lemma PackedFixpoint(s: seq<Cell>)
    ensures Packed(s) == s <==> IsPacked(s)
  {
    PackedIsPacked(s);
    if IsPacked(s) {
      var c := Total(TileCount, s);
      TileCountFull(s);
      assert s == s[..c] + s[c..];
      NonEmptyConcat(s[..c], s[c..]);
      NonEmptyOfFull(s[..c]);
      TileCountZero(s[c..]);
      assert NonEmpty(s) == s[..c];
      assert Packed(s) == s[..c] + Empties(|s| - c);
    }
  }

  /** Collapsing twice is collapsing once. */
  lemma PackedIdempotent(s: seq<Cell>)
    ensures Packed(Packed(s)) == Packed(s)
  {
    PackedFixpoint(Packed(s));
  }

  /**
   * The early return of the collapse: a line with no empty cell is left as
   * it is, which is also what the general path would produce.
   */
  lemma FastPathAgrees(s: seq<Cell>)
    ensures NonEmpty(s) == s ==> Packed(s) == s
  {
    NonEmptyOfFull(s);
    if NonEmpty(s) == s {
      PackedFixpoint(s);
    }
  }

  /**
   * The merge walk of one line, as the engine runs it: `prev` is the cell
   * last visited. When it holds the same value as the next cell, it is
   * doubled in place, the next cell is cleared, and the cleared cell
   * becomes `prev`, so the doubled tile is never compared again.
   */
  function Scan(prev: Cell, rest: seq<Cell>): (r: seq<Cell>)
    ensures |r| == |rest| + 1
    decreases |rest|
  {
    if rest == [] then [prev]
    else if prev.Some? && prev == rest[0] then [Some(2 * prev.value)] + Scan(None, rest[1..])
    else [prev] + Scan(rest[0], rest[1..])
  }

  /** The merge pass over one line: the walk starts with the first cell as `prev`. */
  function MergeLine(s: seq<Cell>): (r: seq<Cell>)
    ensures |r| == |s|
  {
    if s == [] then [] else Scan(s[0], s[1..])
  }

  /**
   * Reference definition of the merge: the line is cut, from the edge
   * outwards, into equal pairs and single cells; each equal pair of tiles
   * becomes one doubled tile nearer the edge followed by an empty cell.
   */
  function PairUp(s: seq<Cell>): (r: seq<Cell>)
    ensures |r| == |s|
  {
    if |s| >= 2 && s[0].Some? && s[0] == s[1] then [Some(2 * s[0].value), None] + PairUp(s[2..])
    else if s == [] then []
    else [s[0]] + PairUp(s[1..])
  }

  /** The walk with a `previous` cell computes the pairwise merge. */
  lemma {:induction false} ScanIsPairUp(prev: Cell, rest: seq<Cell>)
    ensures Scan(prev, rest) == PairUp([prev] + rest)
    decreases |rest|
  {
    var s := [prev] + rest;
    if rest == [] {
    } else if prev.Some? && prev == rest[0] {
      var tail := rest[1..];
      assert s[2..] == tail;
      if tail != [] {
        ScanIsPairUp(tail[0], tail[1..]);
        assert [tail[0]] + tail[1..] == tail;
      }
    } else {
      ScanIsPairUp(rest[0], rest[1..]);
      assert [rest[0]] + rest[1..] == rest;
      assert s[1..] == rest;
    }
  }

  lemma MergeLineIsPairUp(s: seq<Cell>)
    ensures MergeLine(s) == PairUp(s)
  {
    if s != [] {
      ScanIsPairUp(s[0], s[1..]);
      assert [s[0]] + s[1..] == s;
    }
  }

  /** Two equal tiles side by side somewhere on the line. */
  predicate HasPair(s: seq<Cell>) {
    exists t | 0 <= t < |s| - 1 :: s[t].Some? && s[t] == s[t + 1]
  }

  /**
   * The merge keeps the sum of values, never adds a tile, and each output
   * tile absorbs at most two input tiles: no tile is merged twice.
   */
  lemma {:induction false} PairUpTotals(s: seq<Cell>)
    ensures Total(ValueSum, PairUp(s)) == Total(ValueSum, s)
    ensures Total(TileCount, PairUp(s)) <= Total(TileCount, s)
    ensures 2 * Total(TileCount, PairUp(s)) >= Total(TileCount, s)
    ensures HasPair(s) ==> Total(TileCount, PairUp(s)) < Total(TileCount, s)
  {
    if |s| >= 2 && s[0].Some? && s[0] == s[1] {
      PairUpTotals(s[2..]);
      var r := PairUp(s[2..]);
      assert ([Some(2 * s[0].value), None] + r)[1..] == [None] + r;
      assert ([None] + r)[1..] == r;
      assert s[1..][1..] == s[2..];
    } else if s != [] {
      PairUpTotals(s[1..]);
      var r := PairUp(s[1..]);
      assert ([s[0]] + r)[1..] == r;
      if HasPair(s) {
        var t :| 0 <= t < |s| - 1 && s[t].Some? && s[t] == s[t + 1];
        assert t > 0;
        assert s[1..][t - 1] == s[t] && s[1..][t] == s[t + 1];
        assert HasPair(s[1..]);
      }
    }
  }

  /** Without equal neighbours the merge leaves the line alone. */
  lemma {:induction false} PairUpNoPair(s: seq<Cell>)
    requires !HasPair(s)
    ensures PairUp(s) == s
  {
    if s != [] {
      if |s| >= 2 {
        assert !(s[0].Some? && s[0] == s[1]);
      }
      PairUpNoPair(s[1..]);
    }
  }

  /** Doubling a legal tile gives a legal tile, so the merge keeps values legal. */
  lemma {:induction false} PairUpLegal(s: seq<Cell>)
    requires AllLegal(s)
    ensures AllLegal(PairUp(s))
  {
    if |s| >= 2 && s[0].Some? && s[0] == s[1] {
      PairUpLegal(s[2..]);
      assert IsPowerOfTwo(2 * s[0].value);
    } else if s != [] {
      PairUpLegal(s[1..]);
    }
  }

  lemma PackedLegal(s: seq<Cell>)
    requires AllLegal(s)
    ensures AllLegal(Packed(s))
  {
    var r := Packed(s);
    forall i | 0 <= i < |r| ensures LegalCell(r[i]) {
      if r[i].Some? {
        var tiles := NonEmpty(s);
        assert r == tiles + Empties(|s| - |tiles|);
        assert i < |tiles| && r[i] == tiles[i];
      }
    }
  }

  /** One move of one line: collapse, merge, collapse. */
  function Slide(s: seq<Cell>): (r: seq<Cell>)
    ensures |r| == |s|
  {
    Packed(MergeLine(Packed(s)))
  }

  /**
   * A move keeps the value sum of the line, never adds a tile, and halves
   * the tile count at most (every tile takes part in at most one merge).
   */
  lemma SlideTotals(s: seq<Cell>)
    ensures Total(ValueSum, Slide(s)) == Total(ValueSum, s)
    ensures Total(TileCount, Slide(s)) <= Total(TileCount, s)
    ensures 2 * Total(TileCount, Slide(s)) >= Total(TileCount, s)
  {
    MergeLineIsPairUp(Packed(s));
    PairUpTotals(Packed(s));
  }

  lemma SlideLegal(s: seq<Cell>)
    requires AllLegal(s)
    ensures AllLegal(Slide(s))
  {
    PackedLegal(s);
    MergeLineIsPairUp(Packed(s));
    PairUpLegal(Packed(s));
    PackedLegal(MergeLine(Packed(s)));
  }

  /**
   * A move leaves a line unchanged exactly when the line is already packed
   * and has no two equal tiles side by side.
   */
  lemma SlideFixpoint(s: seq<Cell>)
    ensures Slide(s) == s <==> IsPacked(s) && !HasPair(s)
  {
    PackedFixpoint(s);
    PackedIsPacked(MergeLine(Packed(s)));
    MergeLineIsPairUp(s);
    if IsPacked(s) && !HasPair(s) {
      PairUpNoPair(s);
    }
    if IsPacked(s) && HasPair(s) {
      PairUpTotals(s);
      assert Total(TileCount, Slide(s)) < Total(TileCount, s);
    }
  }

  /** A move that changes a line leaves at least one empty cell on it. */
  lemma SlideChangedLeavesEmpty(s: seq<Cell>)
    requires Slide(s) != s
    ensures exists t | 0 <= t < |s| :: Slide(s)[t] == None
  {
    SlideTotals(s);
    TileCountFull(s);
    TileCountFull(Slide(s));
    if Total(TileCount, s) == |s| {
      SlideFixpoint(s);
      PackedFixpoint(s);
      MergeLineIsPairUp(s);
      PairUpTotals(s);
      if !HasPair(s) {
        PairUpNoPair(s);
      }
    }
    assert Total(TileCount, Slide(s)) < |s|;
  }

  /**
   * A four-cell line opening with two equal tiles: those two merge into the
   * edge cell, and the last two cells merge only with each other.
   */
  lemma MergeLeadingPair(x: nat, c: Cell, e: Cell)
    ensures MergeLine([Some(x), Some(x), c, e])
            == if c.Some? && c == e then [Some(2 * x), None, Some(2 * c.value), None]
               else [Some(2 * x), None, c, e]
  {
    var s := [Some(x), Some(x), c, e];
    assert s[1..] == [Some(x), c, e];
    assert s[1..][1..] == [c, e];
    assert [c, e][1..] == [e];
    assert [e][1..] == [];
    var tail := if c.Some? && c == e then [Some(2 * c.value), None] else [c, e];
    assert Scan(c, [e]) == tail;
    assert Scan(None, [c, e]) == [None] + tail;
    assert Scan(Some(x), [Some(x), c, e]) == [Some(2 * x)] + ([None] + tail);
  }

  /** Two tiles separated by gaps end up side by side at the edge. */
  lemma PackedAcrossGaps(x: Cell, y: Cell)
    requires x.Some? && y.Some?
    ensures Packed([x, None, y, None]) == [x, y, None, None]
  {
    var m := [x, None, y, None];
    assert NonEmpty(m[3..]) == [];
    assert NonEmpty(m[2..]) == [y];
    assert NonEmpty(m[1..]) == [y];
    assert NonEmpty(m) == [x, y];
    assert Empties(2) == [None, None];
  }

  /**
   * Worked example, for any tile value v (2 2 4 _ with v = 2): v v 2v _
   * gives 2v 2v _ _. The doubled tile is not merged again with the 2v.
   */
  lemma ExampleNoChainMerge(v: nat)
    requires v > 0
    ensures Slide([Some(v), Some(v), Some(2 * v), None]) == [Some(2 * v), Some(2 * v), None, None]
  {
    var w: Cell := Some(2 * v);
    var s: seq<Cell> := [Some(v), Some(v), w, None];
    var m: seq<Cell> := [w, None, w, None];
    calc {
      Slide(s);
    ==
      Packed(MergeLine(Packed(s)));
    == { assert s == [Some(v), Some(v), w] + Empties(1);
         PackedOfTilesThenEmpties([Some(v), Some(v), w], 1); }
      Packed(MergeLine(s));
    == { MergeLeadingPair(v, w, None); }
      Packed(m);
    == { PackedAcrossGaps(w, w); }
      [w, w, None, None];
    }
  }

  /** Four equal tiles give two doubled tiles, not one quadrupled tile. */
  lemma ExampleFourEqual(v: nat)
    requires v > 0
    ensures Slide([Some(v), Some(v), Some(v), Some(v)]) == [Some(2 * v), Some(2 * v), None, None]
  {
    var w: Cell := Some(2 * v);
    var s: seq<Cell> := [Some(v), Some(v), Some(v), Some(v)];
    var m: seq<Cell> := [w, None, w, None];
    calc {
      Slide(s);
    ==
      Packed(MergeLine(Packed(s)));
    == { assert s + Empties(0) == s;
         PackedOfTilesThenEmpties(s, 0); }
      Packed(MergeLine(s));
    == { MergeLeadingPair(v, Some(v), Some(v)); }
      Packed(m);
    == { PackedAcrossGaps(w, w); }
      [w, w, None, None];
    }
  }

  /** Three equal tiles v v v _: the pair nearest the edge merges, the third stays. */
  lemma ExampleThreeEqual(v: nat)
    requires v > 0
    ensures Slide([Some(v), Some(v), Some(v), None]) == [Some(2 * v), Some(v), None, None]
  {
    var w: Cell := Some(2 * v);
    var s: seq<Cell> := [Some(v), Some(v), Some(v), None];
    var m: seq<Cell> := [w, None, Some(v), None];
    calc {
      Slide(s);
    ==
      Packed(MergeLine(Packed(s)));
    == { assert s == [Some(v), Some(v), Some(v)] + Empties(1);
         PackedOfTilesThenEmpties([Some(v), Some(v), Some(v)], 1); }
      Packed(MergeLine(s));
    == { MergeLeadingPair(v, Some(v), None); }
      Packed(m);
    == { PackedAcrossGaps(w, Some(v)); }
      [w, Some(v), None, None];
    }
  }
}
