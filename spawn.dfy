/**
 * What happens around a move: the board is seeded with two tiles when it
 * is created, and after a move that changed something one empty cell
 * receives a new tile. The random choices are parameters: a draw picks an
 * entry of the ten-entry TWO_OR_FOUR table, and a draw picks one of the
 * empty cells.
 */
module Spawning {
  import opened Cells
  import opened Geometry
  import opened Lines
  import opened Grid

  /** The table new tile values are drawn from: nine 2s and one 4. */
  const TwoOrFour: seq<nat> := [2, 2, 2, 2, 2, 2, 2, 2, 2, 4]

  /** The entry of TwoOrFour that a draw selects. */
  function PickTwoOrFour(draw: nat): (v: nat)
    ensures v == 2 || v == 4
    ensures v == 4 <==> draw % 10 == 9
  {
    TwoOrFour[draw % 10]
  }

  /** The ids of the empty tiles, in board order. */
  function EmptyIds(ts: seq<Tile>): (ids: seq<nat>)
    ensures |ids| <= |ts|
  {
    if ts == [] then []
    else (if ts[0].content == None then [ts[0].id] else []) + EmptyIds(ts[1..])
  }

  /** An id is listed exactly when some empty tile carries it. */
  lemma {:induction false} EmptyIdsMembers(ts: seq<Tile>, x: nat)
    ensures x in EmptyIds(ts) <==> exists i | 0 <= i < |ts| :: ts[i].id == x && ts[i].content == None
  {
    if ts != [] {
      EmptyIdsMembers(ts[1..], x);
      if x in EmptyIds(ts[1..]) {
        var i :| 0 <= i < |ts[1..]| && ts[1..][i].id == x && ts[1..][i].content == None;
        assert ts[i + 1].id == x;
      }
      if exists i | 0 <= i < |ts| :: ts[i].id == x && ts[i].content == None {
        var i :| 0 <= i < |ts| && ts[i].id == x && ts[i].content == None;
        if i > 0 {
          assert ts[1..][i - 1] == ts[i];
        }
      }
    }
  }

  /** The empty cells of board g, as indices in increasing order. */
  function EmptyCells(g: seq<Cell>): (ids: seq<nat>)
    ensures forall x: nat :: x in ids <==> x < |g| && g[x] == None
  {
    var ts := Tiles(g);
    forall x: nat ensures x in EmptyIds(ts) <==> x < |g| && g[x] == None {
      EmptyIdsMembers(ts, x);
    }
    EmptyIds(ts)
  }

  /** A board with an empty cell has a non-empty list of empty cells. */
  lemma EmptyCellsNonEmpty(g: seq<Cell>)
    requires exists i | 0 <= i < |g| :: g[i] == None
    ensures |EmptyCells(g)| > 0
  {
    var e: nat :| e < |g| && g[e] == None;
    assert e in EmptyCells(g);
  }

  /** The empty cell a draw selects: the (cellDraw mod #empty)-th empty cell. */
  function ChosenEmpty(g: seq<Cell>, cellDraw: nat): (p: nat)
    requires exists i | 0 <= i < |g| :: g[i] == None
    ensures p < |g| && g[p] == None
  {
    EmptyCellsNonEmpty(g);
    var ids := EmptyCells(g);
    assert ids[cellDraw % |ids|] in ids;
    ids[cellDraw % |ids|]
  }

  /**
   * One empty cell, chosen by cellDraw among the empty cells, receives
   * the value valueDraw selects: exactly one empty cell becomes a 2 or a 4
   * and every other cell keeps its content, so the board gains one tile
   * and its value sum grows by the new value.
   */
  function Spawn(g: seq<Cell>, cellDraw: nat, valueDraw: nat): (r: seq<Cell>)
    requires exists i | 0 <= i < |g| :: g[i] == None
    ensures |r| == |g|
    ensures exists p | 0 <= p < |g| :: g[p] == None && r[p] == Some(PickTwoOrFour(valueDraw))
                                        && forall i | 0 <= i < |g| && i != p :: r[i] == g[i]
    ensures Total(TileCount, r) == Total(TileCount, g) + 1
    ensures Total(ValueSum, r) == Total(ValueSum, g) + PickTwoOrFour(valueDraw)
  {
    var p := ChosenEmpty(g, cellDraw);
    var x: Cell := Some(PickTwoOrFour(valueDraw));
    TotalUpdate(TileCount, g, p, x);
    TotalUpdate(ValueSum, g, p, x);
    g[p := x]
  }

  lemma IndexOfMember(ids: seq<nat>, p: nat)
    requires p in ids
    ensures exists c: nat :: c < |ids| && ids[c] == p
  {
  }

  /** Every empty cell is the one some cell draw selects. */
  lemma SpawnReachesEveryEmptyCell(g: seq<Cell>, p: nat, valueDraw: nat)
    requires p < |g| && g[p] == None
    ensures exists cellDraw: nat :: Spawn(g, cellDraw, valueDraw) == g[p := Some(PickTwoOrFour(valueDraw))]
  {
    var ids := EmptyCells(g);
    assert p in ids;
    IndexOfMember(ids, p);
    var c: nat :| c < |ids| && ids[c] == p;
    assert c % |ids| == c;
    assert ChosenEmpty(g, c) == p;
    assert Spawn(g, c, valueDraw) == g[p := Some(PickTwoOrFour(valueDraw))];
  }

  /**
   * The whole effect of a key press on the board contents: move, and when
   * the board changed, spawn one tile. A board the move left alone gets no
   * new tile.
   */
  function MoveOutcome(g: seq<Cell>, d: Direction, height: nat, width: nat, cellDraw: nat, valueDraw: nat): (r: seq<Cell>)
    requires |g| == height * width
    ensures |r| == |g|
  {
    var moved := MoveGrid(g, d, height, width);
    if moved == g then g
    else
      MoveChangedLeavesEmpty(g, d, height, width);
      Spawn(moved, cellDraw, valueDraw)
  }

  /**
   * A key press leaves the board as it was exactly when the move itself
   * changes nothing; otherwise the value sum grows by the spawned 2 or 4
   * and the tile count grows by at most one.
   */
  lemma MoveOutcomeTotals(g: seq<Cell>, d: Direction, height: nat, width: nat, cellDraw: nat, valueDraw: nat)
    requires |g| == height * width
    ensures var r := MoveOutcome(g, d, height, width, cellDraw, valueDraw);
            (r == g <==> MoveGrid(g, d, height, width) == g) &&
            (r != g ==> Total(ValueSum, r) == Total(ValueSum, g) + PickTwoOrFour(valueDraw)
                        && Total(TileCount, r) <= Total(TileCount, g) + 1)
  {
    var moved := MoveGrid(g, d, height, width);
    if moved != g {
      MoveChangedLeavesEmpty(g, d, height, width);
      MoveConserves(g, d, height, width);
    }
  }

  /** A key press on a board of legal values leaves only legal values. */
  lemma MoveOutcomeLegal(g: seq<Cell>, d: Direction, height: nat, width: nat, cellDraw: nat, valueDraw: nat)
    requires |g| == height * width && AllLegal(g)
    ensures AllLegal(MoveOutcome(g, d, height, width, cellDraw, valueDraw))
  {
    var moved := MoveGrid(g, d, height, width);
    MoveKeepsLegal(g, d, height, width);
    if moved != g {
      MoveChangedLeavesEmpty(g, d, height, width);
      var r := Spawn(moved, cellDraw, valueDraw);
      forall i | 0 <= i < |r| ensures LegalCell(r[i]) {
        var v := PickTwoOrFour(valueDraw);
        assert IsPowerOfTwo(v) by {
          assert IsPowerOfTwo(1);
          assert IsPowerOfTwo(2);
        }
      }
    }
  }

  /** A permutation of the ids 0 .. n-1, as the shuffle at creation produces. */
  predicate IsShuffle(ids: seq<nat>, n: nat) {
    |ids| == n &&
    (forall i | 0 <= i < n :: ids[i] < n) &&
    (forall i, j | 0 <= i < j < n :: ids[i] != ids[j])
  }

  /** The ids listed among the first k entries of `ids`. */
  function Listed(ids: seq<nat>, k: nat): set<nat>
    requires k <= |ids|
  {
    set i | 0 <= i < k :: ids[i]
  }

  /** The ids 0 .. n-1. */
  function Below(n: nat): set<nat> {
    if n == 0 then {} else Below(n - 1) + {n - 1}
  }

  lemma {:induction false} BelowMembers(n: nat)
    ensures forall x: nat :: x in Below(n) <==> x < n
  {
    if n > 0 {
      BelowMembers(n - 1);
    }
  }

  lemma {:induction false} ListedCard(ids: seq<nat>, k: nat)
    requires k <= |ids|
    requires forall i, j | 0 <= i < j < k :: ids[i] != ids[j]
    ensures |Listed(ids, k)| == k
  {
    if k > 0 {
      ListedCard(ids, k - 1);
      assert Listed(ids, k) == Listed(ids, k - 1) + {ids[k - 1]};
      assert ids[k - 1] !in Listed(ids, k - 1);
    }
  }

  lemma {:induction false} BelowCard(n: nat)
    ensures |Below(n)| == n
  {
    if n > 0 {
      BelowCard(n - 1);
      BelowMembers(n - 1);
      var smaller := Below(n - 1);
      assert Below(n) == smaller + {n - 1};
      assert n - 1 !in smaller;
      assert |smaller + {n - 1}| == |smaller| + 1;
    }
  }

  /**
   * A shuffle of the ids 0 .. n-1 lists every one of them: n distinct ids
   * below n are all the ids below n, so the seeding can reach any cell.
   */
  lemma ShuffleListsEveryId(ids: seq<nat>, n: nat)
    requires IsShuffle(ids, n)
    ensures forall x | 0 <= x < n :: x in ids
  {
    var listed, below := Listed(ids, n), Below(n);
    ListedCard(ids, n);
    BelowCard(n);
    BelowMembers(n);
    assert listed <= below;
    assert |below - listed| == |below| - |listed| == 0;
    forall x | 0 <= x < n ensures x in ids {
      assert x in below;
      assert x in listed;
      var i :| 0 <= i < n && ids[i] == x;
    }
  }

  function Min(a: nat, b: nat): nat {
    if a < b then a else b
  }

  /**
   * The board at creation after the first `count` ids of the shuffle have
   * received a tile: all n cells empty except ids[j] for j < count, which
   * holds the value draws[j] selects.
   */
  function Seeded(n: nat, ids: seq<nat>, draws: seq<nat>, count: nat): (g: seq<Cell>)
    requires IsShuffle(ids, n) && count <= n && count <= |draws|
    ensures |g| == n
  {
    if count == 0 then Empties(n)
    else Seeded(n, ids, draws, count - 1)[ids[count - 1] := Some(PickTwoOrFour(draws[count - 1]))]
  }

  /**
   * After `count` seeds the board holds exactly `count` tiles, each a 2 or
   * a 4, on the first `count` ids of the shuffle, and every other cell is
   * empty. A new board is seeded with count = min(2, n).
   */
  lemma {:induction false} SeededShape(n: nat, ids: seq<nat>, draws: seq<nat>, count: nat)
    requires IsShuffle(ids, n) && count <= n && count <= |draws|
    ensures var g := Seeded(n, ids, draws, count);
            Total(TileCount, g) == count &&
            (forall i | 0 <= i < n :: g[i].Some? <==> exists j | 0 <= j < count :: ids[j] == i) &&
            (forall i | 0 <= i < n && g[i].Some? :: g[i].value == 2 || g[i].value == 4)
  {
    var g := Seeded(n, ids, draws, count);
    if count == 0 {
      TotalEmpties(TileCount, n);
    } else {
      var c := count - 1;
      var prev := Seeded(n, ids, draws, c);
      SeededShape(n, ids, draws, c);
      assert prev[ids[c]] == None;
      TotalUpdate(TileCount, prev, ids[c], Some(PickTwoOrFour(draws[c])));
    }
  }

  /** Every value on a new board is legal. */
  lemma SeededLegal(n: nat, ids: seq<nat>, draws: seq<nat>, count: nat)
    requires IsShuffle(ids, n) && count <= n && count <= |draws|
    ensures AllLegal(Seeded(n, ids, draws, count))
  {
    SeededShape(n, ids, draws, count);
    assert IsPowerOfTwo(2) && IsPowerOfTwo(4) by {
      assert IsPowerOfTwo(1);
    }
  }
}
