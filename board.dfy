/**
 * The board as the engine holds it: an array of tiles in row-major order,
 * each tile carrying its own index as id. The methods change tile contents
 * in place and never touch an id; each is proved against the value-level
 * definitions of the Lines, Grid and Spawning modules.
 */
module Board {
  import opened Cells
  import opened Geometry
  import opened Lines
  import opened Grid
  import opened Spawning

  /** The tiles of a line that hold a value, in order: the filter the collapse works from. */
  function Occupied(ts: seq<Tile>): (r: seq<Tile>)
    ensures Contents(r) == NonEmpty(Contents(ts))
  {
    if ts == [] then []
    else
      var rest := Occupied(ts[1..]);
      ContentsTail(ts);
      if ts[0].content.Some? then
        ContentsCons(ts[0], rest);
        [ts[0]] + rest
      else
        rest
  }

  /** The filter drops nothing exactly when the line has no empty cell. */
  lemma OccupiedIsWhole(ts: seq<Tile>)
    ensures Occupied(ts) == ts <==> forall i | 0 <= i < |ts| :: ts[i].content.Some?
  {
    NonEmptyOfFull(Contents(ts));
    if forall i | 0 <= i < |ts| :: ts[i].content.Some? {
      OccupiedOfFull(ts);
    }
  }

  lemma {:induction false} OccupiedOfFull(ts: seq<Tile>)
    requires forall i | 0 <= i < |ts| :: ts[i].content.Some?
    ensures Occupied(ts) == ts
  {
    if ts != [] {
      OccupiedOfFull(ts[1..]);
    }
  }

  /** The walk from an equal pair: the pair's first cell doubles and the walk restarts empty. */
  lemma ScanMergeHead(prev: Cell, l0: seq<Cell>, t: nat)
    requires t < |l0| && prev.Some? && prev == l0[t]
    ensures Scan(prev, l0[t..]) == [Some(2 * prev.value)] + Scan(None, l0[t + 1..])
  {
    assert l0[t..][0] == l0[t] && l0[t..][1..] == l0[t + 1..];
  }

  /** The walk from a cell that does not merge: the cell stays and the walk moves on. */
  lemma ScanKeepHead(prev: Cell, l0: seq<Cell>, t: nat)
    requires t < |l0| && !(prev.Some? && prev == l0[t])
    ensures Scan(prev, l0[t..]) == [prev] + Scan(l0[t], l0[t + 1..])
  {
    assert l0[t..][0] == l0[t] && l0[t..][1..] == l0[t + 1..];
  }

  /** Writing x at t-1 and y at t: the prefix up to t ends in x and the rest after t is untouched. */
  lemma UpdatePair(cur: seq<Cell>, t: nat, x: Cell, y: Cell)
    requires 0 < t < |cur|
    ensures var c := cur[t - 1 := x][t := y];
            c[..t] == cur[..t - 1] + [x] && c[t] == y && c[t + 1..] == cur[t + 1..]
  {
  }

  lemma ConcatAssoc(a: seq<Cell>, b: seq<Cell>, c: seq<Cell>)
    ensures (a + b) + c == a + (b + c)
  {
  }

  /**
   * One step of the merge walk along a line, when cell t merges into the
   * previous one. `cur` is the line as written so far, `prev` the content
   * of the cell last visited (position t-1), and `merged` what the whole
   * walk produces (MergeLine of the line).
   */
  lemma ScanStepMerge(l0: seq<Cell>, cur: seq<Cell>, t: nat, prev: Cell, merged: seq<Cell>)
    requires 0 < t < |l0| == |cur|
    requires cur[..t - 1] + Scan(prev, l0[t..]) == merged
    requires cur[t - 1] == prev && cur[t..] == l0[t..]
    requires prev.Some? && prev == l0[t]
    ensures var c := cur[t - 1 := Some(2 * prev.value)][t := None];
            c[..t] + Scan(None, l0[t + 1..]) == merged && c[t] == None && c[t + 1..] == l0[t + 1..]
  {
    var doubled: Cell := Some(2 * prev.value);
    var tail := Scan(None, l0[t + 1..]);
    ScanMergeHead(prev, l0, t);
    UpdatePair(cur, t, doubled, None);
    ConcatAssoc(cur[..t - 1], [doubled], tail);
    assert cur[t + 1..] == cur[t..][1..];
  }

  /** One step of the merge walk, when cell t does not merge: it becomes `prev` as it is. */
  lemma ScanStepKeep(l0: seq<Cell>, cur: seq<Cell>, t: nat, prev: Cell, merged: seq<Cell>)
    requires 0 < t < |l0| == |cur|
    requires cur[..t - 1] + Scan(prev, l0[t..]) == merged
    requires cur[t - 1] == prev && cur[t..] == l0[t..]
    requires !(prev.Some? && prev == l0[t])
    ensures cur[..t] + Scan(l0[t], l0[t + 1..]) == merged && cur[t] == l0[t] && cur[t + 1..] == l0[t + 1..]
  {
    ScanKeepHead(prev, l0, t);
    assert cur[t..][0] == cur[t];
    assert cur[..t] == cur[..t - 1] + [prev];
    ConcatAssoc(cur[..t - 1], [prev], Scan(l0[t], l0[t + 1..]));
    assert cur[t + 1..] == cur[t..][1..];
  }

  /**
   * The merge step on the board: doubling cell t-1 of line k and clearing
   * cell t is the board with the line written so far replaced by its next
   * state, and that state continues the walk.
   */
  lemma MergeStepOnBoard(g: seq<Cell>, d: Direction, height: nat, width: nat, k: nat,
                         l0: seq<Cell>, cur: seq<Cell>, t: nat, prev: Cell, merged: seq<Cell>)
    requires IsArrow(d) && |g| == height * width && k < LineCount(d, height, width)
    requires |l0| == LineLen(d, height, width)
    requires 0 < t < |l0| == |cur|
    requires cur[..t - 1] + Scan(prev, l0[t..]) == merged
    requires cur[t - 1] == prev && cur[t..] == l0[t..]
    requires prev.Some? && prev == l0[t]
    ensures var c := cur[t - 1 := Some(2 * prev.value)][t := None];
            WithLine(g, d, height, width, k, cur)[Pos(d, height, width, k, t - 1) := Some(2 * prev.value)]
                                                 [Pos(d, height, width, k, t) := None]
            == WithLine(g, d, height, width, k, c) &&
            c[..t] + Scan(None, l0[t + 1..]) == merged && c[t] == None && c[t + 1..] == l0[t + 1..]
  {
    var doubled: Cell := Some(2 * prev.value);
    ScanStepMerge(l0, cur, t, prev, merged);
    WithLineUpdate(g, d, height, width, k, cur, t - 1, doubled);
    WithLineUpdate(g, d, height, width, k, cur[t - 1 := doubled], t, None);
  }

  /** When the walk has visited every cell of a non-empty line, the line is merged. */
  lemma ScanEnd(l0: seq<Cell>, cur: seq<Cell>, prev: Cell)
    requires 0 < |l0| == |cur|
    requires cur[..|l0| - 1] + Scan(prev, l0[|l0|..]) == MergeLine(l0)
    requires cur[|l0| - 1] == prev
    ensures cur == MergeLine(l0)
  {
    assert l0[|l0|..] == [];
    assert cur == cur[..|l0| - 1] + [prev];
  }

  /** Writing cell t of a line that agrees with `a` before t and with `b` from t on. */
  lemma PrefixStep(a: seq<Cell>, b: seq<Cell>, t: nat)
    requires |a| == |b| && t < |a|
    ensures (a[..t] + b[t..])[t := a[t]] == a[..t + 1] + b[t + 1..]
  {
  }

  class Board {
    var cells: array<Tile>

    /** Every tile carries its own index as id. */
    ghost predicate Valid()
      reads this, cells
    {
      IdsMatch(cells[..])
    }

    /** The board's contents in row-major order. */
    ghost function View(): seq<Cell>
      reads this, cells
    {
      Contents(cells[..])
    }

    /**
     * A new height x width board: every tile empty, then the first two ids
     * of `shuffled` (fewer on a board of fewer cells) each receive the
     * value their draw selects. `shuffled`, draw0 and draw1 stand for the
     * random shuffle and the two random choices.
     */
    constructor (height: nat, width: nat, shuffled: seq<nat>, draw0: nat, draw1: nat)
      requires IsShuffle(shuffled, height * width)
      ensures Valid() && fresh(cells) && cells.Length == height * width
      ensures View() == Seeded(height * width, shuffled, [draw0, draw1], Min(2, height * width))
    {
      var n := height * width;
      var out := new Tile[n](id => Tile(None, id));
      assert Contents(out[..]) == Empties(n);
      var draws := [draw0, draw1];
      var count := Min(2, n);
      for j := 0 to count
        invariant IdsMatch(out[..])
        invariant Contents(out[..]) == Seeded(n, shuffled, draws, j)
      {
        var id := shuffled[j];
        SetContent(out[..], id, Some(PickTwoOrFour(draws[j])));
        out[id] := out[id].(content := Some(PickTwoOrFour(draws[j])));
      }
      cells := out;
    }

    /** The assignment `tilecontent = x` on the tile at index p: the id stays. */
    method SetTileContent(p: nat, x: Cell)
      requires Valid() && p < cells.Length
      modifies cells
      ensures Valid() && View() == old(View())[p := x]
    {
      SetContent(cells[..], p, x);
      cells[p] := cells[p].(content := x);
    }

    /** Copy out the tiles of line k, in walking order. */
    method ReadLine(d: Direction, height: nat, width: nat, k: nat) returns (line: seq<Tile>)
      requires Valid() && IsArrow(d) && cells.Length == height * width && k < LineCount(d, height, width)
      ensures Contents(line) == Line(View(), d, height, width, k)
    {
      var n := LineLen(d, height, width);
      line := [];
      for t := 0 to n
        invariant |line| == t
        invariant forall j | 0 <= j < t :: line[j] == cells[Pos(d, height, width, k, j)]
      {
        line := line + [cells[Pos(d, height, width, k, t)]];
      }
    }

    /**
     * Collapse line k towards the edge direction d points at: read the
     * line, keep its occupied tiles, and unless none was dropped write
     * them back from the edge and clear the rest of the line.
     */
    method CollapseLine(d: Direction, height: nat, width: nat, k: nat)
      requires Valid() && IsArrow(d) && cells.Length == height * width && k < LineCount(d, height, width)
      modifies cells
      ensures Valid()
      ensures View() == WithLine(old(View()), d, height, width, k, Packed(Line(old(View()), d, height, width, k)))
    {
      ghost var g := View();
      ghost var l0 := Line(g, d, height, width, k);
      var line := ReadLine(d, height, width, k);
      WithLineSame(g, d, height, width, k);
      var collapsed := Occupied(line);
      if collapsed == line {
        OccupiedIsWhole(line);
        NonEmptyOfFull(l0);
        FastPathAgrees(l0);
        return;
      }
      var n := LineLen(d, height, width);
      ghost var tiles := Contents(collapsed);
      TileCountFull(l0);
      WriteTiles(d, height, width, k, collapsed);
      ghost var a := tiles + l0[|collapsed|..];
      LineOfWithLine(g, d, height, width, k, a);
      assert a[..|collapsed|] == tiles;
      ClearFrom(d, height, width, k, |collapsed|);
      WithLineTwice(g, d, height, width, k, a, tiles + Empties(n - |collapsed|));
    }

    /** Set the content of the t-th cell of line k: the line being rewritten gets x at t. */
    method WriteCell(d: Direction, height: nat, width: nat, k: nat, t: nat, x: Cell,
                     ghost g: seq<Cell>, ghost cur: seq<Cell>)
      requires Valid() && IsArrow(d) && cells.Length == height * width && |g| == height * width
      requires k < LineCount(d, height, width) && t < LineLen(d, height, width) == |cur|
      requires View() == WithLine(g, d, height, width, k, cur)
      modifies cells
      ensures Valid() && View() == WithLine(g, d, height, width, k, cur[t := x])
    {
      SetTileContent(Pos(d, height, width, k, t), x);
      WithLineUpdate(g, d, height, width, k, cur, t, x);
    }

    /** Write the contents of `collapsed` into the first cells of line k, from the edge. */
    method WriteTiles(d: Direction, height: nat, width: nat, k: nat, collapsed: seq<Tile>)
      requires Valid() && IsArrow(d) && cells.Length == height * width && k < LineCount(d, height, width)
      requires |collapsed| <= LineLen(d, height, width)
      modifies cells
      ensures Valid()
      ensures View() == WithLine(old(View()), d, height, width, k,
                                 Contents(collapsed) + Line(old(View()), d, height, width, k)[|collapsed|..])
    {
      ghost var g := View();
      ghost var l0 := Line(g, d, height, width, k);
      ghost var target := Contents(collapsed) + l0[|collapsed|..];
      WithLineSame(g, d, height, width, k);
      ghost var cur := l0;
      assert cur == target[..0] + l0[0..];
      for t := 0 to |collapsed|
        invariant Valid() && |cur| == |l0|
        invariant View() == WithLine(g, d, height, width, k, cur)
        invariant cur == target[..t] + l0[t..]
      {
        WriteCell(d, height, width, k, t, collapsed[t].content, g, cur);
        PrefixStep(target, l0, t);
        cur := cur[t := collapsed[t].content];
      }
      assert cur == target;
    }

    /** Clear line k from cell `from` to its far end. */
    method ClearFrom(d: Direction, height: nat, width: nat, k: nat, from: nat)
      requires Valid() && IsArrow(d) && cells.Length == height * width && k < LineCount(d, height, width)
      requires from <= LineLen(d, height, width)
      modifies cells
      ensures Valid()
      ensures View() == WithLine(old(View()), d, height, width, k,
                                 Line(old(View()), d, height, width, k)[..from] + Empties(LineLen(d, height, width) - from))
    {
      ghost var g := View();
      ghost var l0 := Line(g, d, height, width, k);
      var n := LineLen(d, height, width);
      ghost var target := l0[..from] + Empties(n - from);
      WithLineSame(g, d, height, width, k);
      ghost var cur := l0;
      assert target[..from] == l0[..from];
      assert cur == target[..from] + l0[from..];
      for t := from to n
        invariant Valid() && |cur| == n
        invariant View() == WithLine(g, d, height, width, k, cur)
        invariant cur == target[..t] + l0[t..]
      {
        WriteCell(d, height, width, k, t, None, g, cur);
        PrefixStep(target, l0, t);
        cur := cur[t := None];
      }
      assert target[..n] == target && l0[n..] == [];
    }

    /** collapse_left, collapse_right, collapse_up and collapse_down: collapse every line for direction d. */
    method Collapse(d: Direction, height: nat, width: nat)
      requires Valid() && IsArrow(d) && cells.Length == height * width
      modifies cells
      ensures Valid()
      ensures View() == MapLines(old(View()), d, height, width, Pack)
    {
      ghost var g0 := View();
      assert LinesDone(g0, d, height, width, Pack, 0) == g0;
      for k := 0 to LineCount(d, height, width)
        invariant Valid()
        invariant View() == LinesDone(g0, d, height, width, Pack, k)
      {
        WithLineDone(g0, d, height, width, Pack, k);
        CollapseLine(d, height, width, k);
      }
    }

    /**
     * merge_neighbouring: visit cell (h, w). On the first cell of a line it
     * only becomes `previous`. Otherwise, when it holds the same value as
     * `previous`, the previous cell is doubled and this one cleared; the
     * visited cell (cleared or not) is the new `previous`.
     */
    method MergeNeighbouring(h: nat, w: nat, previous: Tile, width: nat, height: nat, direction: Direction)
      returns (next: Tile)
      requires Valid() && PairToIndex(h, w, width) < cells.Length
      requires !LineStart(direction, h, w, height, width) ==> previous.id < cells.Length
      modifies cells
      ensures Valid()
      ensures var here := PairToIndex(h, w, width);
              if LineStart(direction, h, w, height, width) then
                next == old(cells[here]) && View() == old(View())
              else if previous.content.Some? && previous.content == old(cells[here].content) then
                next == Tile(None, here) &&
                View() == old(View())[previous.id := Some(2 * previous.content.value)][here := None]
              else
                next == old(cells[here]) && View() == old(View())
    {
      var i := PairToIndex(h, w, width);
      if LineStart(direction, h, w, height, width) {
        next := cells[i];
      } else {
        var current := cells[i];
        if previous.content == current.content {
          if previous.content.Some? {
            var content := previous.content.value;
            SetTileContent(previous.id, Some(content * 2));
            SetTileContent(current.id, None);
            current := current.(content := None);
          }
        }
        next := current;
      }
    }

    /**
     * The merge pass of a move: walk every line of direction d from the
     * edge outwards, carrying `previous` from cell to cell.
     */
    method MergePass(direction: Direction, height: nat, width: nat)
      requires Valid() && IsArrow(direction) && cells.Length == height * width
      modifies cells
      ensures Valid()
      ensures View() == MapLines(old(View()), direction, height, width, Merge)
    {
      ghost var g0 := View();
      assert LinesDone(g0, direction, height, width, Merge, 0) == g0;
      var previous := Tile(None, 0);
      for k := 0 to LineCount(direction, height, width)
        invariant Valid()
        invariant View() == LinesDone(g0, direction, height, width, Merge, k)
      {
        WithLineDone(g0, direction, height, width, Merge, k);
        previous := MergeAlong(direction, height, width, k, previous);
      }
    }

    /**
     * The merge walk over line k: every cell of the line is visited from
     * the edge outwards by merge_neighbouring, which threads `previous`.
     */
    method MergeAlong(direction: Direction, height: nat, width: nat, k: nat, previous: Tile) returns (last: Tile)
      requires Valid() && IsArrow(direction) && cells.Length == height * width && k < LineCount(direction, height, width)
      modifies cells
      ensures Valid()
      ensures View() == WithLine(old(View()), direction, height, width, k, MergeLine(Line(old(View()), direction, height, width, k)))
    {
      ghost var g := View();
      ghost var l0 := Line(g, direction, height, width, k);
      ghost var merged := MergeLine(l0);
      ghost var cur := l0;
      WithLineSame(g, direction, height, width, k);
      last := previous;
      for t := 0 to LineLen(direction, height, width)
        invariant Valid() && |cur| == |l0|
        invariant View() == WithLine(g, direction, height, width, k, cur)
        invariant t == 0 ==> cur == l0
        invariant t > 0 ==> last.id == Pos(direction, height, width, k, t - 1) && last.content == cur[t - 1]
        invariant t > 0 ==> cur[..t - 1] + Scan(last.content, l0[t..]) == merged && cur[t..] == l0[t..]
      {
        if t == 0 {
          last := VisitFirst(direction, height, width, k, last, g, l0);
        } else {
          last, cur := VisitNext(direction, height, width, k, t, last, g, l0, cur);
        }
      }
      if LineLen(direction, height, width) > 0 {
        ScanEnd(l0, cur, last.content);
      }
    }

    /** The first iteration of the merge walk: merge_neighbouring on the edge cell of line k. */
    method VisitFirst(direction: Direction, height: nat, width: nat, k: nat, last: Tile,
                      ghost g: seq<Cell>, ghost l0: seq<Cell>)
      returns (next: Tile)
      requires Valid() && IsArrow(direction) && cells.Length == height * width
      requires k < LineCount(direction, height, width) && 0 < LineLen(direction, height, width)
      requires |g| == height * width && l0 == Line(g, direction, height, width, k)
      requires View() == WithLine(g, direction, height, width, k, l0)
      modifies cells
      ensures Valid() && View() == old(View())
      ensures next.id == Pos(direction, height, width, k, 0) && next.content == l0[0]
      ensures l0[..0] + Scan(next.content, l0[1..]) == MergeLine(l0)
    {
      var rc := Coords(direction, height, width, k, 0);
      LineStartIsFirst(direction, height, width, k, 0);
      assert LineStart(direction, rc.0, rc.1, height, width);
      assert PairToIndex(rc.0, rc.1, width) == Pos(direction, height, width, k, 0);
      LineOfWithLine(g, direction, height, width, k, l0);
      next := MergeNeighbouring(rc.0, rc.1, last, width, height, direction);
      assert l0[..0] + Scan(l0[0], l0[1..]) == Scan(l0[0], l0[1..]);
    }

    /** A later iteration of the merge walk: merge_neighbouring on the t-th cell of line k. */
    method VisitNext(direction: Direction, height: nat, width: nat, k: nat, t: nat, last: Tile,
                     ghost g: seq<Cell>, ghost l0: seq<Cell>, ghost cur: seq<Cell>)
      returns (next: Tile, ghost cur': seq<Cell>)
      requires Valid() && IsArrow(direction) && cells.Length == height * width
      requires k < LineCount(direction, height, width) && 0 < t < LineLen(direction, height, width)
      requires |g| == height * width && l0 == Line(g, direction, height, width, k) && |cur| == |l0|
      requires View() == WithLine(g, direction, height, width, k, cur)
      requires last.id == Pos(direction, height, width, k, t - 1) && last.content == cur[t - 1]
      requires cur[..t - 1] + Scan(last.content, l0[t..]) == MergeLine(l0) && cur[t..] == l0[t..]
      modifies cells
      ensures Valid() && |cur'| == |l0|
      ensures View() == WithLine(g, direction, height, width, k, cur')
      ensures next.id == Pos(direction, height, width, k, t) && next.content == cur'[t]
      ensures cur'[..t] + Scan(next.content, l0[t + 1..]) == MergeLine(l0) && cur'[t + 1..] == l0[t + 1..]
    {
      var rc := Coords(direction, height, width, k, t);
      ghost var here := Pos(direction, height, width, k, t);
      LineStartIsFirst(direction, height, width, k, t);
      assert !LineStart(direction, rc.0, rc.1, height, width);
      assert PairToIndex(rc.0, rc.1, width) == here;
      LineOfWithLine(g, direction, height, width, k, cur);
      assert cells[here].content == cur[t] == cur[t..][0] == l0[t];
      next := MergeNeighbouring(rc.0, rc.1, last, width, height, direction);
      if last.content.Some? && last.content == l0[t] {
        MergeStepOnBoard(g, direction, height, width, k, l0, cur, t, last.content, MergeLine(l0));
        cur' := cur[t - 1 := Some(2 * last.content.value)][t := None];
      } else {
        ScanStepKeep(l0, cur, t, last.content, MergeLine(l0));
        cur' := cur;
      }
    }

    /**
     * move_tile_content: for an arrow key, collapse, merge and collapse
     * again; then, if any tile changed, one empty cell chosen by cellDraw
     * receives the value valueDraw selects. Any other key changes nothing.
     */
    method MoveTileContent(direction: Direction, height: nat, width: nat, cellDraw: nat, valueDraw: nat)
      requires Valid() && cells.Length == height * width
      modifies cells
      ensures Valid()
      ensures View() == MoveOutcome(old(View()), direction, height, width, cellDraw, valueDraw)
    {
      var oldBoard := cells[..];
      ghost var g := View();
      if direction != Other {
        Collapse(direction, height, width);
        MergePass(direction, height, width);
        Collapse(direction, height, width);
        ThreePassesAreMove(g, direction, height, width);
      }
      assert View() == MoveGrid(g, direction, height, width);
      EqualIffContentsEqual(oldBoard, cells[..]);
      if oldBoard != cells[..] {
        MoveChangedLeavesEmpty(g, direction, height, width);
        TilesOfContents(cells[..]);
        var emptyIds := EmptyIds(cells[..]);
        assert emptyIds == EmptyCells(View());
        var chosen := emptyIds[cellDraw % |emptyIds|];
        assert chosen == ChosenEmpty(View(), cellDraw);
        SetTileContent(chosen, Some(PickTwoOrFour(valueDraw)));
      }
    }
  }
}
