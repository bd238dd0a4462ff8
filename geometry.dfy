/**
 * Board geometry: the row-major index of a cell and the order in which
 * each direction walks the rows or columns of the board.
 *
 * A "line" is a row (for Left and Right) or a column (for Up and Down).
 * Line k is walked from the edge the tiles move towards: the t-th cell of
 * the walk is Pos(d, height, width, k, t).
 */
module Geometry {

  /** The keys the engine reacts to; every other key is `Other`. */
  datatype Direction = Left | Right | Up | Down | Other

  predicate IsArrow(d: Direction) {
    d != Other
  }

  /** Flat index of row i, column j on a board `width` cells wide. */
  function PairToIndex(i: nat, j: nat, width: nat): (r: nat)
    ensures j < width ==> r / width == i && r % width == j
  {
    RowMajorDivMod(i, j, width);
    j + i * width
  }

  lemma {:induction false} RowMajorDivMod(q: nat, r: nat, w: nat)
    ensures r < w ==> (r + q * w) / w == q && (r + q * w) % w == r
  {
    if r < w {
      var x := r + q * w;
      var e := x / w - q;
      assert x == w * (x / w) + x % w;
      assert w * e == r - x % w;
      if e >= 1 {
        MulLeq(1, e, w);
      }
    }
  }

  lemma {:induction false} RowMajorBound(i: nat, j: nat, height: nat, width: nat)
    requires i < height && j < width
    ensures j + i * width < height * width
  {
    MulLeq(i + 1, height, width);
  }

  lemma {:induction false} MulLeq(a: nat, b: nat, w: nat)
    requires a <= b
    ensures a * w <= b * w
  {
    if a < b {
      MulLeq(a, b - 1, w);
      assert b * w == (b - 1) * w + w;
    }
  }

  /** An index below height * width names a row below height. */
  lemma DivBelowHeight(i: nat, height: nat, width: nat)
    requires i < height * width
    ensures width > 0 && i / width < height && i % width < width
  {
    var q, r := i / width, i % width;
    assert i == r + q * width;
    if q >= height {
      MulLeq(height, q, width);
    }
  }

  /** Number of lines a move in direction d walks: rows or columns. */
  function LineCount(d: Direction, height: nat, width: nat): nat {
    if d == Left || d == Right then height else width
  }

  /** Number of cells on each of those lines. */
  function LineLen(d: Direction, height: nat, width: nat): nat {
    if d == Left || d == Right then width else height
  }

  /** (row, column) of the t-th cell of line k, walked from the target edge. */
  function Coords(d: Direction, height: nat, width: nat, k: nat, t: nat): (rc: (nat, nat))
    requires IsArrow(d) && k < LineCount(d, height, width) && t < LineLen(d, height, width)
    ensures rc.0 < height && rc.1 < width
  {
    match d
    case Left => (k, t)
    case Right => (k, width - 1 - t)
    case Up => (t, k)
    case Down => (height - 1 - t, k)
  }

  /** Flat index of the t-th cell of line k. */
  function Pos(d: Direction, height: nat, width: nat, k: nat, t: nat): (i: nat)
    requires IsArrow(d) && k < LineCount(d, height, width) && t < LineLen(d, height, width)
    ensures i < height * width
  {
    var rc := Coords(d, height, width, k, t);
    RowMajorBound(rc.0, rc.1, height, width);
    PairToIndex(rc.0, rc.1, width)
  }

  /** The line that cell i belongs to. */
  function LineOf(d: Direction, height: nat, width: nat, i: nat): (k: nat)
    requires IsArrow(d) && i < height * width
    ensures k < LineCount(d, height, width)
  {
    DivBelowHeight(i, height, width);
    if d == Left || d == Right then i / width else i % width
  }

  /** How far along its line cell i lies, counted from the target edge. */
  function Offset(d: Direction, height: nat, width: nat, i: nat): (t: nat)
    requires IsArrow(d) && i < height * width
    ensures t < LineLen(d, height, width)
  {
    DivBelowHeight(i, height, width);
    match d
    case Left => i % width
    case Right => width - 1 - i % width
    case Up => i / width
    case Down => height - 1 - i / width
  }

  /** Walking line k and locating the cell reached gives back (k, t). */
  lemma PosInverse(d: Direction, height: nat, width: nat, k: nat, t: nat)
    requires IsArrow(d) && k < LineCount(d, height, width) && t < LineLen(d, height, width)
    ensures LineOf(d, height, width, Pos(d, height, width, k, t)) == k
    ensures Offset(d, height, width, Pos(d, height, width, k, t)) == t
  {
  }

  /** Every cell of the board is reached by exactly the walk that locates it. */
  lemma PosOfIndex(d: Direction, height: nat, width: nat, i: nat)
    requires IsArrow(d) && i < height * width
    ensures Pos(d, height, width, LineOf(d, height, width, i), Offset(d, height, width, i)) == i
  {
    DivBelowHeight(i, height, width);
    assert i == i % width + (i / width) * width;
  }

  /**
   * The match arms of the merge walk that reset `previous`: column 0 for
   * Left, column width-1 for Right, row 0 for Up, row height-1 for Down.
   */
  predicate LineStart(d: Direction, row: nat, col: nat, height: nat, width: nat) {
    (d == Left && col == 0) ||
    (d == Right && col == width - 1) ||
    (d == Up && row == 0) ||
    (d == Down && row == height - 1)
  }

  /** The reset arm fires exactly on the first cell of every walked line. */
  lemma LineStartIsFirst(d: Direction, height: nat, width: nat, k: nat, t: nat)
    requires IsArrow(d) && k < LineCount(d, height, width) && t < LineLen(d, height, width)
    ensures var rc := Coords(d, height, width, k, t);
            LineStart(d, rc.0, rc.1, height, width) <==> t == 0
  {
  }
}
