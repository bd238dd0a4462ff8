/**
 * A move on the whole board, stated on the board's contents read in
 * row-major order: every line (row or column) is transformed on its own.
 */
module Grid {
  import opened Cells
  import opened Geometry
  import opened Lines

  /** Line k of board g, read in walking order. */
  function Line(g: seq<Cell>, d: Direction, height: nat, width: nat, k: nat): (l: seq<Cell>)
    requires IsArrow(d) && |g| == height * width && k < LineCount(d, height, width)
    ensures |l| == LineLen(d, height, width)
    ensures forall t | 0 <= t < |l| :: l[t] == g[Pos(d, height, width, k, t)]
  {
    seq(LineLen(d, height, width), t requires 0 <= t < LineLen(d, height, width) => g[Pos(d, height, width, k, t)])
  }

  /** The three per-line steps of a move, and the whole move of a line. */
  datatype LineOp = Pack | Merge | Move

  function ApplyOp(op: LineOp, s: seq<Cell>): (r: seq<Cell>)
    ensures |r| == |s|
  {
    match op
    case Pack => Packed(s)
    case Merge => MergeLine(s)
    case Move => Slide(s)
  }

  /** Board g with `op` applied to lines 0 .. k-1 and the other lines as they were. */
  function LinesDone(g: seq<Cell>, d: Direction, height: nat, width: nat, op: LineOp, k: nat): (r: seq<Cell>)
    requires IsArrow(d) && |g| == height * width
    ensures |r| == |g|
  {
    seq(|g|, i requires 0 <= i < |g| =>
      var line := LineOf(d, height, width, i);
      if line < k then ApplyOp(op, Line(g, d, height, width, line))[Offset(d, height, width, i)] else g[i])
  }

  /** Board g with `op` applied to every line. */
  function MapLines(g: seq<Cell>, d: Direction, height: nat, width: nat, op: LineOp): (r: seq<Cell>)
    requires IsArrow(d) && |g| == height * width
    ensures |r| == |g|
  {
    LinesDone(g, d, height, width, op, LineCount(d, height, width))
  }

  /** The board after collapse, merge and collapse, before any spawn. A non-arrow key does nothing. */
  function MoveGrid(g: seq<Cell>, d: Direction, height: nat, width: nat): (r: seq<Cell>)
    requires |g| == height * width
    ensures |r| == |g|
  {
    if d == Other then g else MapLines(g, d, height, width, Move)
  }

  /** Lines k and above are untouched while lines below k are being processed. */
  lemma LinesDoneUntouched(g: seq<Cell>, d: Direction, height: nat, width: nat, op: LineOp, k: nat, j: nat)
    requires IsArrow(d) && |g| == height * width && k <= j < LineCount(d, height, width)
    ensures Line(LinesDone(g, d, height, width, op, k), d, height, width, j) == Line(g, d, height, width, j)
  {
    var a := LinesDone(g, d, height, width, op, k);
    var la, lg := Line(a, d, height, width, j), Line(g, d, height, width, j);
    forall t | 0 <= t < |la| ensures la[t] == lg[t] {
      PosInverse(d, height, width, j, t);
      LinesDoneAt(g, d, height, width, op, k, Pos(d, height, width, j, t));
    }
  }

  /**
   * One more line done: if g' is g with line k replaced by op of that line,
   * then g' has lines 0 .. k done.
   */
  lemma LinesDoneStep(g0: seq<Cell>, g: seq<Cell>, g': seq<Cell>, d: Direction, height: nat, width: nat, op: LineOp, k: nat)
    requires IsArrow(d) && |g0| == height * width && k < LineCount(d, height, width)
    requires g == LinesDone(g0, d, height, width, op, k) && |g'| == |g|
    requires forall i | 0 <= i < |g| ::
      g'[i] == if LineOf(d, height, width, i) == k
               then ApplyOp(op, Line(g, d, height, width, k))[Offset(d, height, width, i)]
               else g[i]
    ensures g' == LinesDone(g0, d, height, width, op, k + 1)
  {
    LinesDoneUntouched(g0, d, height, width, op, k, k);
  }

  /** Board g with line k replaced by l. */
  function WithLine(g: seq<Cell>, d: Direction, height: nat, width: nat, k: nat, l: seq<Cell>): (r: seq<Cell>)
    requires IsArrow(d) && |g| == height * width && k < LineCount(d, height, width)
    requires |l| == LineLen(d, height, width)
    ensures |r| == |g|
  {
    seq(|g|, i requires 0 <= i < |g| =>
      if LineOf(d, height, width, i) == k then l[Offset(d, height, width, i)] else g[i])
  }

  /** Putting a line back where it was read from changes nothing. */
  lemma WithLineSame(g: seq<Cell>, d: Direction, height: nat, width: nat, k: nat)
    requires IsArrow(d) && |g| == height * width && k < LineCount(d, height, width)
    ensures WithLine(g, d, height, width, k, Line(g, d, height, width, k)) == g
  {
    forall i | 0 <= i < |g|
      ensures WithLine(g, d, height, width, k, Line(g, d, height, width, k))[i] == g[i]
    {
      PosOfIndex(d, height, width, i);
    }
  }

  /** Writing the t-th cell of line k on the board writes the t-th cell of the replacement line. */
  lemma WithLineUpdate(g: seq<Cell>, d: Direction, height: nat, width: nat, k: nat, l: seq<Cell>, t: nat, x: Cell)
    requires IsArrow(d) && |g| == height * width && k < LineCount(d, height, width)
    requires |l| == LineLen(d, height, width) && t < |l|
    ensures WithLine(g, d, height, width, k, l)[Pos(d, height, width, k, t) := x]
            == WithLine(g, d, height, width, k, l[t := x])
  {
    var p := Pos(d, height, width, k, t);
    PosInverse(d, height, width, k, t);
    var a := WithLine(g, d, height, width, k, l)[p := x];
    var b := WithLine(g, d, height, width, k, l[t := x]);
    forall i | 0 <= i < |g| ensures a[i] == b[i] {
      PosOfIndex(d, height, width, i);
    }
  }

  /** Reading line k back from the overlaid board gives the replacement line. */
  lemma LineOfWithLine(g: seq<Cell>, d: Direction, height: nat, width: nat, k: nat, l: seq<Cell>)
    requires IsArrow(d) && |g| == height * width && k < LineCount(d, height, width)
    requires |l| == LineLen(d, height, width)
    ensures Line(WithLine(g, d, height, width, k, l), d, height, width, k) == l
  {
    forall t | 0 <= t < |l| ensures WithLine(g, d, height, width, k, l)[Pos(d, height, width, k, t)] == l[t] {
      PosInverse(d, height, width, k, t);
    }
  }

  /** Replacing the same line twice keeps only the second replacement. */
  lemma WithLineTwice(g: seq<Cell>, d: Direction, height: nat, width: nat, k: nat, l: seq<Cell>, l': seq<Cell>)
    requires IsArrow(d) && |g| == height * width && k < LineCount(d, height, width)
    requires |l| == |l'| == LineLen(d, height, width)
    ensures WithLine(WithLine(g, d, height, width, k, l), d, height, width, k, l') == WithLine(g, d, height, width, k, l')
  {
  }

  /** Replacing line k of a board with lines 0 .. k-1 done by op of that line does line k too. */
  lemma WithLineDone(g0: seq<Cell>, d: Direction, height: nat, width: nat, op: LineOp, k: nat)
    requires IsArrow(d) && |g0| == height * width && k < LineCount(d, height, width)
    ensures var g := LinesDone(g0, d, height, width, op, k);
            WithLine(g, d, height, width, k, ApplyOp(op, Line(g, d, height, width, k)))
            == LinesDone(g0, d, height, width, op, k + 1)
  {
    var g := LinesDone(g0, d, height, width, op, k);
    LinesDoneStep(g0, g, WithLine(g, d, height, width, k, ApplyOp(op, Line(g, d, height, width, k))), d, height, width, op, k);
  }

  /** Line k of the transformed board is the transformed line k: lines never interact. */
  lemma LineOfMapLines(g: seq<Cell>, d: Direction, height: nat, width: nat, op: LineOp, k: nat)
    requires IsArrow(d) && |g| == height * width && k < LineCount(d, height, width)
    ensures Line(MapLines(g, d, height, width, op), d, height, width, k) == ApplyOp(op, Line(g, d, height, width, k))
  {
    var r := MapLines(g, d, height, width, op);
    var l := ApplyOp(op, Line(g, d, height, width, k));
    forall t | 0 <= t < LineLen(d, height, width)
      ensures r[Pos(d, height, width, k, t)] == l[t]
    {
      PosInverse(d, height, width, k, t);
    }
  }

  /** Two boards are equal exactly when all their lines are. */
  lemma EqualIffLinesEqual(g: seq<Cell>, g': seq<Cell>, d: Direction, height: nat, width: nat)
    requires IsArrow(d) && |g| == |g'| == height * width
    ensures g == g' <==> forall k | 0 <= k < LineCount(d, height, width) ::
                           Line(g, d, height, width, k) == Line(g', d, height, width, k)
  {
    if forall k | 0 <= k < LineCount(d, height, width) :: Line(g, d, height, width, k) == Line(g', d, height, width, k) {
      forall i | 0 <= i < |g| ensures g[i] == g'[i] {
        PosOfIndex(d, height, width, i);
        var k, t := LineOf(d, height, width, i), Offset(d, height, width, i);
        assert Line(g, d, height, width, k)[t] == Line(g', d, height, width, k)[t];
      }
    }
  }

  /** A board is determined by applying a line function to each of its lines. */
  lemma MapLinesByLines(g: seq<Cell>, r: seq<Cell>, d: Direction, height: nat, width: nat, op: LineOp)
    requires IsArrow(d) && |g| == |r| == height * width
    requires forall k | 0 <= k < LineCount(d, height, width) ::
               Line(r, d, height, width, k) == ApplyOp(op, Line(g, d, height, width, k))
    ensures r == MapLines(g, d, height, width, op)
  {
    var m := MapLines(g, d, height, width, op);
    forall k | 0 <= k < LineCount(d, height, width)
      ensures Line(r, d, height, width, k) == Line(m, d, height, width, k)
    {
      LineOfMapLines(g, d, height, width, op, k);
    }
    EqualIffLinesEqual(r, m, d, height, width);
  }

  /** Collapse, then merge, then collapse again moves every line by Slide. */
  lemma ThreePassesAreMove(g: seq<Cell>, d: Direction, height: nat, width: nat)
    requires IsArrow(d) && |g| == height * width
    ensures MapLines(MapLines(MapLines(g, d, height, width, Pack), d, height, width, Merge), d, height, width, Pack)
            == MoveGrid(g, d, height, width)
  {
    var g1 := MapLines(g, d, height, width, Pack);
    var g2 := MapLines(g1, d, height, width, Merge);
    var g3 := MapLines(g2, d, height, width, Pack);
    forall k | 0 <= k < LineCount(d, height, width)
      ensures Line(g3, d, height, width, k) == ApplyOp(Move, Line(g, d, height, width, k))
    {
      var l := Line(g, d, height, width, k);
      LineOfMapLines(g, d, height, width, Pack, k);
      assert Line(g1, d, height, width, k) == Packed(l);
      LineOfMapLines(g1, d, height, width, Merge, k);
      assert Line(g2, d, height, width, k) == MergeLine(Packed(l));
      LineOfMapLines(g2, d, height, width, Pack, k);
      assert Line(g3, d, height, width, k) == Packed(MergeLine(Packed(l)));
    }
    MapLinesByLines(g, g3, d, height, width, Move);
  }

  /** A second collapse in the same direction changes nothing. */
  lemma CollapseIdempotent(g: seq<Cell>, d: Direction, height: nat, width: nat)
    requires IsArrow(d) && |g| == height * width
    ensures MapLines(MapLines(g, d, height, width, Pack), d, height, width, Pack) == MapLines(g, d, height, width, Pack)
  {
    var g1 := MapLines(g, d, height, width, Pack);
    forall k | 0 <= k < LineCount(d, height, width)
      ensures Line(g1, d, height, width, k) == ApplyOp(Pack, Line(g1, d, height, width, k))
    {
      LineOfMapLines(g, d, height, width, Pack, k);
      PackedIdempotent(Line(g, d, height, width, k));
    }
    MapLinesByLines(g1, g1, d, height, width, Pack);
  }

  /** After a collapse every line holds its old tiles, in order, packed against the edge. */
  lemma CollapsePacksLines(g: seq<Cell>, d: Direction, height: nat, width: nat, k: nat)
    requires IsArrow(d) && |g| == height * width && k < LineCount(d, height, width)
    ensures var l := Line(MapLines(g, d, height, width, Pack), d, height, width, k);
            IsPacked(l) && NonEmpty(l) == NonEmpty(Line(g, d, height, width, k))
  {
    LineOfMapLines(g, d, height, width, Pack, k);
    PackedIsPacked(Line(g, d, height, width, k));
  }

  function Reverse(s: seq<Cell>): (r: seq<Cell>)
    ensures |r| == |s| && forall i | 0 <= i < |s| :: r[i] == s[|s| - 1 - i]
  {
    seq(|s|, i requires 0 <= i < |s| => s[|s| - 1 - i])
  }

  lemma ReverseReverse(s: seq<Cell>)
    ensures Reverse(Reverse(s)) == s
  {
  }

  /** Row k walked rightwards-first is row k walked leftwards-first, reversed. */
  lemma RowReversed(g: seq<Cell>, height: nat, width: nat, k: nat)
    requires |g| == height * width && k < height
    ensures Line(g, Right, height, width, k) == Reverse(Line(g, Left, height, width, k))
  {
  }

  /** Column k walked downwards-first is column k walked upwards-first, reversed. */
  lemma ColumnReversed(g: seq<Cell>, height: nat, width: nat, k: nat)
    requires |g| == height * width && k < width
    ensures Line(g, Down, height, width, k) == Reverse(Line(g, Up, height, width, k))
  {
  }

  /**
   * collapse_right is the mirror image of collapse_left: read left to right,
   * each row becomes the reverse of the packed reverse of the row.
   */
  lemma CollapseRightMirrorsLeft(g: seq<Cell>, height: nat, width: nat, k: nat)
    requires |g| == height * width && k < height
    ensures Line(MapLines(g, Right, height, width, Pack), Left, height, width, k)
            == Reverse(Packed(Reverse(Line(g, Left, height, width, k))))
  {
    var r := MapLines(g, Right, height, width, Pack);
    LineOfMapLines(g, Right, height, width, Pack, k);
    RowReversed(g, height, width, k);
    RowReversed(r, height, width, k);
    ReverseReverse(Line(r, Left, height, width, k));
  }

  /** collapse_down is the mirror image of collapse_up, column by column. */
  lemma CollapseDownMirrorsUp(g: seq<Cell>, height: nat, width: nat, k: nat)
    requires |g| == height * width && k < width
    ensures Line(MapLines(g, Down, height, width, Pack), Up, height, width, k)
            == Reverse(Packed(Reverse(Line(g, Up, height, width, k))))
  {
    var r := MapLines(g, Down, height, width, Pack);
    LineOfMapLines(g, Down, height, width, Pack, k);
    ColumnReversed(g, height, width, k);
    ColumnReversed(r, height, width, k);
    ReverseReverse(Line(r, Up, height, width, k));
  }

  /** Each line of the moved board is the moved line: moves act on lines independently. */
  lemma MoveActsPerLine(g: seq<Cell>, d: Direction, height: nat, width: nat, k: nat)
    requires IsArrow(d) && |g| == height * width && k < LineCount(d, height, width)
    ensures Line(MoveGrid(g, d, height, width), d, height, width, k) == Slide(Line(g, d, height, width, k))
  {
    LineOfMapLines(g, d, height, width, Move, k);
  }

  /**
   * A move leaves the board as it is exactly when the key is not an arrow,
   * or every line is already packed and has no two equal tiles side by side.
   */
  lemma MoveNoOpIff(g: seq<Cell>, d: Direction, height: nat, width: nat)
    requires |g| == height * width
    ensures MoveGrid(g, d, height, width) == g <==>
            d == Other ||
            forall k | 0 <= k < LineCount(d, height, width) ::
              IsPacked(Line(g, d, height, width, k)) && !HasPair(Line(g, d, height, width, k))
  {
    if d != Other {
      var r := MoveGrid(g, d, height, width);
      forall k | 0 <= k < LineCount(d, height, width)
        ensures Line(r, d, height, width, k) == Slide(Line(g, d, height, width, k))
        ensures Slide(Line(g, d, height, width, k)) == Line(g, d, height, width, k) <==>
                IsPacked(Line(g, d, height, width, k)) && !HasPair(Line(g, d, height, width, k))
      {
        MoveActsPerLine(g, d, height, width, k);
        SlideFixpoint(Line(g, d, height, width, k));
      }
      EqualIffLinesEqual(r, g, d, height, width);
    }
  }

  /** A move that changes the board leaves at least one empty cell. */
  lemma MoveChangedLeavesEmpty(g: seq<Cell>, d: Direction, height: nat, width: nat)
    requires |g| == height * width && MoveGrid(g, d, height, width) != g
    ensures exists i | 0 <= i < |g| :: MoveGrid(g, d, height, width)[i] == None
  {
    var r := MoveGrid(g, d, height, width);
    EqualIffLinesEqual(r, g, d, height, width);
    var k :| 0 <= k < LineCount(d, height, width) && Line(r, d, height, width, k) != Line(g, d, height, width, k);
    MoveActsPerLine(g, d, height, width, k);
    SlideChangedLeavesEmpty(Line(g, d, height, width, k));
    var t :| 0 <= t < LineLen(d, height, width) && Slide(Line(g, d, height, width, k))[t] == None;
    assert r[Pos(d, height, width, k, t)] == None;
  }

  /** Cell i of the board with lines 0 .. k-1 done, read through its line and offset. */
  lemma LinesDoneAt(g: seq<Cell>, d: Direction, height: nat, width: nat, op: LineOp, k: nat, i: nat)
    requires IsArrow(d) && |g| == height * width && i < |g|
    ensures LinesDone(g, d, height, width, op, k)[i]
            == if LineOf(d, height, width, i) < k
               then ApplyOp(op, Line(g, d, height, width, LineOf(d, height, width, i)))[Offset(d, height, width, i)]
               else g[i]
  {
  }

  /** A move keeps every value a power of two of at least 2. */
  lemma MoveKeepsLegal(g: seq<Cell>, d: Direction, height: nat, width: nat)
    requires |g| == height * width && AllLegal(g)
    ensures AllLegal(MoveGrid(g, d, height, width))
  {
    if d != Other {
      var r := MoveGrid(g, d, height, width);
      assert r == LinesDone(g, d, height, width, Move, LineCount(d, height, width));
      forall i | 0 <= i < |r| ensures LegalCell(r[i]) {
        var k := LineOf(d, height, width, i);
        var l := Line(g, d, height, width, k);
        LinesDoneAt(g, d, height, width, Move, LineCount(d, height, width), i);
        assert AllLegal(l);
        SlideLegal(l);
        var moved := Slide(l);
        assert r[i] == moved[Offset(d, height, width, i)];
      }
    }
  }

  // ---- Totals over the whole board -------------------------------------------------

  /** Sum of the measure over a list of lines. */
  function SumTotals(m: Measure, ls: seq<seq<Cell>>): nat {
    if ls == [] then 0 else SumTotals(m, ls[..|ls| - 1]) + Total(m, ls[|ls| - 1])
  }

  /** Lines 0 .. k-1 of board g. */
  function LinesBefore(g: seq<Cell>, d: Direction, height: nat, width: nat, k: nat): (ls: seq<seq<Cell>>)
    requires IsArrow(d) && |g| == height * width && k <= LineCount(d, height, width)
    ensures |ls| == k
  {
    seq(k, j requires 0 <= j < k => Line(g, d, height, width, j))
  }

  /** Lines 0 .. k-1 of board g, each with op applied. */
  function LinesAfter(g: seq<Cell>, d: Direction, height: nat, width: nat, op: LineOp, k: nat): (ls: seq<seq<Cell>>)
    requires IsArrow(d) && |g| == height * width && k <= LineCount(d, height, width)
    ensures |ls| == k
  {
    seq(k, j requires 0 <= j < k => ApplyOp(op, Line(g, d, height, width, j)))
  }

  /** Board h with the first t cells of line k taken from l. */
  function ReplacePrefix(h: seq<Cell>, d: Direction, height: nat, width: nat, k: nat, l: seq<Cell>, t: nat): (r: seq<Cell>)
    requires IsArrow(d) && |h| == height * width && k < LineCount(d, height, width)
    requires |l| == LineLen(d, height, width) && t <= |l|
    ensures |r| == |h|
  {
    seq(|h|, i requires 0 <= i < |h| =>
      if LineOf(d, height, width, i) == k && Offset(d, height, width, i) < t then l[Offset(d, height, width, i)] else h[i])
  }

  lemma TotalPrefixStep(m: Measure, s: seq<Cell>, t: nat)
    requires t < |s|
    ensures Total(m, s[..t + 1]) == Total(m, s[..t]) + Weight(m, s[t])
  {
    assert s[..t + 1] == s[..t] + [s[t]];
    TotalConcat(m, s[..t], [s[t]]);
  }

  /** Replacing a line cell by cell changes the total by the difference of the two lines. */
  lemma {:induction false} TotalReplacePrefix(m: Measure, h: seq<Cell>, d: Direction, height: nat, width: nat, k: nat, l: seq<Cell>, t: nat)
    requires IsArrow(d) && |h| == height * width && k < LineCount(d, height, width)
    requires |l| == LineLen(d, height, width) && t <= |l|
    ensures Total(m, ReplacePrefix(h, d, height, width, k, l, t)) + Total(m, Line(h, d, height, width, k)[..t])
            == Total(m, h) + Total(m, l[..t])
  {
    if t == 0 {
      assert ReplacePrefix(h, d, height, width, k, l, 0) == h;
    } else {
      var s := t - 1;
      TotalReplacePrefix(m, h, d, height, width, k, l, s);
      var before := ReplacePrefix(h, d, height, width, k, l, s);
      var p := Pos(d, height, width, k, s);
      ReplacePrefixStep(h, d, height, width, k, l, s);
      TotalUpdate(m, before, p, l[s]);
      TotalPrefixStep(m, Line(h, d, height, width, k), s);
      TotalPrefixStep(m, l, s);
    }
  }

  /** Taking one more cell of the line: the prefix grows by writing cell s of line k. */
  lemma ReplacePrefixStep(h: seq<Cell>, d: Direction, height: nat, width: nat, k: nat, l: seq<Cell>, s: nat)
    requires IsArrow(d) && |h| == height * width && k < LineCount(d, height, width)
    requires |l| == LineLen(d, height, width) && s < |l|
    ensures ReplacePrefix(h, d, height, width, k, l, s + 1)
            == ReplacePrefix(h, d, height, width, k, l, s)[Pos(d, height, width, k, s) := l[s]]
            && ReplacePrefix(h, d, height, width, k, l, s)[Pos(d, height, width, k, s)] == h[Pos(d, height, width, k, s)]
  {
    var p := Pos(d, height, width, k, s);
    PosInverse(d, height, width, k, s);
    var a := ReplacePrefix(h, d, height, width, k, l, s + 1);
    var b := ReplacePrefix(h, d, height, width, k, l, s)[p := l[s]];
    forall i | 0 <= i < |h| ensures a[i] == b[i] {
      PosOfIndex(d, height, width, i);
    }
  }

  /** Taking all of line j from its transformed version completes line j. */
  lemma LinesDoneByPrefix(g: seq<Cell>, d: Direction, height: nat, width: nat, op: LineOp, j: nat)
    requires IsArrow(d) && |g| == height * width && j < LineCount(d, height, width)
    ensures ReplacePrefix(LinesDone(g, d, height, width, op, j), d, height, width, j,
                          ApplyOp(op, Line(g, d, height, width, j)), LineLen(d, height, width))
            == LinesDone(g, d, height, width, op, j + 1)
  {
    var h := LinesDone(g, d, height, width, op, j);
    var l := ApplyOp(op, Line(g, d, height, width, j));
    LinesDoneUntouched(g, d, height, width, op, j, j);
    var h' := ReplacePrefix(h, d, height, width, j, l, LineLen(d, height, width));
    forall i | 0 <= i < |g|
      ensures h'[i] == if LineOf(d, height, width, i) == j then l[Offset(d, height, width, i)] else h[i]
    {
    }
    LinesDoneStep(g, h, h', d, height, width, op, j);
  }

  /** The line sums of lines 0 .. k-1 are those of lines 0 .. k-2 plus line k-1. */
  lemma SumTotalsLastLine(m: Measure, g: seq<Cell>, d: Direction, height: nat, width: nat, op: LineOp, k: nat)
    requires IsArrow(d) && |g| == height * width && 0 < k <= LineCount(d, height, width)
    ensures SumTotals(m, LinesBefore(g, d, height, width, k))
            == SumTotals(m, LinesBefore(g, d, height, width, k - 1)) + Total(m, Line(g, d, height, width, k - 1))
    ensures SumTotals(m, LinesAfter(g, d, height, width, op, k))
            == SumTotals(m, LinesAfter(g, d, height, width, op, k - 1)) + Total(m, ApplyOp(op, Line(g, d, height, width, k - 1)))
  {
    var j := k - 1;
    var before := LinesBefore(g, d, height, width, k);
    var after := LinesAfter(g, d, height, width, op, k);
    assert before[..j] == LinesBefore(g, d, height, width, j);
    assert after[..j] == LinesAfter(g, d, height, width, op, j);
  }

  /** The total of the board with lines 0 .. k-1 done, in terms of the line totals. */
  lemma {:induction false} TotalLinesDone(m: Measure, g: seq<Cell>, d: Direction, height: nat, width: nat, op: LineOp, k: nat)
    requires IsArrow(d) && |g| == height * width && k <= LineCount(d, height, width)
    ensures Total(m, LinesDone(g, d, height, width, op, k)) + SumTotals(m, LinesBefore(g, d, height, width, k))
            == Total(m, g) + SumTotals(m, LinesAfter(g, d, height, width, op, k))
  {
    if k == 0 {
      assert LinesDone(g, d, height, width, op, 0) == g;
    } else {
      var j := k - 1;
      TotalLinesDone(m, g, d, height, width, op, j);
      var h := LinesDone(g, d, height, width, op, j);
      var line := Line(g, d, height, width, j);
      var l := ApplyOp(op, line);
      var n := LineLen(d, height, width);
      LinesDoneUntouched(g, d, height, width, op, j, j);
      TotalReplacePrefix(m, h, d, height, width, j, l, n);
      assert l[..n] == l;
      assert Line(h, d, height, width, j)[..n] == line;
      LinesDoneByPrefix(g, d, height, width, op, j);
      SumTotalsLastLine(m, g, d, height, width, op, k);
    }
  }

  /** Line sums that agree (value sum) or shrink (tile count) one by one agree or shrink in total. */
  lemma {:induction false} SumTotalsCompare(ls: seq<seq<Cell>>, ms: seq<seq<Cell>>)
    requires |ls| == |ms|
    requires forall j | 0 <= j < |ls| :: Total(ValueSum, ms[j]) == Total(ValueSum, ls[j])
    requires forall j | 0 <= j < |ls| :: Total(TileCount, ms[j]) <= Total(TileCount, ls[j])
    ensures SumTotals(ValueSum, ms) == SumTotals(ValueSum, ls)
    ensures SumTotals(TileCount, ms) <= SumTotals(TileCount, ls)
  {
    if ls != [] {
      var j := |ls| - 1;
      SumTotalsCompare(ls[..j], ms[..j]);
    }
  }

  /** Line by line, a move keeps the value sums and does not raise the tile counts. */
  lemma MovedLinesCompare(g: seq<Cell>, d: Direction, height: nat, width: nat)
    requires IsArrow(d) && |g| == height * width
    ensures var n := LineCount(d, height, width);
            SumTotals(ValueSum, LinesAfter(g, d, height, width, Move, n)) == SumTotals(ValueSum, LinesBefore(g, d, height, width, n))
    ensures var n := LineCount(d, height, width);
            SumTotals(TileCount, LinesAfter(g, d, height, width, Move, n)) <= SumTotals(TileCount, LinesBefore(g, d, height, width, n))
  {
    var n := LineCount(d, height, width);
    var before, after := LinesBefore(g, d, height, width, n), LinesAfter(g, d, height, width, Move, n);
    forall j | 0 <= j < n
      ensures Total(ValueSum, after[j]) == Total(ValueSum, before[j])
      ensures Total(TileCount, after[j]) <= Total(TileCount, before[j])
    {
      assert after[j] == Slide(before[j]);
      SlideTotals(before[j]);
    }
    SumTotalsCompare(before, after);
  }

  /**
   * Conservation: before any spawn, a move keeps the sum of the values on
   * the board and never increases the number of tiles.
   */
  lemma MoveConserves(g: seq<Cell>, d: Direction, height: nat, width: nat)
    requires |g| == height * width
    ensures Total(ValueSum, MoveGrid(g, d, height, width)) == Total(ValueSum, g)
    ensures Total(TileCount, MoveGrid(g, d, height, width)) <= Total(TileCount, g)
  {
    if d != Other {
      var n := LineCount(d, height, width);
      assert MoveGrid(g, d, height, width) == LinesDone(g, d, height, width, Move, n);
      TotalLinesDone(ValueSum, g, d, height, width, Move, n);
      TotalLinesDone(TileCount, g, d, height, width, Move, n);
      MovedLinesCompare(g, d, height, width);
    }
  }
}
