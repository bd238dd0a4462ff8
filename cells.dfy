/**
 * The cell data model: a tile is an optional value plus the id of the
 * board slot that holds it. Also the two measures the move must respect
 * (sum of values, number of occupied cells) and the power-of-two check.
 */
module Cells {

  datatype Option<T> = None | Some(value: T)

  /** What a board slot holds: nothing, or a tile value. */
  type Cell = Option<nat>

  /** A board slot: its content and its position on the board. */
  datatype Tile = Tile(content: Cell, id: nat)

  /** The contents of a run of tiles, ids dropped. */
  function Contents(ts: seq<Tile>): (g: seq<Cell>)
    ensures |g| == |ts|
    ensures forall i | 0 <= i < |ts| :: g[i] == ts[i].content
  {
    seq(|ts|, i requires 0 <= i < |ts| => ts[i].content)
  }

  lemma ContentsTail(ts: seq<Tile>)
    requires ts != []
    ensures Contents(ts[1..]) == Contents(ts)[1..]
  {
  }

  lemma ContentsCons(t: Tile, ts: seq<Tile>)
    ensures Contents([t] + ts) == [t.content] + Contents(ts)
  {
  }

  /** Every tile carries the index it sits at. */
  predicate IdsMatch(ts: seq<Tile>) {
    forall i | 0 <= i < |ts| :: ts[i].id == i
  }

  /** The tiles of a board whose contents are g, each with its own index as id. */
  function Tiles(g: seq<Cell>): (ts: seq<Tile>)
    ensures IdsMatch(ts) && Contents(ts) == g
  {
    seq(|g|, i requires 0 <= i < |g| => Tile(g[i], i))
  }

  /** When ids match indices, the tiles are determined by their contents. */
  lemma TilesOfContents(ts: seq<Tile>)
    requires IdsMatch(ts)
    ensures Tiles(Contents(ts)) == ts
  {
  }

  /** Two boards with matching ids are equal exactly when their contents are. */
  lemma EqualIffContentsEqual(a: seq<Tile>, b: seq<Tile>)
    requires IdsMatch(a) && IdsMatch(b) && |a| == |b|
    ensures a == b <==> Contents(a) == Contents(b)
  {
    if Contents(a) == Contents(b) {
      TilesOfContents(a);
      TilesOfContents(b);
    }
  }

  /** Writing the content of one tile writes that cell of the contents and keeps every id. */
  lemma SetContent(ts: seq<Tile>, p: nat, x: Cell)
    requires p < |ts|
    ensures Contents(ts[p := ts[p].(content := x)]) == Contents(ts)[p := x]
    ensures IdsMatch(ts) ==> IdsMatch(ts[p := ts[p].(content := x)])
  {
  }

  /** A run of n empty cells. */
  function Empties(n: nat): (r: seq<Cell>)
    ensures |r| == n && forall i | 0 <= i < n :: r[i] == None
  {
    seq(n, _ => None)
  }

  /** The two quantities a board is measured by. */
  datatype Measure = ValueSum | TileCount

  function Weight(m: Measure, c: Cell): nat {
    match c
    case None => 0
    case Some(v) => if m == ValueSum then v else 1
  }

  /** Sum of the values (ValueSum) or number of occupied cells (TileCount). */
  function Total(m: Measure, s: seq<Cell>): nat {
    if s == [] then 0 else Weight(m, s[0]) + Total(m, s[1..])
  }

  lemma {:induction false} TotalConcat(m: Measure, a: seq<Cell>, b: seq<Cell>)
    ensures Total(m, a + b) == Total(m, a) + Total(m, b)
  {
    if a == [] {
      assert a + b == b;
    } else {
      assert (a + b)[1..] == a[1..] + b;
      TotalConcat(m, a[1..], b);
    }
  }

  /** Overwriting one cell changes the total by the difference of the two weights. */
  lemma {:induction false} TotalUpdate(m: Measure, s: seq<Cell>, i: nat, x: Cell)
    requires i < |s|
    ensures Total(m, s[i := x]) + Weight(m, s[i]) == Total(m, s) + Weight(m, x)
  {
    if i > 0 {
      assert s[i := x][1..] == s[1..][i - 1 := x];
      TotalUpdate(m, s[1..], i - 1, x);
    }
  }

  lemma {:induction false} TotalEmpties(m: Measure, n: nat)
    ensures Total(m, Empties(n)) == 0
  {
    if n > 0 {
      assert Empties(n)[1..] == Empties(n - 1);
      TotalEmpties(m, n - 1);
    }
  }

  /** The cell count never exceeds the length, and reaches it exactly when no cell is empty. */
  lemma {:induction false} TileCountFull(s: seq<Cell>)
    ensures Total(TileCount, s) <= |s|
    ensures Total(TileCount, s) == |s| <==> forall i | 0 <= i < |s| :: s[i].Some?
  {
    if s != [] {
      TileCountFull(s[1..]);
      assert forall i | 1 <= i < |s| :: s[i] == s[1..][i - 1];
    }
  }

  /** A board with no tile has count zero, and a count of zero means no tile. */
  lemma {:induction false} TileCountZero(s: seq<Cell>)
    ensures Total(TileCount, s) == 0 <==> forall i | 0 <= i < |s| :: s[i] == None
  {
    if s != [] {
      TileCountZero(s[1..]);
      assert forall i | 1 <= i < |s| :: s[i] == s[1..][i - 1];
    }
  }

  predicate IsPowerOfTwo(v: nat)
    decreases v
  {
    v == 1 || (v >= 2 && v % 2 == 0 && IsPowerOfTwo(v / 2))
  }

  /** A legal tile value: empty, or a power of two of at least 2. */
  predicate LegalCell(c: Cell) {
    c.Some? ==> c.value >= 2 && IsPowerOfTwo(c.value)
  }

  predicate AllLegal(s: seq<Cell>) {
    forall i | 0 <= i < |s| :: LegalCell(s[i])
  }
}
