# chilly_2048 board engine, in Dafny

This project models the board engine of chilly_2048, a 2048 clone written in
Rust (`src/main.rs`). The board is a flat vector of `height * width` tiles in
row-major order. Each tile has an optional value and an `id`, which is its own
index. A key press runs `move_tile_content`:

- For an arrow key it first collapses every row or column towards the edge
  the arrow points at.
- It then walks every line from that edge outwards with
  `merge_neighbouring`. The walk carries the tile visited just before as
  `previous`. When the visited tile holds the same value as `previous`,
  `previous` (the tile nearer the edge) is doubled and the visited tile is
  cleared.
- It collapses again.
- If anything changed, one empty cell chosen at random receives a 2 or a 4.
  The value is taken from the ten-entry table `TWO_OR_FOUR`.
- `Board::new` seeds a fresh board with two such tiles at random positions.

The model has two layers.

**Value layer.** These modules state what the engine computes, using
sequences of cells:
- `Cells`: tiles, contents, the value sum and the tile count, and legal
  values (powers of two of at least 2).
- `Geometry`: `pair_to_index`, and the order in which each direction walks
  its lines.
- `Lines`: what one move does to one line. `Packed` is the collapse.
  `MergeLine` is the merge walk, and `PairUp` is an independent definition
  it is proved equal to. `Slide` is the whole move of a line.
- `Grid`: the same on the whole board, line by line.
- `Spawning`: the new tile after a move, and the seeding of a new board.

**Board layer.** The class `Board.Board` holds the board as an
`array<Tile>`. Its methods do what the Rust methods do, step by step and in
place: the collapse with its early return, the merge walk that threads
`previous` from cell to cell, and the spawn.

Each method is proved against the value layer. The properties are proved
about the value layer as lemmas:
- a move keeps the value sum;
- it never adds a tile;
- no tile takes part in two merges;
- a collapse is idempotent;
- the right and down collapses mirror the left and up ones;
- lines are independent;
- a move changes nothing exactly when every line is packed and has no equal
  neighbours;
- a tile is spawned only after a change, into an empty cell, with value 2
  or 4;
- a new board holds min(2, n) tiles, each a 2 or a 4.

Randomness is a parameter:
- the shuffle at creation is any permutation of the ids (`IsShuffle`);
- each `choose` is a natural-number draw that selects an entry (`draw % 10`
  for `TWO_OR_FOUR`, `cellDraw % #empty` for the empty cell).

## Model

| member | source | states |
|---|---|---|
| `Geometry.PairToIndex` | src/main.rs:24-26 | Row i, column j is index j + i*width. For j < width the index determines (i, j): index / width = i and index % width = j. |
| `Geometry.Pos` | src/main.rs:60-98 | The t-th cell visited on line k (rows for Left/Right, columns for Up/Down, walked from the target edge) is a cell of the board. |
| `Geometry.PosInverse` | src/main.rs:60-98 | Every cell belongs to exactly one line at one offset: the line and offset of Pos(k, t) are k and t. |
| `Geometry.LineStartIsFirst` | src/main.rs:196-208 | The four reset arms of merge_neighbouring fire exactly on the first cell of each line in walking order, for every direction. |
| `Cells.EqualIffContentsEqual` | src/main.rs:100 | When every tile carries its own index as id, comparing the old and new boards tile by tile (ids included) is comparing their contents. |
| `Cells.SetContent` | src/main.rs:124 | Writing `tilecontent` of one tile changes that cell's content only and keeps every id. |
| `Lines.NonEmpty` | src/main.rs:115 | Its body is the order-keeping `is_some` filter. Its contract gives the length (the tile count), the value sum (the line's), and that every kept cell is occupied and taken from the line. |
| `Lines.Packed` | src/main.rs:111-130 | The collapse of a line keeps its length, its tiles in order, its value sum and its tile count. |
| `Lines.PackedIsPacked` | src/main.rs:119-128 | After a collapse every tile comes before every empty cell. |
| `Lines.PackedFixpoint` | src/main.rs:111-130 | A collapse leaves a line unchanged exactly when the line is already packed (both directions). |
| `Lines.PackedIdempotent` | src/main.rs:111-130 | Collapsing twice is collapsing once. |
| `Lines.FastPathAgrees` | src/main.rs:116-118 | The early return, taken when the filter dropped nothing, gives what the general path would give. |
| `Lines.Scan` | src/main.rs:209-218 | The merge walk as written: `previous` is doubled and the visited cell cleared when both hold the same value, otherwise the visited cell becomes `previous`. Its contract gives one output cell per cell visited. `Lines.ScanIsPairUp` and the examples fix its values. |
| `Lines.MergeLine` | src/main.rs:63-67 | The merge pass over one line: the walk starts with the edge cell as `previous`. Its contract keeps the line length. `Lines.MergeLineIsPairUp` fixes its values. |
| `Lines.MergeLineIsPairUp` | src/main.rs:209-219 | The merge walk with `previous` equals the reference pairing: equal neighbouring tiles, taken from the edge, become one doubled tile and an empty cell. |
| `Lines.ScanIsPairUp` | src/main.rs:209-219 | The walk from any `previous` cell equals the reference pairing of that cell followed by the rest. |
| `Lines.PairUpTotals` | src/main.rs:211-216 | The merge keeps the value sum and never adds a tile. It at most halves the tile count (no tile is merged twice), and it removes a tile whenever two equal neighbours exist. |
| `Lines.PairUpNoPair` | src/main.rs:211 | A line without equal neighbouring tiles is not changed by the merge. |
| `Lines.PairUpLegal` | src/main.rs:213 | Doubling keeps every value a power of two of at least 2. |
| `Lines.PackedLegal` | src/main.rs:111-130 | A collapse keeps every value legal. |
| `Lines.Slide` | src/main.rs:61-69 | One move of one line: collapse, merge pass, collapse. Its contract keeps the line length. `Lines.SlideTotals`, `Lines.SlideFixpoint` and the examples state what it does. |
| `Lines.SlideTotals` | src/main.rs:61-69 | Collapse, merge, collapse keeps the value sum, never adds a tile, and leaves at least half the tiles. |
| `Lines.SlideLegal` | src/main.rs:61-69 | A move of a line keeps every value legal. |
| `Lines.SlideFixpoint` | src/main.rs:61-69 | A move leaves a line unchanged exactly when the line is packed and has no two equal tiles side by side. |
| `Lines.SlideChangedLeavesEmpty` | src/main.rs:100-106 | A move that changes a line leaves an empty cell on it, so the spawn after a change always has a cell to choose. |
| `Lines.ExampleNoChainMerge` | src/main.rs:211-218 | [v, v, 2v, _] moves to [2v, 2v, _, _]: the doubled tile does not merge again in the same move. |
| `Lines.ExampleFourEqual` | src/main.rs:211-218 | [v, v, v, v] moves to [2v, 2v, _, _]. |
| `Lines.ExampleThreeEqual` | src/main.rs:211-218 | [v, v, v, _] moves to [2v, v, _, _]: the pair nearest the edge merges. |
| `Grid.MoveGrid` | src/main.rs:60-98 | The board after the three passes of an arrow key, before the spawn. Any other key (the `_` arm) leaves the board as it is. Its contract keeps the board size. `Grid.MoveActsPerLine`, `Grid.MoveConserves` and `Grid.MoveNoOpIff` state what it does. |
| `Grid.LineOfMapLines` | src/main.rs:60-98 | Line k of the board after a pass is the pass applied to line k: lines do not interact. |
| `Grid.EqualIffLinesEqual` | src/main.rs:100 | Two boards are equal exactly when all their lines are equal. |
| `Grid.MapLinesByLines` | src/main.rs:60-98 | A board whose every line is the pass applied to the old line is the board after the pass. |
| `Grid.ThreePassesAreMove` | src/main.rs:61-96 | Collapse, merge pass, collapse on the whole board moves every line by Slide. |
| `Grid.CollapseIdempotent` | src/main.rs:111-186 | A second collapse in the same direction changes nothing. |
| `Grid.CollapsePacksLines` | src/main.rs:111-186 | After a collapse every line is packed and holds its old tiles in their old order. |
| `Grid.CollapseRightMirrorsLeft` | src/main.rs:131-152 | collapse_right on a row, read left to right, is the reverse of the left-collapse of the reversed row. |
| `Grid.CollapseDownMirrorsUp` | src/main.rs:169-186 | collapse_down on a column, read top to bottom, is the reverse of the up-collapse of the reversed column. |
| `Grid.MoveActsPerLine` | src/main.rs:60-98 | Each line of the moved board is the moved line. |
| `Grid.MoveNoOpIff` | src/main.rs:60-100 | A key press leaves the board as it was exactly when the key is not an arrow, or every line is packed with no equal neighbours. |
| `Grid.MoveChangedLeavesEmpty` | src/main.rs:100-106 | A move that changed the board leaves an empty cell. |
| `Grid.MoveKeepsLegal` | src/main.rs:60-98 | A move keeps every value a power of two of at least 2. |
| `Grid.MoveConserves` | src/main.rs:60-98 | Before the spawn, a move keeps the board's value sum and never increases its tile count. |
| `Grid.TotalLinesDone` | src/main.rs:60-98 | Part-way through a pass, the board's total changes by the line totals of the lines already done. |
| `Spawning.PickTwoOrFour` | src/main.rs:39 | The constant `TwoOrFour` is the table TWO_OR_FOUR (nine 2s, then one 4). An entry chosen by a draw is 2 or 4, and it is 4 exactly for the tenth entry. |
| `Spawning.EmptyIds` | src/main.rs:101-105 | The filter-and-map over the tiles: the ids of the empty tiles, in board order. Its contract bounds the length by the board size. `Spawning.EmptyIdsMembers` states which ids it lists. |
| `Spawning.EmptyIdsMembers` | src/main.rs:101-105 | The filtered ids are exactly the ids of the empty tiles. |
| `Spawning.EmptyCells` | src/main.rs:101-105 | On a board whose ids match indices, the empty ids are exactly the indices of empty cells. |
| `Spawning.ChosenEmpty` | src/main.rs:106 | The chosen id is an empty cell of the board. |
| `Spawning.Spawn` | src/main.rs:106-108 | Exactly one empty cell becomes a 2 or a 4 and every other cell keeps its content. The tile count grows by one and the value sum by the new value. |
| `Spawning.SpawnReachesEveryEmptyCell` | src/main.rs:106 | Every empty cell can be the chosen one. |
| `Spawning.MoveOutcome` | src/main.rs:54-110 | The whole effect of `move_tile_content` on the contents: the move, then a spawn only when the board changed. Its contract keeps the board size. `Spawning.MoveOutcomeTotals` and `Spawning.MoveOutcomeLegal` state what it does. |
| `Spawning.MoveOutcomeTotals` | src/main.rs:54-110 | A key press changes the board exactly when the move does. After a change the value sum grows by exactly the spawned 2 or 4 and the tile count by at most one. |
| `Spawning.MoveOutcomeLegal` | src/main.rs:54-110 | A key press keeps every value legal. |
| `Spawning.ShuffleListsEveryId` | src/main.rs:47-48 | `IsShuffle` models the shuffled id list: n distinct ids below n. Such a list holds every id 0 .. n-1, so any cell can be seeded. |
| `Spawning.Seeded` | src/main.rs:47-51 | The seeding in `Board::new`: an empty board, then each of the first `count` shuffled ids receives the value its draw selects. Its contract keeps the board size. `Spawning.SeededShape` states the result. |
| `Spawning.SeededShape` | src/main.rs:40-53 | After seeding `count` ids, exactly the first `count` ids of the shuffle hold a tile, each a 2 or a 4, and the tile count is `count`. |
| `Spawning.SeededLegal` | src/main.rs:40-53 | A new board holds only legal values. |
| `Board.Occupied` | src/main.rs:115 | The tile filter of a line: its contents are the line's non-empty cells. |
| `Board.OccupiedIsWhole` | src/main.rs:116 | The filter gives back the whole line exactly when the line has no empty cell: the condition of the early return. |
| `Board.ScanStepMerge` | src/main.rs:211-218 | One merging visit keeps the walk's invariant: the line written so far, followed by the rest of the walk, is the merged line. |
| `Board.ScanStepKeep` | src/main.rs:209-218 | One non-merging visit keeps the same invariant. |
| `Board.MergeStepOnBoard` | src/main.rs:213-215 | Doubling `previous` and clearing the current cell on the board is rewriting line k to the next state of the walk. |
| `Board.ScanEnd` | src/main.rs:63-67 | When every cell of a line has been visited, the line is merged. |
| `Board.Board.constructor` | src/main.rs:40-53 | A new board has height*width tiles with matching ids. Its contents are all empty except the first min(2, n) ids of the shuffle, each holding its draw's value. |
| `Board.Board.SetTileContent` | src/main.rs:124 | Writing one tile's content changes that cell only, and every id stays. |
| `Board.Board.ReadLine` | src/main.rs:112-114 | Copying a line out in walking order gives that line of the board. |
| `Board.Board.CollapseLine` | src/main.rs:112-129 | After collapsing line k, the board is the old board with line k replaced by its collapse, including on the early return. |
| `Board.Board.WriteTiles` | src/main.rs:119-125 | Writing the kept tiles from the edge replaces the front of the line with their contents. |
| `Board.Board.ClearFrom` | src/main.rs:126-128 | The rest of the line, from the count of kept tiles on, becomes empty. |
| `Board.Board.Collapse` | src/main.rs:111-186 | collapse_left/right/up/down: the board after the pass is every line collapsed. |
| `Board.Board.MergeNeighbouring` | src/main.rs:187-221 | The three cases of merge_neighbouring: on a line start it only takes the tile as `previous`. On an equal occupied neighbour it doubles `previous`, clears the tile, and returns the cleared tile. Otherwise it returns the tile unchanged. |
| `Board.Board.MergePass` | src/main.rs:63-67 | The merge pass threads `previous` through all lines and merges every line. |
| `Board.Board.MergeAlong` | src/main.rs:64-66 | The walk over line k replaces the line by its merge. |
| `Board.Board.VisitFirst` | src/main.rs:197-208 | Visiting the first cell of a line changes nothing and makes it `previous`. |
| `Board.Board.VisitNext` | src/main.rs:209-219 | Visiting a later cell advances the walk invariant by one cell. |
| `Board.Board.WriteCell` | src/main.rs:124 | Writing cell t of line k rewrites that cell of the line. |
| `Board.Board.MoveTileContent` | src/main.rs:54-110 | After a key press the board is exactly the move outcome: the move, then, if anything changed, the chosen empty cell receives the drawn 2 or 4. Ids never change. |

## Left out

- The iced GUI, the menu and its input parsing, the unused `has_ended`
  flag (only ever set to `false`) and fonts: none of them is part of the
  board engine.
- The 50 ms sleep in `move_tile_content`.
- The random number generator. The shuffle is any permutation and each
  choice is an explicit draw. The model does not capture the uniform
  distribution of the draws or the 9:1 weighting that follows from it.
- Machine integers: values and indices are unbounded, so `content * 2`
  overflowing `usize` is not modelled. The subtractions `width - 1`,
  `height - 1`, `width - w - 1` and `height - h - 1` are never reached with
  a zero operand, so they cannot wrap.
- Board.Board.Collapse: one method stands for collapse_left,
  collapse_right, collapse_up and collapse_down. It is parameterised by the
  direction, which fixes the line order and the walk inside each line. The
  four Rust functions differ only in those two respects.
- Board.Board.MergePass: the four nested `for_each` loops in
  `move_tile_content` are one loop over the lines of the direction, each
  walked from the edge. The cells are visited in the same order as the Rust
  loops.
- Board.Board.ReadLine: the line is copied into a sequence of tiles rather
  than a `Vec`.
