# 2048 grid engine in Dafny

A model of the game engine of the 2048 sliding-tile game in `script.js`: the
`Game2048` object with its board (`grid`), `score` and undo `history`, and
its operations `init`, `addRandomTile`, `moveLeft`, `moveRight`, `moveUp`,
`moveDown`, `transpose`, `undo`, `calculateScore`, `checkGameOver` and
`checkWin`. The model also covers what the key handler does once a move
is made: it checks for a win before it checks for the end of the game.

The project has three modules:

- `Rows` (`rows.dfy`) holds the row collapse that `moveLeft` applies to every
  row. The collapse drops the empty cells (0), then makes one left-to-right
  scan that merges each pair of equal neighbours into their double and
  skips past both tiles, then pads with empty cells. `CollapseRowLeft` is
  the loop as the source writes it. It is proved equal to the functions
  `CollapseRow` and `RowGain`, and lemmas state what the source promises
  about those functions.
- `Grids` (`grid.dfy`) holds the board as a sequence of rows. It has:
  - the views that the other three moves hand to `moveLeft` (rows
    reversed, board transposed, or both);
  - the list of empty cells that a new tile is drawn from;
  - the sums that undo uses for the score;
  - the end-of-game conditions.
- `Game` (`game.dfy`) holds the class `Game2048`. Its methods update the
  fields in place, as the source does. Each method's contract ties the new
  state to the functions of `Grids`. The predicate `MoveEffect` states
  what a move in any direction does to the board, the history and the
  score.

Randomness is a parameter. A `Spawn(pick, four)` names the empty cell
(`pick` taken modulo the number of empty cells, in row-major order) and
whether the tile is a 4 rather than a 2. These stand for the two calls to
`Math.random` in `addRandomTile`.

Behaviour of the source that the model keeps:

- `moveRight`, `moveUp` and `moveDown` change `this.grid` into the reversed
  or transposed view before they call `moveLeft`. So the snapshot pushed on
  the history is that view, and the new tile is placed in the view. Undo
  after such a move therefore brings back the reversed or transposed board,
  not the board the player saw. `MoveEffect` states this, and
  `SnapshotIsView` proves that the snapshot is the view of the board
  before the move.
- `undo` sets the score to the sum of the cells of the restored board, not
  to the score at the time of the snapshot. `MoveSum` shows that a move
  raises the sum of the cells by exactly the new tile, because merges keep
  the sum. So the sum differs from the score the merges earned.
- The board size is never checked by the source (it is fixed at 4). The
  model takes any size of at least 1 as a precondition and rejects nothing.

## Model

| member | source | states |
|---|---|---|
| Rows.CollapseRowLeft | script.js:93-109 | the filter, the merge scan (skip both tiles of a merge) and the padding loop yield exactly `CollapseRow(cells, size)`; the score added equals `RowGain(cells)` |
| Rows.PadWithZeros | script.js:107-109 | pushing zeros while the row is shorter than the size yields the row followed by zeros up to the size |
| Rows.NonZeroCounts | script.js:94 | the filter keeps every nonzero value exactly as many times as the row has it, and keeps no zero |
| Rows.CollapseRowShape | script.js:94-109 | a collapsed row has the board width, its zeros are all on the right, its tiles are the merge of the original tiles (the original tiles in order when nothing merges), and its sum is the row's sum |
| Rows.MergeConserves | script.js:97-105 | the merge scan keeps the sum; it shortens the row exactly when two neighbours are equal; without equal neighbours it returns the row as it is and earns nothing |
| Rows.GainBounds | script.js:97-104 | on positive tiles the score of the scan lies between 0 and the row's sum, and is 0 exactly when no two neighbours are equal |
| Rows.RowGainBounds | script.js:94-104 | a row of tiles earns a score between 0 and the row's sum |
| Rows.CollapseRowKeepsTiles | script.js:94-109 | collapsing a row of powers of two yields a row of powers of two and empty cells |
| Rows.CollapseUnchangedIff | script.js:111-113 | a row is left unchanged (the moved test is false for it) exactly when its zeros are all on the right and no two neighbouring tiles are equal |
| Rows.ChangedRowHasRoom | script.js:107-113 | a row that the move changes ends up with an empty cell |
| Rows.UnchangedRowEarnsNothing | script.js:97-113 | a row that the move leaves unchanged adds nothing to the score |
| Rows.CollapseFourEqual | script.js:97-101 | [2,2,2,2] becomes [4,4,0,0] and earns 8: no tile merges twice |
| Rows.CollapseAcrossGap | script.js:94-101 | [2,0,2,4] becomes [4,4,0,0] and earns 4 |
| Rows.CollapseMiddlePair | script.js:97-104 | [4,2,2,4] becomes [4,4,4,0] and earns 4 |
| Grids.EmptyGrid | script.js:14 | the starting board is size by size, with every cell empty |
| Grids.Transpose | script.js:159-161 | the result has as many rows as the input has columns, and cell (i, j) of the result is cell (j, i) of the input |
| Grids.TransposeTwice | script.js:139-142 | on a square board, transposing twice gives back the board |
| Grids.ReverseRowsTwice | script.js:130-132 | reversing every row twice gives back the board |
| Grids.RestoreView | script.js:129-157 | for every direction, undoing the view that the move works on gives back the board |
| Grids.ViewValid | script.js:129-157 | the view of every direction and its undoing keep a valid board valid |
| Grids.CollapseOneMore | script.js:93-116 | one more row extends the collapsed board by its collapsed row and the score by its gain; the board changes exactly when the earlier rows or the new row change |
| Grids.CollapseGridValid | script.js:93-116 | collapsing a valid board yields a valid board with the same sum, and earns a score that is never negative |
| Grids.UnmovedIff | script.js:93-116 | the move to the left leaves the board unchanged exactly when every row is settled |
| Grids.UnmovedEarnsNothing | script.js:93-126 | a move that changes nothing earns no score |
| Grids.MovedLeavesRoom | script.js:118-121 | after a move that changes the board, the collapsed board has an empty cell, so the new tile always finds a place |
| Grids.CollapseFacts | script.js:118-121 | the collapsed board is valid; the score earned is not negative and is 0 when nothing moves; when something moves, the new tile lands in an empty cell |
| Grids.EmptyCellsAre | script.js:74-81 | a cell is in the list of empty cells exactly when it is on the board and holds 0 |
| Grids.AddTileSpec | script.js:83-86 | on a full board placing a tile changes nothing; otherwise exactly one empty cell becomes a 2 or a 4 and every other cell keeps its value |
| Grids.AddTileReachesEveryEmptyCell | script.js:83-85 | every empty cell is the one some draw picks |
| Grids.AddTileValid | script.js:83-86 | placing a tile keeps a board valid |
| Grids.AddTileSum | script.js:85 | placing a tile raises the sum of the board by the tile's value, or by nothing on a full board |
| Grids.MoveSum | script.js:118-121 | after a move that changes the board, the sum of the cells grows by exactly the new tile |
| Grids.GridSumNonNegative | script.js:181-189 | the sum of a board of tiles is never negative |
| Grids.OverLinesLocked | script.js:191-217 | when the game is over, every row and every column is full and has no two equal neighbours |
| Grids.ViewRowsSettled | script.js:191-217 | on a board that is over or empty, no row of any direction's view can change |
| Grids.StuckIff | script.js:191-217 | no direction changes the board exactly when the game-over test holds or the board is empty |
| Grids.StuckBoard | script.js:191-217 | if no row of any view can change, the board is over or empty |
| Grids.OneEmptyAllEmpty | script.js:193-199 | when every row and column is empty or full, one empty cell means the whole board is empty |
| Grids.FullSettledIsOver | script.js:202-216 | a full board whose rows and columns cannot change has no two equal neighbours |
| Game.SnapshotIsView | script.js:118-119 | after a move that changes the board, the history grows by one snapshot, and undoing that move's view of the snapshot gives the board before the move |
| Game.Game2048.constructor | script.js:3-10 | a new game has the given size, no score, no history, and a board made by placing two tiles on an empty board |
| Game.Game2048.Init | script.js:12-26 | the board becomes the empty board with two tiles placed, the score 0 and the history empty |
| Game.Game2048.AddRandomTile | script.js:73-87 | the nested loops list the empty cells row by row, and the board becomes `AddTile` of the old board; score and history are unchanged |
| Game.Game2048.CollapseBoard | script.js:93-116 | the row loop yields the collapsed board and the sum of the row gains; the moved flag is true exactly when the board changes |
| Game.Game2048.MoveLeft | script.js:89-127 | `MoveEffect` for Left: if the board changes, the old board is pushed, the score grows by the gain and the new board is the collapse with a tile placed; otherwise board, score and history are unchanged |
| Game.Game2048.MoveRight | script.js:129-137 | `MoveEffect` for Right: the move to the left on the reversed rows; the reversed board is pushed; if nothing moves the board is as before |
| Game.Game2048.MoveUp | script.js:139-147 | `MoveEffect` for Up: the move to the left on the transposed board; the transposed board is pushed; if nothing moves the board is as before |
| Game.Game2048.MoveDown | script.js:149-157 | `MoveEffect` for Down: the move to the right on the transposed board; the transposed board with its rows reversed is pushed; if nothing moves the board is as before |
| Game.Game2048.Undo | script.js:172-179 | with no history nothing changes; otherwise the last snapshot becomes the board, is popped, and the score becomes the sum of its cells |
| Game.Game2048.CalculateScore | script.js:181-189 | the result is the sum of all cells of the board |
| Game.Game2048.CheckGameOver | script.js:191-217 | true exactly when no cell is 0 and no two horizontally or vertically neighbouring cells are equal |
| Game.Game2048.CheckWin | script.js:219-228 | true exactly when some cell is 2048 |
| Game.Game2048.Play | script.js:244-284 | makes the move as `MoveEffect` says; after a move that changes the board it announces a win if some cell is 2048, else the end of the game if the game-over test holds; it announces nothing when the board is unchanged |

## Left out

- `render` and the tile layout (script.js:28-71): page output and floating-point pixel geometry.
- `updateScore`, the `best` field and its `localStorage` persistence (script.js:7, 163-170): page output and browser storage.
- Key decoding, touch-swipe geometry, the button handlers and the `setTimeout`/`alert` notices (script.js:232-336): the model starts from a decoded `Direction`, and `Notice` stands for the two alerts.
- `Math.random` (script.js:84-85): replaced by the `Spawn` parameter. The 90%/10% odds of a 2 or a 4 are not modelled.
- The fixed size of 4 (script.js:4): the size is a constructor parameter of at least 1.
- Game.Game2048.MoveLeft: adds the score of the whole board after the row loop, where the source adds each merge's value inside the loop. No other code runs in between, so the final score is the same.
- Game.Game2048.MoveRight: reassigns the board with reversed rows, where the source reverses the row arrays in place. The history holds deep copies, so no other reference sees the in-place change.
- Cell values are unbounded integers. JavaScript numbers lose precision only far beyond any reachable tile.
