/**
 * The board as an n-by-n matrix of cells, the views the four moves work
 * on, the empty-cell scan that places a new tile, and the end-of-game
 * conditions.
 */
module Grids {
  import opened Rows

  type Grid = seq<seq<int>>

  /** Every row of g has n cells. */
  ghost predicate Width(g: Grid, n: nat)
  {
    forall i :: 0 <= i < |g| ==> |g[i]| == n
  }

  /** g is an n-by-n board. */
  ghost predicate IsGrid(g: Grid, n: nat)
  {
    |g| == n && Width(g, n)
  }

  /** g is an n-by-n board whose every cell is empty or a tile. */
  ghost predicate ValidGrid(g: Grid, n: nat)
  {
    IsGrid(g, n) && forall i, j :: 0 <= i < n && 0 <= j < n ==> IsTile(g[i][j])
  }

  /** The board a new game starts from: n rows of n empty cells. */
  function EmptyGrid(n: nat): (g: Grid)
    ensures ValidGrid(g, n)
    ensures forall i, j :: 0 <= i < n && 0 <= j < n ==> g[i][j] == 0
  {
    seq(n, _ => Zeros(n))
  }

  function ReverseRows(g: Grid): (r: Grid)
    ensures |r| == |g| && forall i :: 0 <= i < |g| ==> r[i] == Reversed(g[i])
  {
    seq(|g|, i requires 0 <= i < |g| => Reversed(g[i]))
  }

  /** Rows become columns: cell (i, j) of the result is cell (j, i) of m. */
  function Transpose(m: Grid): (r: Grid)
    requires |m| > 0 && Width(m, |m[0]|)
    ensures |r| == |m[0]| && Width(r, |m|)
    ensures forall i, j :: 0 <= i < |m[0]| && 0 <= j < |m| ==> r[i][j] == m[j][i]
  {
    seq(|m[0]|, i requires 0 <= i < |m[0]| => seq(|m|, j requires 0 <= j < |m| => m[j][i]))
  }

  /** Each row collapsed to the left and padded to width n. */
  function CollapseGrid(g: Grid, n: nat): (r: Grid)
    ensures |r| == |g| && forall i :: 0 <= i < |g| ==> r[i] == CollapseRow(g[i], n)
  {
    seq(|g|, i requires 0 <= i < |g| => CollapseRow(g[i], n))
  }

  /** The score a move to the left earns on the whole board. */
  function GridGain(g: Grid): (r: int)
  {
    if |g| == 0 then 0 else GridGain(g[..|g| - 1]) + RowGain(g[|g| - 1])
  }

  /** The total of all cells of the board. */
  function GridSum(g: Grid): (r: int)
  {
    if |g| == 0 then 0 else GridSum(g[..|g| - 1]) + Sum(g[|g| - 1])
  }

  /** A move to the left changes the board. */
  ghost predicate Moves(g: Grid, n: nat)
  {
    CollapseGrid(g, n) != g
  }

  // ---- Directions ----

  datatype Direction = Left | Right | Up | Down

  /**
   * The board the left-move logic sees for a move in direction d: rows
   * reversed for Right, transposed for Up, transposed and then reversed for
   * Down.
   */
  function View(d: Direction, g: Grid): (r: Grid)
    requires |g| > 0 && IsGrid(g, |g|)
    ensures IsGrid(r, |g|)
  {
    match d
    case Left => g
    case Right => ReverseRows(g)
    case Up => Transpose(g)
    case Down => ReverseRows(Transpose(g))
  }

  /** The transformation that undoes View once the left move is done. */
  function Restore(d: Direction, g: Grid): (r: Grid)
    requires |g| > 0 && IsGrid(g, |g|)
    ensures IsGrid(r, |g|)
  {
    match d
    case Left => g
    case Right => ReverseRows(g)
    case Up => Transpose(g)
    case Down => Transpose(ReverseRows(g))
  }

  /** Reversing every row twice gives back the board. */
  lemma ReverseRowsTwice(g: Grid)
    ensures ReverseRows(ReverseRows(g)) == g
  {
    forall i | 0 <= i < |g| ensures ReverseRows(ReverseRows(g))[i] == g[i] {
      ReversedTwice(g[i]);
    }
  }

  /** On a board of at least one row and column, transposing twice gives back the board. */
  lemma TransposeTwice(g: Grid, n: nat)
    requires n > 0 && IsGrid(g, n)
    ensures Transpose(Transpose(g)) == g
  {
    var t := Transpose(Transpose(g));
    forall i | 0 <= i < n ensures t[i] == g[i] {
      assert |t[i]| == n;
    }
  }

  /** Undoing the view of any direction gives back the board. */
  lemma RestoreView(d: Direction, g: Grid)
    requires |g| > 0 && IsGrid(g, |g|)
    ensures Restore(d, View(d, g)) == g
  {
    match d
    case Left =>
    case Right => ReverseRowsTwice(g);
    case Up => TransposeTwice(g, |g|);
    case Down =>
      ReverseRowsTwice(Transpose(g));
      TransposeTwice(g, |g|);
  }

  lemma ReverseRowsValid(g: Grid, n: nat)
    requires ValidGrid(g, n)
    ensures ValidGrid(ReverseRows(g), n)
  {
    var r := ReverseRows(g);
    forall i, j | 0 <= i < n && 0 <= j < n ensures IsTile(r[i][j]) {
      assert r[i][j] == g[i][n - 1 - j];
    }
  }

  lemma TransposeValid(g: Grid, n: nat)
    requires n > 0 && ValidGrid(g, n)
    ensures ValidGrid(Transpose(g), n)
  {
  }

  /** Both the view of a direction and its undoing keep a board valid. */
  lemma ViewValid(d: Direction, g: Grid, n: nat)
    requires n > 0 && ValidGrid(g, n)
    ensures ValidGrid(View(d, g), n) && ValidGrid(Restore(d, g), n)
  {
    ReverseRowsValid(g, n);
    TransposeValid(g, n);
    if d == Down {
      ReverseRowsValid(Transpose(g), n);
      TransposeValid(ReverseRows(g), n);
    }
  }

  // ---- Collapsing the whole board ----

  lemma CollapsePrefix(g: Grid, n: nat, k: nat)
    requires k <= |g|
    ensures CollapseGrid(g[..k], n) == CollapseGrid(g, n)[..k]
  {
  }

  /** What one more row adds to the collapse of the first i rows, to its score and to whether it moves. */
  lemma CollapseOneMore(g: Grid, n: nat, i: nat)
    requires i < |g|
    ensures CollapseGrid(g[..i + 1], n) == CollapseGrid(g[..i], n) + [CollapseRow(g[i], n)]
    ensures GridGain(g[..i + 1]) == GridGain(g[..i]) + RowGain(g[i])
    ensures (CollapseGrid(g[..i + 1], n) != g[..i + 1])
            == (CollapseGrid(g[..i], n) != g[..i] || CollapseRow(g[i], n) != g[i])
  {
    var p, q := g[..i], g[..i + 1];
    assert q[..i] == p && q == p + [g[i]];
    var c, d := CollapseGrid(p, n), CollapseGrid(q, n);
    assert d == c + [CollapseRow(g[i], n)];
    if d == q {
      assert d[..i] == c && q[..i] == p && d[i] == CollapseRow(g[i], n);
    }
  }

  /**
   * Collapsing a valid board yields a valid board with the same total, and
   * the score it earns is never negative.
   */
  lemma CollapseGridValid(g: Grid, n: nat)
    requires |g| <= n && Width(g, n)
    requires forall i, j :: 0 <= i < |g| && 0 <= j < n ==> IsTile(g[i][j])
    ensures Width(CollapseGrid(g, n), n)
    ensures forall i, j :: 0 <= i < |g| && 0 <= j < n ==> IsTile(CollapseGrid(g, n)[i][j])
    ensures GridSum(CollapseGrid(g, n)) == GridSum(g)
    ensures GridGain(g) >= 0
  {
    var r := CollapseGrid(g, n);
    forall i | 0 <= i < |g| ensures |r[i]| == n && AllTiles(r[i]) {
      CollapseRowShape(g[i], n);
      CollapseRowKeepsTiles(g[i], n);
    }
    CollapseGridSum(g, n);
  }

  /** Collapsing keeps the total of the board, and earns a score that is never negative. */
  lemma {:induction false} CollapseGridSum(g: Grid, n: nat)
    requires Width(g, n)
    requires forall i, j :: 0 <= i < |g| && 0 <= j < n ==> IsTile(g[i][j])
    ensures GridSum(CollapseGrid(g, n)) == GridSum(g)
    ensures GridGain(g) >= 0
  {
    if |g| > 0 {
      var k := |g| - 1;
      CollapseGridSum(g[..k], n);
      CollapsePrefix(g, n, k);
      CollapseRowShape(g[k], n);
      assert AllTiles(g[k]);
      RowGainBounds(g[k]);
    }
  }

  /** A board that a move to the left leaves as it is earns no score. */
  lemma {:induction false} UnmovedEarnsNothing(g: Grid, n: nat)
    requires Width(g, n) && CollapseGrid(g, n) == g
    ensures GridGain(g) == 0
  {
    if |g| > 0 {
      var k := |g| - 1;
      CollapsePrefix(g, n, k);
      UnmovedEarnsNothing(g[..k], n);
      UnchangedRowEarnsNothing(g[k]);
    }
  }

  /** A move to the left leaves the board unchanged exactly when every row is settled. */
  lemma UnmovedIff(g: Grid, n: nat)
    requires Width(g, n)
    ensures CollapseGrid(g, n) == g <==> forall i :: 0 <= i < |g| ==> Settled(g[i])
  {
    forall i | 0 <= i < |g| ensures CollapseRow(g[i], n) == g[i] <==> Settled(g[i]) {
      CollapseUnchangedIff(g[i]);
    }
    if forall i :: 0 <= i < |g| ==> Settled(g[i]) {
      assert CollapseGrid(g, n) == g;
    }
  }

  // ---- Empty cells and the new tile ----

  datatype Cell = Cell(row: nat, col: nat)

  /** The empty cells among the first n cells of row number i, left to right. */
  function RowEmpties(row: seq<int>, i: nat, n: nat): (r: seq<Cell>)
    requires n <= |row|
  {
    if n == 0 then []
    else RowEmpties(row, i, n - 1) + (if row[n - 1] == 0 then [Cell(i, n - 1)] else [])
  }

  /** The empty cells of the first m rows, row by row. */
  function Empties(g: Grid, m: nat): (r: seq<Cell>)
    requires m <= |g|
  {
    if m == 0 then []
    else Empties(g, m - 1) + RowEmpties(g[m - 1], m - 1, |g[m - 1]|)
  }

  /** The empty cells of the board in row-major order. */
  function EmptyCells(g: Grid): (r: seq<Cell>)
  {
    Empties(g, |g|)
  }

  ghost predicate IsEmptyCell(g: Grid, c: Cell)
  {
    c.row < |g| && c.col < |g[c.row]| && g[c.row][c.col] == 0
  }

  lemma {:induction false} RowEmptiesAre(row: seq<int>, i: nat, n: nat)
    requires n <= |row|
    ensures forall c :: c in RowEmpties(row, i, n) <==> c.row == i && c.col < n && row[c.col] == 0
  {
    if n > 0 {
      RowEmptiesAre(row, i, n - 1);
    }
  }

  lemma {:induction false} EmptiesAre(g: Grid, m: nat)
    requires m <= |g|
    ensures forall c :: c in Empties(g, m) <==> c.row < m && IsEmptyCell(g, c)
  {
    if m > 0 {
      EmptiesAre(g, m - 1);
      RowEmptiesAre(g[m - 1], m - 1, |g[m - 1]|);
    }
  }

  /** The scan finds exactly the empty cells of the board. */
  lemma EmptyCellsAre(g: Grid)
    ensures forall c :: c in EmptyCells(g) <==> IsEmptyCell(g, c)
  {
    EmptiesAre(g, |g|);
  }

  /**
   * The outcome of the two random draws of a tile spawn: which of the empty
   * cells (taken modulo their number) and whether the tile is a 4 instead
   * of a 2.
   */
  datatype Spawn = Spawn(pick: nat, four: bool)

  function SpawnValue(s: Spawn): (r: int)
  {
    if s.four then 4 else 2
  }

  /** The board after a new tile is placed: unchanged when no cell is empty. */
  function AddTile(g: Grid, s: Spawn): (r: Grid)
    ensures |r| == |g| && forall i :: 0 <= i < |g| ==> |r[i]| == |g[i]|
  {
    var cells := EmptyCells(g);
    if |cells| == 0 then g
    else
      var c := cells[s.pick % |cells|];
      EmptyCellsAre(g);
      assert c in cells;
      g[c.row := g[c.row][c.col := SpawnValue(s)]]
  }

  /** r is g with the empty cell c holding a 2 or a 4 and every other cell unchanged. */
  ghost predicate PlacedAt(g: Grid, r: Grid, c: Cell)
  {
    && |r| == |g| && (forall i :: 0 <= i < |g| ==> |r[i]| == |g[i]|)
    && IsEmptyCell(g, c)
    && (r[c.row][c.col] == 2 || r[c.row][c.col] == 4)
    && forall i, j :: 0 <= i < |g| && 0 <= j < |g[i]| && (i != c.row || j != c.col) ==> r[i][j] == g[i][j]
  }

  ghost predicate HasEmptyCell(g: Grid)
  {
    exists i, j :: 0 <= i < |g| && 0 <= j < |g[i]| && g[i][j] == 0
  }

  /**
   * Placing a tile changes nothing on a full board; otherwise exactly one
   * empty cell becomes a 2 or a 4 and every other cell keeps its value.
   */
  lemma AddTileSpec(g: Grid, s: Spawn)
    ensures !HasEmptyCell(g) ==> AddTile(g, s) == g
    ensures HasEmptyCell(g) ==> exists c :: PlacedAt(g, AddTile(g, s), c)
  {
    var cells := EmptyCells(g);
    EmptyCellsAre(g);
    assert |cells| > 0 ==> cells[0] in cells && IsEmptyCell(g, cells[0]);
    if HasEmptyCell(g) {
      var i, j :| 0 <= i < |g| && 0 <= j < |g[i]| && g[i][j] == 0;
      assert Cell(i, j) in cells;
      var c := cells[s.pick % |cells|];
      assert c in cells;
      assert AddTile(g, s) == g[c.row := g[c.row][c.col := SpawnValue(s)]];
      assert PlacedAt(g, AddTile(g, s), c);
    }
  }

  /** Every empty cell is the one some draw places the new tile in. */
  lemma AddTileReachesEveryEmptyCell(g: Grid, c: Cell)
    requires IsEmptyCell(g, c)
    ensures exists t :: PlacedAt(g, AddTile(g, t), c)
  {
    var cells := EmptyCells(g);
    EmptyCellsAre(g);
    assert c in cells;
    var k :| 0 <= k < |cells| && cells[k] == c;
    var t := Spawn(k, false);
    var r := g[c.row := g[c.row][c.col := 2]];
    assert AddTile(g, t) == r by {
      assert t.pick % |cells| == k;
    }
    assert PlacedAt(g, r, c);
  }

  lemma AddTileValid(g: Grid, n: nat, s: Spawn)
    requires ValidGrid(g, n)
    ensures ValidGrid(AddTile(g, s), n)
  {
    AddTileSpec(g, s);
    var r := AddTile(g, s);
    if HasEmptyCell(g) {
      var c :| PlacedAt(g, r, c);
      forall i, j | 0 <= i < n && 0 <= j < n ensures IsTile(r[i][j]) {
        if i == c.row && j == c.col {
          assert r[i][j] == 2 || r[i][j] == 4;
          assert IsPowerOfTwo(2) && IsPowerOfTwo(4 / 2);
        }
      }
    }
  }

  /**
   * A move to the left that changes the board leaves at least one empty
   * cell, so the tile spawned after it always finds a place.
   */
  lemma MovedLeavesRoom(g: Grid, n: nat)
    requires Width(g, n) && Moves(g, n)
    ensures HasEmptyCell(CollapseGrid(g, n))
  {
    var r := CollapseGrid(g, n);
    var i :| 0 <= i < |g| && r[i] != g[i];
    ChangedRowHasRoom(g[i]);
    var j :| 0 <= j < |r[i]| && r[i][j] == 0;
  }

  /**
   * What the move to the left needs about a valid board: the collapsed
   * board is valid, the score earned is never negative and is zero when
   * nothing moves, and when something moves the new tile finds a place.
   */
  lemma CollapseFacts(g: Grid, n: nat, s: Spawn)
    requires ValidGrid(g, n)
    ensures ValidGrid(CollapseGrid(g, n), n)
    ensures GridGain(g) >= 0
    ensures !Moves(g, n) ==> GridGain(g) == 0
    ensures Moves(g, n) ==> exists c :: PlacedAt(CollapseGrid(g, n), AddTile(CollapseGrid(g, n), s), c)
  {
    CollapseGridValid(g, n);
    if Moves(g, n) {
      MovedLeavesRoom(g, n);
      AddTileSpec(CollapseGrid(g, n), s);
    } else {
      UnmovedEarnsNothing(g, n);
    }
  }

  // ---- Sums of the board, for the score that undo recomputes ----

  lemma {:induction false} SumUpdate(s: seq<int>, j: nat, v: int)
    requires j < |s|
    ensures Sum(s[j := v]) == Sum(s) - s[j] + v
  {
    if j > 0 {
      assert s[j := v][1..] == s[1..][j - 1 := v];
      SumUpdate(s[1..], j - 1, v);
    }
  }

  lemma {:induction false} GridSumUpdate(g: Grid, i: nat, row: seq<int>)
    requires i < |g|
    ensures GridSum(g[i := row]) == GridSum(g) - Sum(g[i]) + Sum(row)
  {
    var k := |g| - 1;
    if i < k {
      assert g[i := row][..k] == g[..k][i := row];
      GridSumUpdate(g[..k], i, row);
    } else {
      assert g[i := row][..k] == g[..k];
    }
  }

  /**
   * Placing a tile raises the total of the board by the value of the tile,
   * or by nothing on a full board.
   */
  lemma AddTileSum(g: Grid, s: Spawn)
    ensures GridSum(AddTile(g, s)) == GridSum(g) + (if HasEmptyCell(g) then SpawnValue(s) else 0)
  {
    AddTileSpec(g, s);
    var cells := EmptyCells(g);
    EmptyCellsAre(g);
    if |cells| > 0 {
      var c := cells[s.pick % |cells|];
      assert c in cells;
      SumUpdate(g[c.row], c.col, SpawnValue(s));
      GridSumUpdate(g, c.row, g[c.row][c.col := SpawnValue(s)]);
    }
  }

  /**
   * After a move that changes the board, the total of the cells grows by
   * exactly the spawned tile: merges conserve the total, so the total that
   * undo takes as the score does not follow the score the merges earned.
   */
  lemma MoveSum(g: Grid, n: nat, s: Spawn)
    requires ValidGrid(g, n) && Moves(g, n)
    ensures GridSum(AddTile(CollapseGrid(g, n), s)) == GridSum(g) + SpawnValue(s)
  {
    CollapseGridValid(g, n);
    MovedLeavesRoom(g, n);
    AddTileSum(CollapseGrid(g, n), s);
  }

  lemma {:induction false} GridSumNonNegative(g: Grid, n: nat)
    requires |g| <= n && Width(g, n)
    requires forall i, j :: 0 <= i < |g| && 0 <= j < n ==> IsTile(g[i][j])
    ensures GridSum(g) >= 0
  {
    if |g| > 0 {
      var k := |g| - 1;
      GridSumNonNegative(g[..k], n);
      RowSumNonNegative(g[k]);
    }
  }

  lemma {:induction false} RowSumNonNegative(s: seq<int>)
    requires AllTiles(s)
    ensures Sum(s) >= 0
  {
    if |s| > 0 {
      assert AllTiles(s[1..]) by {
        forall k | 0 <= k < |s[1..]| ensures IsTile(s[1..][k]) { assert s[1..][k] == s[k + 1]; }
      }
      RowSumNonNegative(s[1..]);
    }
  }

  // ---- End of the game ----

  const WinningTile := 2048

  /** Some cell holds the winning tile. */
  ghost predicate HasWinningTile(g: Grid)
  {
    exists i, j :: 0 <= i < |g| && 0 <= j < |g[i]| && g[i][j] == WinningTile
  }

  /** Cell (i, j) holds the same value as its right-hand neighbour. */
  ghost predicate SameAsRight(g: Grid, i: int, j: int)
  {
    0 <= i < |g| && 0 <= j && j + 1 < |g[i]| && g[i][j] == g[i][j + 1]
  }

  /** Cell (i, j) holds the same value as the cell below it. */
  ghost predicate SameAsBelow(g: Grid, i: int, j: int)
  {
    0 <= i && i + 1 < |g| && 0 <= j < |g[i]| && j < |g[i + 1]| && g[i][j] == g[i + 1][j]
  }

  /** Some pair of horizontally or vertically neighbouring cells are equal. */
  ghost predicate HasEqualNeighbours(g: Grid)
  {
    exists i, j :: SameAsRight(g, i, j) || SameAsBelow(g, i, j)
  }

  /** No cell is empty and no two neighbouring cells are equal. */
  ghost predicate GameOver(g: Grid)
  {
    !HasEmptyCell(g) && !HasEqualNeighbours(g)
  }

  ghost predicate AllEmpty(g: Grid)
  {
    forall i, j :: 0 <= i < |g| && 0 <= j < |g[i]| ==> g[i][j] == 0
  }

  /** No direction changes the board. */
  ghost predicate Stuck(g: Grid)
    requires |g| > 0 && IsGrid(g, |g|)
  {
    forall d :: CollapseGrid(View(d, g), |g|) == View(d, g)
  }

  /** A full line with no two equal neighbours: nothing in it can move. */
  ghost predicate Locked(s: seq<int>)
  {
    (forall k :: 0 <= k < |s| ==> s[k] != 0) && NoEqualNeighbours(s)
  }

  /** A line of empty cells. */
  ghost predicate Blank(s: seq<int>)
  {
    forall k :: 0 <= k < |s| ==> s[k] == 0
  }

  /** A locked line is settled. */
  lemma LockedSettled(s: seq<int>)
    requires Locked(s)
    ensures Settled(s)
  {
  }

  /** A blank line is settled. */
  lemma BlankSettled(s: seq<int>)
    requires Blank(s)
    ensures Settled(s)
  {
  }

  /** Read backwards, a locked line stays locked and a blank one blank. */
  lemma ReversedLine(s: seq<int>)
    ensures Locked(s) ==> Locked(Reversed(s))
    ensures Blank(s) ==> Blank(Reversed(s))
  {
    var n, r := |s|, Reversed(s);
    if Locked(s) {
      forall k | 0 <= k && k + 1 < n ensures r[k] != r[k + 1] {
        assert r[k] == s[n - 1 - k] && r[k + 1] == s[n - 1 - k - 1];
      }
    }
  }

  /** When the game is over, every row and every column is locked. */
  lemma OverLinesLocked(g: Grid, n: nat)
    requires n > 0 && IsGrid(g, n) && GameOver(g)
    ensures forall i :: 0 <= i < n ==> Locked(g[i]) && Locked(Transpose(g)[i])
  {
    var u := Transpose(g);
    forall i | 0 <= i < n ensures Locked(g[i]) && Locked(u[i]) {
      forall k | 0 <= k < n ensures g[i][k] != 0 && u[i][k] != 0 {
        assert u[i][k] == g[k][i];
      }
      forall k | 0 <= k && k + 1 < n ensures g[i][k] != g[i][k + 1] && u[i][k] != u[i][k + 1] {
        assert !SameAsRight(g, i, k) && !SameAsBelow(g, k, i);
      }
    }
  }

  /**
   * On a board where no move is possible in the game's sense, or on an
   * empty board, every row of every view is settled.
   */
  lemma ViewRowsSettled(d: Direction, g: Grid, n: nat)
    requires n > 0 && IsGrid(g, n)
    requires GameOver(g) || AllEmpty(g)
    ensures forall i :: 0 <= i < n ==> Settled(View(d, g)[i])
  {
    var v, u := View(d, g), Transpose(g);
    if GameOver(g) {
      OverLinesLocked(g, n);
    }
    forall i | 0 <= i < n ensures Settled(v[i]) {
      var line := if d == Left || d == Right then g[i] else u[i];
      assert v[i] == line || v[i] == Reversed(line);
      ReversedLine(line);
      if GameOver(g) {
        LockedSettled(v[i]);
      } else {
        assert Blank(line) by {
          forall k | 0 <= k < n ensures line[k] == 0 {
            assert u[i][k] == g[k][i];
          }
        }
        BlankSettled(v[i]);
      }
    }
  }

  /**
   * No direction changes the board exactly when the game is over or the
   * board is empty: on a board with a tile, the game-over test says that
   * no move is left.
   */
  lemma StuckIff(g: Grid, n: nat)
    requires n > 0 && IsGrid(g, n)
    ensures Stuck(g) <==> GameOver(g) || AllEmpty(g)
  {
    if GameOver(g) || AllEmpty(g) {
      forall d ensures CollapseGrid(View(d, g), n) == View(d, g) {
        ViewRowsSettled(d, g, n);
        UnmovedIff(View(d, g), n);
      }
    }
    if Stuck(g) {
      forall d ensures forall i :: 0 <= i < n ==> Settled(View(d, g)[i]) {
        assert CollapseGrid(View(d, g), n) == View(d, g);
        UnmovedIff(View(d, g), n);
      }
      StuckBoard(g, n);
    }
  }

  ghost predicate EmptyOrFull(s: seq<int>)
  {
    (forall k :: 0 <= k < |s| ==> s[k] == 0) || (forall k :: 0 <= k < |s| ==> s[k] != 0)
  }

  /** A line settled in both directions is either empty or full. */
  lemma LineEmptyOrFull(s: seq<int>)
    requires Settled(s) && Settled(Reversed(s))
    ensures EmptyOrFull(s)
  {
    var n := |s|;
    if exists j :: 0 <= j < n && s[j] == 0 {
      var j :| 0 <= j < n && s[j] == 0;
      forall k | 0 <= k < n ensures s[k] == 0 {
        if k < j {
          assert Reversed(s)[n - 1 - j] == 0 && Reversed(s)[n - 1 - k] == s[k];
        }
      }
    }
  }

  /** The converse half of StuckIff, from the settled rows of all four views. */
  lemma StuckBoard(g: Grid, n: nat)
    requires n > 0 && IsGrid(g, n)
    requires forall d :: forall i :: 0 <= i < n ==> Settled(View(d, g)[i])
    ensures GameOver(g) || AllEmpty(g)
  {
    var l, r, u, w := View(Left, g), View(Right, g), View(Up, g), View(Down, g);
    assert forall i :: 0 <= i < n ==> Settled(l[i]) && Settled(r[i]) && Settled(u[i]) && Settled(w[i]);
    forall i | 0 <= i < n ensures EmptyOrFull(g[i]) {
      LineEmptyOrFull(g[i]);
    }
    forall j | 0 <= j < n ensures EmptyOrFull(u[j]) {
      assert w[j] == Reversed(u[j]);
      LineEmptyOrFull(u[j]);
    }
    if HasEmptyCell(g) {
      OneEmptyAllEmpty(g, n);
    } else {
      FullSettledIsOver(g, n);
    }
  }

  /** When every row and every column is empty or full, one empty cell empties the board. */
  lemma OneEmptyAllEmpty(g: Grid, n: nat)
    requires n > 0 && IsGrid(g, n)
    requires forall i :: 0 <= i < n ==> EmptyOrFull(g[i])
    requires forall j :: 0 <= j < n ==> EmptyOrFull(Transpose(g)[j])
    requires HasEmptyCell(g)
    ensures AllEmpty(g)
  {
    var u := Transpose(g);
    var i, j :| 0 <= i < |g| && 0 <= j < |g[i]| && g[i][j] == 0;
    assert EmptyOrFull(g[i]);
    forall a, b | 0 <= a < n && 0 <= b < n ensures g[a][b] == 0 {
      assert g[i][b] == 0;
      assert u[b][i] == 0 && EmptyOrFull(u[b]);
      assert u[b][a] == g[a][b];
    }
  }

  /** A full board whose rows and columns are all settled has no equal neighbours. */
  lemma FullSettledIsOver(g: Grid, n: nat)
    requires n > 0 && IsGrid(g, n)
    requires forall i :: 0 <= i < n ==> Settled(g[i]) && Settled(Transpose(g)[i])
    requires !HasEmptyCell(g)
    ensures GameOver(g)
  {
    var u := Transpose(g);
    forall i, j ensures !SameAsRight(g, i, j) && !SameAsBelow(g, i, j) {
      if 0 <= i < n && 0 <= j && j + 1 < n {
        assert g[i][j + 1] != 0;
      }
      if 0 <= i && i + 1 < n && 0 <= j < n {
        assert u[j][i + 1] == g[i + 1][j] && u[j][i] == g[i][j];
      }
    }
  }
}
