/**
 * The game object: an n-by-n board, the score, and the stack of board
 * snapshots that undo pops. Every move is the move to the left applied to a
 * view of the board (rows reversed, or the board transposed), and the view
 * is undone afterwards.
 */
module Game {
  import opened Rows
  import opened Grids

  /** What the key handler announces after a move. */
  datatype Notice = Quiet | Victory | Defeat

  /**
   * What a move in direction d does, stated on values: `before`, `past` and
   * `earned` are the board, the history and the score before the move;
   * `after`, `hist` and `total` are the same after it.
   */
  ghost predicate MoveEffect(d: Direction, n: nat, s: Spawn,
                             before: Grid, past: seq<Grid>, earned: int,
                             moved: bool, after: Grid, hist: seq<Grid>, total: int)
    requires n > 0 && IsGrid(before, n)
  {
    var view := View(d, before);
    && moved == Moves(view, n)
    && (moved ==>
          && after == Restore(d, AddTile(CollapseGrid(view, n), s))
          && hist == past + [view]
          && total == earned + GridGain(view))
    && (!moved ==> after == before && hist == past && total == earned)
  }

  /**
   * After a move that changes the board, the snapshot on top of the history
   * is the view the move to the left worked on: undoing its view gives the
   * board before the move, so for a move other than to the left undo
   * brings back the reversed or transposed board rather than that board.
   */
  lemma SnapshotIsView(d: Direction, n: nat, s: Spawn,
                       before: Grid, past: seq<Grid>, earned: int,
                       moved: bool, after: Grid, hist: seq<Grid>, total: int)
    requires n > 0 && IsGrid(before, n)
    requires MoveEffect(d, n, s, before, past, earned, moved, after, hist, total)
    requires moved
    ensures |hist| == |past| + 1 && hist[..|past|] == past
    ensures Restore(d, hist[|past|]) == before
  {
    RestoreView(d, before);
    assert hist[..|past|] == past;
  }

  class Game2048 {
    const size: nat
    var grid: Grid
    var score: int
    var history: seq<Grid>

    /** The board is size-by-size and holds only tiles, as does every snapshot. */
    ghost predicate Valid()
      reads this
    {
      && size > 0
      && ValidGrid(grid, size)
      && score >= 0
      && forall k :: 0 <= k < |history| ==> ValidGrid(history[k], size)
    }

    /** A new game on an n-by-n board, started by Init with the two given draws. */
    constructor (n: nat, first: Spawn, second: Spawn)
      requires n > 0
      ensures Valid() && size == n
      ensures grid == AddTile(AddTile(EmptyGrid(n), first), second)
      ensures score == 0 && history == []
    {
      size := n;
      grid := [];
      score := 0;
      history := [];
      new;
      Init(first, second);
    }

    /** Clears the board, the score and the history, then places two tiles. */
    method Init(first: Spawn, second: Spawn)
      requires size > 0
      modifies this
      ensures Valid()
      ensures grid == AddTile(AddTile(EmptyGrid(size), first), second)
      ensures score == 0 && history == []
    {
      grid := EmptyGrid(size);
      score := 0;
      history := [];
      AddRandomTile(first);
      AddRandomTile(second);
    }

    /**
     * Lists the empty cells row by row and, if there is one, puts a 2 or a
     * 4 (as the draw says) in the one the draw picks.
     */
    method AddRandomTile(s: Spawn)
      requires Valid()
      modifies this
      ensures Valid()
      ensures grid == AddTile(old(grid), s)
      ensures score == old(score) && history == old(history)
    {
      var empty: seq<Cell> := [];
      var i := 0;
      while i < size
        invariant 0 <= i <= size
        invariant empty == Empties(grid, i)
      {
        var j := 0;
        while j < size
          invariant 0 <= j <= size
          invariant empty == Empties(grid, i) + RowEmpties(grid[i], i, j)
        {
          if grid[i][j] == 0 {
            empty := empty + [Cell(i, j)];
          }
          j := j + 1;
        }
        i := i + 1;
      }
      assert empty == EmptyCells(grid);
      AddTileValid(grid, size, s);
      if |empty| > 0 {
        var c := empty[s.pick % |empty|];
        EmptyCellsAre(grid);
        assert c in empty;
        grid := grid[c.row := grid[c.row][c.col := SpawnValue(s)]];
      }
    }

    /**
     * Collapses every row to the left, adding what the merges earn to the
     * score. If some row changed, the board before the move is pushed on
     * the history, the collapsed board replaces it and a tile is placed.
     */
    method MoveLeft(s: Spawn) returns (moved: bool)
      requires Valid()
      modifies this
      ensures Valid()
      ensures MoveEffect(Left, size, s, old(grid), old(history), old(score), moved, grid, history, score)
    {
      var g := grid;
      var newGrid, earned;
      newGrid, earned, moved := CollapseBoard(g, size);
      assert ValidGrid(newGrid, size) && earned >= 0 && (!moved ==> earned == 0) by {
        CollapseFacts(g, size, s);
      }
      score := score + earned;
      if moved {
        history := history + [g];
        grid := newGrid;
        AddRandomTile(s);
      }
    }

    /**
     * The row loop of the move to the left: collapses each row of g in turn,
     * totalling what the merges earn and noting whether any row changed.
     */
    static method CollapseBoard(g: Grid, n: nat) returns (newGrid: Grid, earned: int, moved: bool)
      requires |g| == n
      ensures newGrid == CollapseGrid(g, n)
      ensures earned == GridGain(g)
      ensures moved <==> Moves(g, n)
    {
      moved := false;
      newGrid := [];
      earned := 0;
      var i := 0;
      while i < n
        invariant 0 <= i <= n
        invariant newGrid == CollapseGrid(g[..i], n)
        invariant earned == GridGain(g[..i])
        invariant moved == (newGrid != g[..i])
      {
        var merged, gain := CollapseRowLeft(g[i], n);
        assert && newGrid + [merged] == CollapseGrid(g[..i + 1], n)
               && earned + gain == GridGain(g[..i + 1])
               && (moved || g[i] != merged) == (newGrid + [merged] != g[..i + 1]) by {
          CollapseOneMore(g, n, i);
        }
        earned := earned + gain;
        if g[i] != merged {
          moved := true;
        }
        newGrid := newGrid + [merged];
        i := i + 1;
      }
      assert g[..n] == g;
    }

    /** Reverses every row, moves left, and reverses every row back. */
    method MoveRight(s: Spawn) returns (moved: bool)
      requires Valid()
      modifies this
      ensures Valid()
      ensures MoveEffect(Right, size, s, old(grid), old(history), old(score), moved, grid, history, score)
    {
      ViewValid(Right, grid, size);
      grid := ReverseRows(grid);
      moved := MoveLeft(s);
      ViewValid(Right, grid, size);
      grid := ReverseRows(grid);
      ReverseRowsTwice(old(grid));
    }

    /** Transposes the board, moves left, and transposes it back. */
    method MoveUp(s: Spawn) returns (moved: bool)
      requires Valid()
      modifies this
      ensures Valid()
      ensures MoveEffect(Up, size, s, old(grid), old(history), old(score), moved, grid, history, score)
    {
      ViewValid(Up, grid, size);
      grid := Transpose(grid);
      moved := MoveLeft(s);
      ViewValid(Up, grid, size);
      grid := Transpose(grid);
      TransposeTwice(old(grid), size);
    }

    /** Transposes the board, moves right, and transposes it back. */
    method MoveDown(s: Spawn) returns (moved: bool)
      requires Valid()
      modifies this
      ensures Valid()
      ensures MoveEffect(Down, size, s, old(grid), old(history), old(score), moved, grid, history, score)
    {
      ghost var start := grid;
      ghost var view := View(Down, start);
      ViewValid(Up, grid, size);
      grid := Transpose(grid);
      assert view == View(Right, grid);
      moved := MoveRight(s);
      ViewValid(Up, grid, size);
      grid := Transpose(grid);
      assert moved ==> grid == Restore(Down, AddTile(CollapseGrid(view, size), s));
      assert !moved ==> grid == start by {
        TransposeTwice(start, size);
      }
    }

    /**
     * Pops the last snapshot back onto the board and takes the total of its
     * cells as the score; does nothing when the history is empty.
     */
    method Undo()
      requires Valid()
      modifies this
      ensures Valid()
      ensures old(history) == [] ==> grid == old(grid) && score == old(score) && history == []
      ensures old(history) != [] ==>
        && grid == old(history)[|old(history)| - 1]
        && history == old(history)[..|old(history)| - 1]
        && score == GridSum(grid)
    {
      if |history| > 0 {
        grid := history[|history| - 1];
        history := history[..|history| - 1];
        score := CalculateScore();
        GridSumNonNegative(grid, size);
      }
    }

    /** The total of all cells of the board. */
    method CalculateScore() returns (total: int)
      requires IsGrid(grid, size)
      ensures total == GridSum(grid)
    {
      total := 0;
      var i := 0;
      while i < size
        invariant 0 <= i <= size
        invariant total == GridSum(grid[..i])
      {
        var j := 0;
        while j < size
          invariant 0 <= j <= size
          invariant total == GridSum(grid[..i]) + Sum(grid[i][..j])
        {
          SumAppend(grid[i][..j], [grid[i][j]]);
          assert grid[i][..j + 1] == grid[i][..j] + [grid[i][j]];
          total := total + grid[i][j];
          j := j + 1;
        }
        assert grid[..i + 1][..i] == grid[..i];
        assert grid[i][..size] == grid[i];
        i := i + 1;
      }
      assert grid[..size] == grid;
    }

    /** True when no cell is empty and no two neighbouring cells are equal. */
    method CheckGameOver() returns (over: bool)
      requires IsGrid(grid, size)
      ensures over == GameOver(grid)
    {
      var i := 0;
      while i < size
        invariant 0 <= i <= size
        invariant forall a, b :: 0 <= a < i && 0 <= b < size ==> grid[a][b] != 0
      {
        var j := 0;
        while j < size
          invariant 0 <= j <= size
          invariant forall b :: 0 <= b < j ==> grid[i][b] != 0
        {
          if grid[i][j] == 0 {
            return false;
          }
          j := j + 1;
        }
        i := i + 1;
      }
      i := 0;
      while i < size
        invariant 0 <= i <= size
        invariant forall a, b :: 0 <= a < i && 0 <= b < size ==> !SameAsRight(grid, a, b) && !SameAsBelow(grid, a, b)
      {
        var j := 0;
        while j < size
          invariant 0 <= j <= size
          invariant forall b :: 0 <= b < j ==> !SameAsRight(grid, i, b) && !SameAsBelow(grid, i, b)
        {
          var value := grid[i][j];
          if j < size - 1 && value == grid[i][j + 1] {
            assert SameAsRight(grid, i, j);
            return false;
          }
          if i < size - 1 && value == grid[i + 1][j] {
            assert SameAsBelow(grid, i, j);
            return false;
          }
          j := j + 1;
        }
        i := i + 1;
      }
      return true;
    }

    /** True when some cell holds the winning tile. */
    method CheckWin() returns (won: bool)
      requires IsGrid(grid, size)
      ensures won == HasWinningTile(grid)
    {
      var i := 0;
      while i < size
        invariant 0 <= i <= size
        invariant forall a, b :: 0 <= a < i && 0 <= b < size ==> grid[a][b] != WinningTile
      {
        var j := 0;
        while j < size
          invariant 0 <= j <= size
          invariant forall b :: 0 <= b < j ==> grid[i][b] != WinningTile
        {
          if grid[i][j] == WinningTile {
            return true;
          }
          j := j + 1;
        }
        i := i + 1;
      }
      return false;
    }

    /**
     * The key handler once the key is decoded: makes the move and, if the
     * board changed, announces a win before it considers the end of the game.
     */
    method Play(d: Direction, s: Spawn) returns (moved: bool, notice: Notice)
      requires Valid()
      modifies this
      ensures Valid()
      ensures MoveEffect(d, size, s, old(grid), old(history), old(score), moved, grid, history, score)
      ensures notice == if !moved then Quiet
                        else if HasWinningTile(grid) then Victory
                        else if GameOver(grid) then Defeat
                        else Quiet
    {
      match d {
        case Left => moved := MoveLeft(s);
        case Right => moved := MoveRight(s);
        case Up => moved := MoveUp(s);
        case Down => moved := MoveDown(s);
      }
      notice := Quiet;
      if moved {
        var won := CheckWin();
        if won {
          notice := Victory;
        } else {
          var over := CheckGameOver();
          if over {
            notice := Defeat;
          }
        }
      }
    }
  }
}
