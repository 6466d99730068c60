/** The grid helpers of the engine (aiWrapper.py): a fixed 6 x 7 grid whose
    empty cells hold ".". */
module AiGrid {
  import opened Wrappers
  import Grid
  import Lines

  const ROWS: nat := 6
  const COLS: nat := 7
  const EMPTY: string := "."

  /** The engine works on ROWS rows of COLS cells. */
  predicate WellFormed(grid: Grid.Cells)
  {
    Grid.Shape(grid, ROWS, COLS)
  }

  /** `check_win_token`: a piece is reported only if it is not EMPTY and has
      four in a row; None is reported exactly when no piece has. */
  function CheckWinToken(grid: Grid.Cells): (w: Option<string>)
    requires WellFormed(grid)
    ensures w.Some? ==> w.value != EMPTY && Lines.WinsFor(grid, ROWS, COLS, EMPTY, w.value)
    ensures w.None? <==> forall t :: !Lines.WinsFor(grid, ROWS, COLS, EMPTY, t)
  {
    Lines.WinnerComplete(grid, ROWS, COLS, EMPTY);
    Lines.Winner(grid, ROWS, COLS, EMPTY)
  }

  /** `is_full`: every cell of the top row is occupied, so that no column can
      take another piece. */
  function IsFull(grid: Grid.Cells): (full: bool)
    requires WellFormed(grid)
    ensures full <==> Grid.ColumnsFrom(grid, ROWS, COLS, EMPTY, 0) == []
  {
    var cols := Grid.ColumnsFrom(grid, ROWS, COLS, EMPTY, 0);
    assert cols == [] || cols[0] in cols;
    forall c :: 0 <= c < COLS ==> grid[0][c] != EMPTY
  }

  /** On a grid whose pieces lie on the bottom of their columns, a full top
      row means that no cell at all is empty. */
  lemma FullGridHasNoEmptyCell(grid: Grid.Cells)
    requires WellFormed(grid) && Grid.Gravity(grid, ROWS, COLS, EMPTY) && IsFull(grid)
    ensures Grid.EmptyCount(grid, EMPTY) == 0
  {
    forall r, c | 0 <= r < |grid| && 0 <= c < |grid[r]|
      ensures grid[r][c] != EMPTY
    {
      assert grid[0][c] != EMPTY;
    }
    Grid.EmptyCountZero(grid, EMPTY);
  }

  /** `get_valid_columns`: exactly the columns whose top cell is EMPTY, in
      ascending order; there are none exactly when the grid is full. */
  function GetValidColumns(grid: Grid.Cells): (cols: seq<nat>)
    requires WellFormed(grid)
    ensures forall x :: x in cols <==> 0 <= x < COLS && grid[0][x] == EMPTY
    ensures forall k :: 0 <= k < |cols| ==> cols[k] < COLS && grid[0][cols[k]] == EMPTY
    ensures forall i, j :: 0 <= i < j < |cols| ==> cols[i] < cols[j]
    ensures cols == [] <==> IsFull(grid)
  {
    var cols := Grid.ColumnsFrom(grid, ROWS, COLS, EMPTY, 0);
    assert forall k :: 0 <= k < |cols| ==> cols[k] in cols;
    cols
  }

  /** The grid that `drop_piece_copy` returns. */
  function Dropped(grid: Grid.Cells, col: int, piece: string): Grid.Cells
    requires WellFormed(grid) && 0 <= col < COLS
  {
    Grid.Dropped(grid, ROWS, COLS, EMPTY, col, piece)
  }

  /** `drop_piece_copy`: copies the rows, then scans column col from the bottom
      row up and writes piece into the first EMPTY cell. The input is a value
      and is never changed. */
  method DropPieceCopy(grid: Grid.Cells, col: int, piece: string) returns (newGrid: Grid.Cells)
    requires WellFormed(grid) && 0 <= col < COLS
    ensures newGrid == Dropped(grid, col, piece)
  {
    newGrid := grid;
    var r := ROWS - 1;
    while r >= 0
      invariant -1 <= r < ROWS
      invariant newGrid == grid
      invariant Grid.LowestEmptyFrom(grid, ROWS, COLS, EMPTY, col, r)
             == Grid.LowestEmptyFrom(grid, ROWS, COLS, EMPTY, col, ROWS - 1)
    {
      if newGrid[r][col] == EMPTY {
        newGrid := newGrid[r := newGrid[r][col := piece]];
        break;
      }
      r := r - 1;
    }
  }
}
