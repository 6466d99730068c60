/** The console game's records (connect4.py): the players, the mutable board
    with any number of rows and columns whose empty cells hold "-", and the
    reset of a match. The board's cells are an array updated in place; its
    view as a Grid.Cells value connects it to the definitions of modules Grid
    and Lines. */
module Connect4 {
  import opened Wrappers
  import Grid
  import Lines

  /** The marker of an empty cell of the console board. */
  const BLANK: string := "-"

  /** A player of the console game (a dataclass whose `wins` defaults to 0). */
  class Player {
    var name: string
    var gamePiece: string
    var wins: int

    constructor(name: string, gamePiece: string, wins: int := 0)
      ensures this.name == name && this.gamePiece == gamePiece && this.wins == wins
    {
      this.name := name;
      this.gamePiece := gamePiece;
      this.wins := wins;
    }
  }

  /** The console board: row x column cells, row 0 on top. The dimensions are
      never reassigned after construction, and neither is the cell store; only
      its cells change. */
  class Board {
    const row: nat
    const column: nat
    const board: array2<string>

    /** The cell store has the board's dimensions. */
    predicate Valid()
    {
      board.Length0 == row && board.Length1 == column
    }

    /** The cells as a value, row by row. */
    function Cells(): (g: Grid.Cells)
      reads board
      requires Valid()
      ensures Grid.Shape(g, row, column)
      ensures forall r, c :: 0 <= r < row && 0 <= c < column ==> g[r][c] == board[r, c]
    {
      seq(row, r requires 0 <= r < row reads board =>
        seq(column, c requires 0 <= c < column reads board => board[r, c]))
    }

    /** `Board(rows, cols)`: a fresh rows x cols board of empty cells. */
    constructor(rows: nat := 6, cols: nat := 7)
      ensures Valid() && row == rows && column == cols && fresh(board)
      ensures forall r, c :: 0 <= r < row && 0 <= c < column ==> board[r, c] == BLANK
    {
      row := rows;
      column := cols;
      board := new string[rows, cols]((r, c) => BLANK);
    }

    /** `reset`: every cell is emptied again, row by row. */
    method Reset()
      requires Valid()
      modifies board
      ensures forall r, c :: 0 <= r < row && 0 <= c < column ==> board[r, c] == BLANK
      ensures CheckWinToken() == None
    {
      for r := 0 to row
        invariant forall i, c :: 0 <= i < r && 0 <= c < column ==> board[i, c] == BLANK
      {
        for c := 0 to column
          invariant forall i, j :: 0 <= i < r && 0 <= j < column ==> board[i, j] == BLANK
          invariant forall j :: 0 <= j < c ==> board[r, j] == BLANK
        {
          board[r, c] := BLANK;
        }
      }
      Lines.NoRunOnBlankGrid(Cells(), row, column, BLANK);
    }

    /** `check_draw`: every cell of the top row is occupied, so that no column
        can take another piece. A board without rows has no top row to read,
        unless it has no columns either. */
    function CheckDraw(): (draw: bool)
      reads board
      requires Valid() && (row > 0 || column == 0)
      ensures draw <==> forall c :: 0 <= c < column ==> board[0, c] != BLANK
      ensures row > 0 ==> (draw <==> Grid.ColumnsFrom(Cells(), row, column, BLANK, 0) == [])
    {
      var draw := forall c :: 0 <= c < column ==> board[0, c] != BLANK;
      if row > 0 then
        var g := Cells();
        var cols := Grid.ColumnsFrom(g, row, column, BLANK, 0);
        assert !draw ==> exists c :: 0 <= c < column && g[0][c] == BLANK;
        assert cols == [] || cols[0] in cols;
        draw
      else draw
    }

    /** `drop_piece`: a column whose top cell is occupied is refused and the
        board stays as it was; otherwise the scan from the bottom row up puts
        token into the lowest empty cell of the column and no other cell
        changes. The scan cannot run off the top, because the top cell is
        empty: the fallback after the loop is unreachable. */
    method DropPiece(col: int, token: string) returns (placed: bool)
      requires Valid() && 0 < row && 0 <= col < column
      modifies board
      ensures placed <==> old(board[0, col]) == BLANK
      ensures !placed ==> unchanged(board)
      ensures placed ==> Cells() == Grid.Dropped(old(Cells()), row, column, BLANK, col, token)
      ensures Grid.Gravity(old(Cells()), row, column, BLANK) ==> Grid.Gravity(Cells(), row, column, BLANK)
    {
      if board[0, col] != BLANK {
        return false;
      }
      ghost var before := Cells();
      var r := row - 1;
      while r >= 0
        invariant -1 <= r < row
        invariant unchanged(board)
        invariant forall j :: r < j < row ==> board[j, col] != BLANK
      {
        if board[r, col] == BLANK {
          board[r, col] := token;
          PlacedCells(before, r, col, token);
          if Grid.Gravity(before, row, column, BLANK) {
            Grid.DropKeepsGravity(before, row, column, BLANK, col, token);
          }
          return true;
        }
        r := r - 1;
      }
      assert false;
      return false;
    }

    /** The cells after `drop_piece` wrote token at row r of col, the lowest
        empty cell of that column, are the dropped grid. */
    lemma PlacedCells(before: Grid.Cells, r: int, col: int, token: string)
      requires Valid() && Grid.Shape(before, row, column) && 0 <= col < column && 0 <= r < row
      requires before[r][col] == BLANK
      requires forall j :: r < j < row ==> before[j][col] != BLANK
      requires forall x, y :: 0 <= x < row && 0 <= y < column ==>
        board[x, y] == if x == r && y == col then token else before[x][y]
      ensures Cells() == Grid.Dropped(before, row, column, BLANK, col, token)
    {
      var g, h := Cells(), Grid.Dropped(before, row, column, BLANK, col, token);
      forall x, y | 0 <= x < row && 0 <= y < column
        ensures g[x][y] == h[x][y]
      {
        if y == col && x < r {
          // the lowest empty cell is not above row r, which is empty
          assert !Grid.LowestEmptyAt(before, row, column, BLANK, col, x);
        }
      }
      Grid.SameCells(g, h, row, column);
    }

    /** `Board.check_win_token`: the same scan as the engine's, over this
        board's dimensions. A piece is reported only if it is not BLANK and
        has four in a row; None is reported exactly when no piece has. */
    function CheckWinToken(): (w: Option<string>)
      reads board
      requires Valid()
      ensures w.Some? ==> w.value != BLANK && Lines.WinsFor(Cells(), row, column, BLANK, w.value)
      ensures w.None? <==> forall t :: !Lines.WinsFor(Cells(), row, column, BLANK, t)
    {
      Lines.WinnerComplete(Cells(), row, column, BLANK);
      Lines.Winner(Cells(), row, column, BLANK)
    }
  }

  /** The match bookkeeping of the console game. */
  class State {
    constructor()
    {
    }

    /** `new_match`: both players get their default names, no piece and no
        wins. When both arguments are the same record, the second write of
        each field wins. */
    method NewMatch(player1: Player, player2: Player)
      modifies player1, player2
      ensures player2.name == "Player 2"
      ensures player1 != player2 ==> player1.name == "Player 1"
      ensures player1.gamePiece == "" && player2.gamePiece == ""
      ensures player1.wins == 0 && player2.wins == 0
    {
      player1.name := "Player 1";
      player2.name := "Player 2";
      player1.gamePiece := "";
      player2.gamePiece := "";
      player1.wins := 0;
      player2.wins := 0;
    }
  }
}
