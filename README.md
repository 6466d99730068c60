# Connect-4 engine and console board, modelled in Dafny

This project models the decision engine of a Connect-4 program and the
console game's mutable board.

- The engine (`aiWrapper.py`) works on a fixed 6 x 7 grid of strings whose empty cells hold `"."`. It has:
  - pure grid helpers: four-in-a-row detection, the full-grid test, the playable columns, and a piece dropped into a copy of the grid;
  - the agent `Connect4Agent`: a terminal score of +10000, -10000 or 0, a fail-soft alpha-beta search (`min_value` / `max_value`), and the root move choice, whose ties go to the first column.
- The console game (`connect4.py`) keeps a `Board` of any size whose empty cells hold `"-"`. The board is changed in place by `reset` and `drop_piece`. It is read by `check_draw` and `check_win_token`. `State.new_match` resets two `Player` records.

Layout:

- `grid.dfy`, module `Grid`. The grid definitions shared by both copies, parameterised by the rows R, the columns C and the empty marker e: shape, the lowest empty cell of a column, the dropped grid, the gravity invariant, the count of empty cells and the playable columns.
- `lines.dfy`, module `Lines`. The four-in-a-row scan in the source's loop order, with soundness and completeness.
- `ai_grid.dfy`, module `AiGrid`. The engine's helpers as functions over 6 x 7 grids, and `drop_piece_copy` as a method with its loop.
- `search.dfy`, module `Search`. The search as functions:
  - `Value` / `ValueLoop` is exactly what the pruned recursion returns;
  - `Minimax` / `MinimaxLoop` is the same tree without cutoffs;
  - alpha-beta soundness is proved against `Minimax`;
  - `IsChosenMove` states what the root choice must answer.
- `agent.dfy`, module `AiAgent`. The class `Connect4Agent`. Its methods run the source's loops and are proved against `Search`.
- `connect4.dfy`, module `Connect4`. The console game's classes `Player`, `Board` (an `array2<string>` cell store) and `State`.
- `wrappers.dfy`, module `Wrappers`. `Option`.

Search termination. A move writes a piece that differs from the empty marker, so each move fills one empty cell. The recursion therefore decreases on the number of empty cells. This covers `depth <= 0` as the source runs it: for `depth = 0` the root calls `min_value` with depth -1, and the `depth == 0` test never fires, so the search goes on until a win or a full grid.

The model follows what the code does:

- The code has no positional heuristic: no centre-column bonus and no four-cell window scores. `evaluate` returns only +10000, -10000 or 0. As a result, on the empty grid at depth 1 the engine answers column 0, not the centre column 3 (`Search.FirstColumnOnEmptyGrid`).
- Root ties always go to the first column in ascending order. Nothing is randomised and columns are not reordered.
- No error is raised for a bad depth or for identical pieces. A full grid fails only because `get_valid_columns(grid)[0]` indexes an empty list. Here that case is the answer `None`.

## Model

| member | source | states |
|---|---|---|
| Lines.ScanFrom | aiWrapper.py:8-33 | a piece reported by one orientation's nested loops (from a loop position on) is the piece of a run of four of that orientation |
| Lines.ScanFromComplete | aiWrapper.py:8-33 | a scan that reports nothing has passed no run among the start cells it visits |
| Lines.ScanRangeIsInBounds | aiWrapper.py:8-33 | each orientation's loop ranges (the `/` diagonal from row 3) visit exactly the start cells whose four cells lie on the grid, so every index the scan reads is in bounds |
| Lines.Winner | connect4.py:80-113 | the board's scan (horizontal, vertical, `\`, `/`, each in loop order) reports only a non-empty piece that has four in a row |
| Lines.WinnerComplete | connect4.py:80-113 | the scan reports None exactly when no piece has four in a row |
| Lines.NoRunOnBlankGrid | connect4.py:52-55 | a grid of empty cells, as `reset` leaves it, has no run |
| Lines.NoRunWithOnePiece | aiWrapper.py:61-67 | a grid with a single piece has no run, so `evaluate` scores it 0 |
| AiGrid.CheckWinToken | aiWrapper.py:6-35 | `check_win_token` returns t only if t is not EMPTY and t has four in a row; it returns None exactly when no piece has four in a row (that every index it reads is in bounds is `Lines.ScanRangeIsInBounds`) |
| AiGrid.IsFull | aiWrapper.py:38-39 | `is_full` holds exactly when every top-row cell is occupied, which is exactly when no column is playable (the column comprehension is empty) |
| AiGrid.FullGridHasNoEmptyCell | aiWrapper.py:38-39 | on a grid whose pieces lie on the bottom of their columns, a full top row means no empty cell is left anywhere |
| AiGrid.GetValidColumns | aiWrapper.py:38-43 | exactly the columns whose top cell is EMPTY, strictly ascending; empty exactly when `is_full` holds |
| Grid.LowestEmptyFrom | aiWrapper.py:48-49 | the bottom-up scan of a column finds the lowest empty cell at or above its start row, or None exactly when all those cells are occupied |
| Grid.Dropped | aiWrapper.py:46-52 | the dropped grid has the same shape; each cell equals the input's except the lowest empty cell of the column, which holds the piece; a full column leaves the grid equal to the input |
| AiGrid.DropPieceCopy | aiWrapper.py:46-52 | the loop returns the dropped grid; the input grid is a value and is not changed |
| Grid.DropKeepsGravity | aiWrapper.py:48-51 | if every column's pieces are contiguous from the bottom row, they still are after the drop |
| Grid.DropFillsOneCell | aiWrapper.py:48-51 | a piece other than the empty marker, dropped into a column whose top cell is empty, fills exactly one empty cell (the search's termination measure) |
| Grid.ColumnsFrom | aiWrapper.py:43 | the comprehension over columns c..C-1 yields exactly those with an empty top cell, strictly ascending |
| Search.Evaluate | aiWrapper.py:61-67 | the score is one of -10000, 0, 10000; 10000 only if maxToken has four in a row, -10000 only if minToken (a different piece) has; 0 when nobody has; 10000 / -10000 when that piece is the only one with four in a row |
| Search.Terminal | aiWrapper.py:71 | a node is terminal exactly when depth is 0, the grid is full, or some piece has four in a row (the same test at aiWrapper.py:85); a non-terminal node has at least one valid column, so its loop always runs |
| Search.Value | aiWrapper.py:69-95 | the value of the pruned search (terminal test, then the column loop with cutoffs) is always one of -10000, 0, 10000 |
| Search.ValueLoop | aiWrapper.py:74-81 | the column loop of a node started on a non-empty column list always overwrites the ±10**9 start value with a score |
| Search.MaxLoopStep | aiWrapper.py:88-95 | proof step for MaxValue's loop, not a separate operation: one iteration of `max_value`'s loop: either the beta cutoff returns v, or the loop continues on the remaining columns with alpha raised to v |
| Search.MinLoopStep | aiWrapper.py:74-81 | proof step for MinValue's loop, not a separate operation: one iteration of `min_value`'s loop: either the alpha cutoff returns v, or the loop continues with beta lowered to v |
| Search.Minimax | aiWrapper.py:69-95 | the plain minimax value (same terminal test and children, no cutoffs) is a score |
| Search.MinimaxLoop | aiWrapper.py:74-81 | the best of the start value and the children's minimax values is a score, and never worse than the start value for the side to move |
| Search.AlphaBetaSound | aiWrapper.py:69-95 | for alpha < beta the pruned value equals the minimax value when that lies strictly inside (alpha, beta), is <= alpha when the minimax value is <= alpha, and >= beta when it is >= beta |
| Search.LoopSound | aiWrapper.py:74-81 | the loop invariant behind alpha-beta soundness, for either side |
| Search.MaxLoopSound | aiWrapper.py:88-95 | that invariant across one iteration of `max_value`'s loop |
| Search.MinLoopSound | aiWrapper.py:74-81 | that invariant across one iteration of `min_value`'s loop |
| Search.MaxStep | aiWrapper.py:91-94 | the fail-soft relation survives `v = max(v, child)` and `alpha = max(alpha, v)` |
| Search.MinStep | aiWrapper.py:77-80 | the fail-soft relation survives `v = min(v, child)` and `beta = min(beta, v)` |
| Search.RootWindowIsExact | aiWrapper.py:103 | with the root window (-10**9, 10**9) the pruned value equals the exact minimax value |
| Search.RootValue | aiWrapper.py:102-103 | the value `choose_next_move` compares for a column: the minimax value of the child after the engine's piece drops there, one level down on the opponent's turn; always a score |
| Search.RootValueIsSearched | aiWrapper.py:102-103 | that root value equals the value `min_value` returns for the child with the root window (-10**9, 10**9) |
| Search.RootValues | aiWrapper.py:101-103 | proof step for ChooseNextMove's loop, not a separate operation: the root values of the valid columns, in column order |
| Search.FirstMaxNext | aiWrapper.py:104-106 | one step of the root loop: a column replaces the best one only when its value is strictly greater, so the best is the first maximal column seen so far |
| Search.FirstMaxIsMaximal | aiWrapper.py:97-108 | after the loop, no valid column has a greater root value than the chosen one |
| Search.FirstMaxIsFirst | aiWrapper.py:97-108 | after the loop, every lower valid column has a strictly smaller root value than the chosen one |
| Search.ChosenMoveUnique | aiWrapper.py:104 | the strict `>` makes the choice deterministic: at most one answer meets the specification of the move |
| Search.FirstColumnOnEmptyGrid | aiWrapper.py:97-108 | on the empty grid at depth 1 every root value is 0 and the move chosen is column 0 |
| AiAgent.Connect4Agent.constructor | aiWrapper.py:56-59 | the agent keeps its two pieces and its depth (4 by default) |
| AiAgent.Connect4Agent.MinValue | aiWrapper.py:69-81 | `min_value` returns the pruned value of the node; a terminal node (depth 0, a winner, a full grid) gets `evaluate` of its grid; the value is a score; for alpha < beta it is fail-soft with respect to the minimax value |
| AiAgent.Connect4Agent.MaxValue | aiWrapper.py:83-95 | `max_value`, the same with beta cutoffs |
| AiAgent.Connect4Agent.ChooseNextMove | aiWrapper.py:97-108 | None exactly when the grid is full (where the source fails on an empty list); otherwise a valid column with the greatest root value, and the lowest such column |
| AiAgent.GetAiMove | aiWrapper.py:111-113 | a fresh agent for the engine's piece answers the move as specified |
| Connect4.Player.constructor | connect4.py:10-14 | a player holds its name, its piece and its wins (0 by default) |
| Connect4.Board.Cells | connect4.py:50 | the cell store viewed as a row x column grid of its cells |
| Connect4.Board.constructor | connect4.py:47-50 | a fresh row x column board whose every cell is `"-"` |
| Connect4.Board.Reset | connect4.py:52-55 | every cell is `"-"` again (the dimensions are constants), so no piece has four in a row |
| Connect4.Board.CheckDraw | connect4.py:64-66 | a draw exactly when every top-row cell is occupied, i.e. exactly when no column can take a piece |
| Connect4.Board.DropPiece | connect4.py:68-78 | placed exactly when the column's top cell was `"-"`; if not, the board is unchanged; if so, the board is the dropped grid (only the lowest empty cell of the column changes, to token); gravity is preserved; the fallback after the loop is unreachable |
| Connect4.Board.PlacedCells | connect4.py:74-77 | writing token at the lowest empty cell found by the bottom-up loop yields the dropped grid |
| Connect4.Board.CheckWinToken | connect4.py:80-113 | the board's scan returns only a non-`"-"` piece with four in a row, and None exactly when no piece has four in a row, for any dimensions |
| Connect4.State.NewMatch | connect4.py:117-123 | the second player is named "Player 2" and the first "Player 1" (unless both are the same record); both have no piece and no wins; nothing else changes |

## Left out

- Console I/O and the game loop of connect4.py: `clear_screen`, `print_board`, `Player.print_won`, `Player.print_wins`, `Player.get_name`, `Player.get_game_piece`, `central_menu`, `connect_4`, `main`. They are `input()` / `print()` loops.
- drawing.py and gui.py are not part of this model. They are pygame rendering and event handling.
- constrants.py contributes only the constants ROWS = 6, COLS = 7 and EMPTY = ".". The colours and pixel sizes are not modelled.
- AiAgent.Connect4Agent.MinValue requires both pieces to differ from EMPTY (`Search.Pieces`). This gives the recursion its measure, the number of empty cells. It excludes more than the source needs. With one EMPTY piece the source still terminates at every depth, because every ply of the other piece fills a cell. With both pieces EMPTY the grid never changes: the `depth == 0` test still ends the search for depth >= 1, and for depth < 0 the source recurses until Python raises RecursionError. The model excludes both cases. The program's own pieces "R" and "Y" meet the requirement.
- AiAgent.Connect4Agent.MaxValue has the same requirement on the pieces, for the same reason.
- AiAgent.Connect4Agent.ChooseNextMove has the same requirement on the pieces, for the same reason.
- AiAgent.GetAiMove has the same requirement on the pieces, for the same reason.
- Search.Value has the same requirement on the pieces, for the same reason.
- Search.Minimax has the same requirement on the pieces, for the same reason.
- AiAgent.Connect4Agent.ChooseNextMove answers None on a full grid, where the source raises IndexError.
- AiGrid.CheckWinToken and the other engine helpers require a 6 x 7 grid. The source would read out of range, or scan only part of, a grid of another shape.
- Connect4.Board.DropPiece requires 0 <= col < column and at least one row. Python would index from the end for a negative column, or raise IndexError.
- Connect4.Board.CheckDraw requires a top row unless the board has no columns. Python raises IndexError there.
- Connect4.Board.constructor takes natural dimensions. A negative dimension in Python gives an empty list while keeping the negative number.
- Strings are compared as sequences of characters. Python's `==` on `str` agrees with this.
