/** A Connect-4 grid as a sequence of rows of string cells. Row 0 is the top
    row; pieces fall to the highest-numbered empty row of a column. Both copies
    of the grid in the program (the engine's 6x7 grid with empty marker "."
    and the console board with any size and empty marker "-") are instances
    of these definitions with R rows, C columns and empty marker e. */
module Grid {
  import opened Wrappers

  type Cells = seq<seq<string>>

  /** g has R rows of C cells each. */
  predicate Shape(g: Cells, R: nat, C: nat)
  {
    |g| == R && forall r :: 0 <= r < R ==> |g[r]| == C
  }

  /** Every cell below an occupied cell of its column is occupied: the pieces
      of each column are contiguous from the bottom row. */
  ghost predicate Gravity(g: Cells, R: nat, C: nat, e: string)
    requires Shape(g, R, C)
  {
    forall r, j, c :: 0 <= r < j < R && 0 <= c < C && g[r][c] != e ==> g[j][c] != e
  }

  /** Row k holds the lowest empty cell of column col. */
  ghost predicate LowestEmptyAt(g: Cells, R: nat, C: nat, e: string, col: int, k: int)
    requires Shape(g, R, C) && 0 <= col < C
  {
    0 <= k < R && g[k][col] == e && forall j :: k < j < R ==> g[j][col] != e
  }

  /** The bottom-up scan of column col, starting at row r and moving up. */
  function LowestEmptyFrom(g: Cells, R: nat, C: nat, e: string, col: int, r: int): (k: Option<nat>)
    requires Shape(g, R, C) && 0 <= col < C && -1 <= r < R
    ensures k.Some? ==> k.value <= r && g[k.value][col] == e
    ensures k.Some? ==> forall j :: k.value < j <= r ==> g[j][col] != e
    ensures k.None? <==> forall j :: 0 <= j <= r ==> g[j][col] != e
    decreases r + 1
  {
    if r < 0 then None
    else if g[r][col] == e then Some(r)
    else LowestEmptyFrom(g, R, C, e, col, r - 1)
  }

  /** The grid after a piece p falls down column col: the lowest empty cell of
      the column now holds p and every other cell is as before; a column with
      no empty cell leaves the grid as it was. */
  function Dropped(g: Cells, R: nat, C: nat, e: string, col: int, p: string): (h: Cells)
    requires Shape(g, R, C) && 0 <= col < C
    ensures Shape(h, R, C)
    ensures forall r, c :: 0 <= r < R && 0 <= c < C ==>
      h[r][c] == if c == col && LowestEmptyAt(g, R, C, e, col, r) then p else g[r][c]
    ensures (forall r :: 0 <= r < R ==> g[r][col] != e) ==> h == g
  {
    match LowestEmptyFrom(g, R, C, e, col, R - 1)
    case None => g
    case Some(k) => g[k := g[k][col := p]]
  }

  /** Two grids of the same shape that agree on every cell are equal. */
  lemma SameCells(g: Cells, h: Cells, R: nat, C: nat)
    requires Shape(g, R, C) && Shape(h, R, C)
    requires forall r, c :: 0 <= r < R && 0 <= c < C ==> g[r][c] == h[r][c]
    ensures g == h
  {
    forall r | 0 <= r < R
      ensures g[r] == h[r]
    {
      assert forall c :: 0 <= c < C ==> g[r][c] == h[r][c];
    }
  }

  /** Dropping a piece keeps the pieces of every column contiguous from the
      bottom row. */
  lemma DropKeepsGravity(g: Cells, R: nat, C: nat, e: string, col: int, p: string)
    requires Shape(g, R, C) && 0 <= col < C
    requires Gravity(g, R, C, e)
    ensures Gravity(Dropped(g, R, C, e, col, p), R, C, e)
  {
  }

  /** Number of cells of the row s that hold e. */
  function CountIn(s: seq<string>, e: string): nat
  {
    if s == [] then 0 else (if s[0] == e then 1 else 0) + CountIn(s[1..], e)
  }

  /** Number of empty cells of the grid. */
  function EmptyCount(g: Cells, e: string): nat
  {
    if g == [] then 0 else CountIn(g[0], e) + EmptyCount(g[1..], e)
  }

  /** A row without e has no cell holding e. */
  lemma {:induction false} CountInZero(s: seq<string>, e: string)
    requires forall i :: 0 <= i < |s| ==> s[i] != e
    ensures CountIn(s, e) == 0
  {
    if s != [] {
      CountInZero(s[1..], e);
    }
  }

  /** A grid without e has no empty cell. */
  lemma {:induction false} EmptyCountZero(g: Cells, e: string)
    requires forall r, c :: 0 <= r < |g| && 0 <= c < |g[r]| ==> g[r][c] != e
    ensures EmptyCount(g, e) == 0
  {
    if g != [] {
      CountInZero(g[0], e);
      EmptyCountZero(g[1..], e);
    }
  }

  /** Filling one empty cell of a row removes exactly one empty cell. */
  lemma {:induction false} CountInFill(s: seq<string>, e: string, i: nat, x: string)
    requires i < |s| && s[i] == e && x != e
    ensures CountIn(s[i := x], e) + 1 == CountIn(s, e)
  {
    if i == 0 {
      assert s[i := x][1..] == s[1..];
    } else {
      assert s[i := x][1..] == s[1..][i - 1 := x];
      CountInFill(s[1..], e, i - 1, x);
    }
  }

  /** Replacing row k by one with an empty cell fewer removes one empty cell. */
  lemma {:induction false} EmptyCountFill(g: Cells, e: string, k: nat, row: seq<string>)
    requires k < |g| && CountIn(row, e) + 1 == CountIn(g[k], e)
    ensures EmptyCount(g[k := row], e) + 1 == EmptyCount(g, e)
  {
    if k == 0 {
      assert g[k := row][1..] == g[1..];
    } else {
      assert g[k := row][1..] == g[1..][k - 1 := row];
      EmptyCountFill(g[1..], e, k - 1, row);
    }
  }

  /** A piece (not the empty marker) dropped into a column whose top cell is
      empty fills one empty cell: the measure on which the search terminates. */
  lemma DropFillsOneCell(g: Cells, R: nat, C: nat, e: string, col: int, p: string)
    requires Shape(g, R, C) && 0 < R && 0 <= col < C && g[0][col] == e && p != e
    ensures EmptyCount(Dropped(g, R, C, e, col, p), e) + 1 == EmptyCount(g, e)
  {
    var k := LowestEmptyFrom(g, R, C, e, col, R - 1).value;
    CountInFill(g[k], e, col, p);
    EmptyCountFill(g, e, k, g[k][col := p]);
  }

  /** The columns from c on whose top cell is empty, in ascending order. */
  function ColumnsFrom(g: Cells, R: nat, C: nat, e: string, c: nat): (cols: seq<nat>)
    requires Shape(g, R, C) && 0 < R && c <= C
    ensures forall x :: x in cols <==> c <= x < C && g[0][x] == e
    ensures forall i, j :: 0 <= i < j < |cols| ==> cols[i] < cols[j]
    decreases C - c
  {
    if c == C then []
    else if g[0][c] == e then
      var rest := ColumnsFrom(g, R, C, e, c + 1);
      assert forall j :: 0 <= j < |rest| ==> rest[j] in rest;
      [c] + rest
    else ColumnsFrom(g, R, C, e, c + 1)
  }
}
