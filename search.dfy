/** The engine's game-tree search as functions: the value the fail-soft
    alpha-beta recursion of `min_value` / `max_value` computes, the plain
    minimax value of the same tree without cutoffs, and the proofs that
    relate them. One function serves both roles: `maximizing` selects the
    `max_value` side (the engine's piece moves) or the `min_value` side. */
module Search {
  import opened Wrappers
  import Grid
  import Lines
  import opened AiGrid

  /** Score of a won position. */
  const WIN: int := 10000
  /** The initial running value of a node, 10**9. */
  const INF: int := 1_000_000_000

  /** The only scores the search produces. */
  predicate IsScore(s: int)
  {
    s == -WIN || s == 0 || s == WIN
  }

  /** Both pieces differ from the empty marker, so each move fills a cell. */
  predicate Pieces(maxToken: string, minToken: string)
  {
    maxToken != EMPTY && minToken != EMPTY
  }

  function Max(a: int, b: int): int
  {
    if a >= b then a else b
  }

  function Min(a: int, b: int): int
  {
    if a <= b then a else b
  }

  /** `evaluate`: WIN when the reported winner is maxToken, -WIN when it is
      minToken, 0 otherwise. */
  function Evaluate(maxToken: string, minToken: string, grid: Grid.Cells): (s: int)
    requires WellFormed(grid)
    ensures IsScore(s)
    ensures s == WIN ==> Lines.WinsFor(grid, ROWS, COLS, EMPTY, maxToken)
    ensures s == -WIN ==> minToken != maxToken && Lines.WinsFor(grid, ROWS, COLS, EMPTY, minToken)
    ensures (forall t :: !Lines.WinsFor(grid, ROWS, COLS, EMPTY, t)) ==> s == 0
    ensures (&& Lines.WinsFor(grid, ROWS, COLS, EMPTY, maxToken)
             && forall t :: Lines.WinsFor(grid, ROWS, COLS, EMPTY, t) ==> t == maxToken) ==> s == WIN
    ensures (&& Lines.WinsFor(grid, ROWS, COLS, EMPTY, minToken) && minToken != maxToken
             && forall t :: Lines.WinsFor(grid, ROWS, COLS, EMPTY, t) ==> t == minToken) ==> s == -WIN
  {
    match CheckWinToken(grid)
    case Some(w) =>
      if w == maxToken then WIN
      else if w == minToken then -WIN
      else 0
    case None => 0
  }

  /** A node whose value is `evaluate` of its grid: no depth left, a winner,
      or a full top row. */
  function Terminal(grid: Grid.Cells, depth: int): (t: bool)
    requires WellFormed(grid)
    ensures t <==> depth == 0 || IsFull(grid) || exists p :: Lines.WinsFor(grid, ROWS, COLS, EMPTY, p)
    ensures !t ==> GetValidColumns(grid) != []
  {
    depth == 0 || CheckWinToken(grid).Some? || IsFull(grid)
  }

  /** Every column of cols can take a piece. */
  predicate Playable(grid: Grid.Cells, cols: seq<nat>)
    requires WellFormed(grid)
  {
    forall k :: 0 <= k < |cols| ==> cols[k] < COLS && grid[0][cols[k]] == EMPTY
  }

  /** The running value before the first child: -10**9 for max, 10**9 for min. */
  function Start(maximizing: bool): int
  {
    if maximizing then -INF else INF
  }

  /** A running value is a score, or the start value of a node that still has
      children to visit. */
  predicate Running(v: int, maximizing: bool, cols: seq<nat>)
  {
    IsScore(v) || (cols != [] && v == Start(maximizing))
  }

  /** The value `max_value` (maximizing) or `min_value` returns. */
  function Value(maxToken: string, minToken: string, grid: Grid.Cells, depth: int,
                 alpha: int, beta: int, maximizing: bool): (s: int)
    requires WellFormed(grid) && Pieces(maxToken, minToken)
    ensures IsScore(s)
    decreases Grid.EmptyCount(grid, EMPTY), 1, 0
  {
    if Terminal(grid, depth) then Evaluate(maxToken, minToken, grid)
    else
      ValueLoop(maxToken, minToken, grid, depth, alpha, beta, maximizing,
                GetValidColumns(grid), Start(maximizing))
  }

  /** The loop over the remaining columns cols with running value v and
      window (alpha, beta), including the cutoffs. */
  function ValueLoop(maxToken: string, minToken: string, grid: Grid.Cells, depth: int,
                     alpha: int, beta: int, maximizing: bool, cols: seq<nat>, v: int): (s: int)
    requires WellFormed(grid) && Pieces(maxToken, minToken) && Playable(grid, cols)
    requires Running(v, maximizing, cols)
    ensures IsScore(s)
    decreases Grid.EmptyCount(grid, EMPTY), 0, |cols|
  {
    if cols == [] then v
    else
      var piece := if maximizing then maxToken else minToken;
      Grid.DropFillsOneCell(grid, ROWS, COLS, EMPTY, cols[0], piece);
      var c := Value(maxToken, minToken, Dropped(grid, cols[0], piece), depth - 1, alpha, beta, !maximizing);
      if maximizing then
        var v' := Max(v, c);
        if v' >= beta then v'
        else ValueLoop(maxToken, minToken, grid, depth, Max(alpha, v'), beta, true, cols[1..], v')
      else
        var v' := Min(v, c);
        if v' <= alpha then v'
        else ValueLoop(maxToken, minToken, grid, depth, alpha, Min(beta, v'), false, cols[1..], v')
  }

  /** One iteration of a max node's loop, once the child for the first column
      has answered c: the loop goes on with the raised alpha unless the
      running value reached beta. */
  lemma MaxLoopStep(maxToken: string, minToken: string, grid: Grid.Cells, depth: int,
                    alpha: int, beta: int, cols: seq<nat>, v: int, c: int)
    requires WellFormed(grid) && Pieces(maxToken, minToken) && Playable(grid, cols)
    requires cols != [] && Running(v, true, cols)
    requires c == Value(maxToken, minToken, Dropped(grid, cols[0], maxToken), depth - 1, alpha, beta, false)
    ensures Running(Max(v, c), true, cols[1..]) && Playable(grid, cols[1..])
    ensures ValueLoop(maxToken, minToken, grid, depth, alpha, beta, true, cols, v)
            == if Max(v, c) >= beta then Max(v, c)
               else ValueLoop(maxToken, minToken, grid, depth, Max(alpha, Max(v, c)), beta, true, cols[1..], Max(v, c))
  {
  }

  /** One iteration of a min node's loop, symmetric to MaxLoopStep. */
  lemma MinLoopStep(maxToken: string, minToken: string, grid: Grid.Cells, depth: int,
                    alpha: int, beta: int, cols: seq<nat>, v: int, c: int)
    requires WellFormed(grid) && Pieces(maxToken, minToken) && Playable(grid, cols)
    requires cols != [] && Running(v, false, cols)
    requires c == Value(maxToken, minToken, Dropped(grid, cols[0], minToken), depth - 1, alpha, beta, true)
    ensures Running(Min(v, c), false, cols[1..]) && Playable(grid, cols[1..])
    ensures ValueLoop(maxToken, minToken, grid, depth, alpha, beta, false, cols, v)
            == if Min(v, c) <= alpha then Min(v, c)
               else ValueLoop(maxToken, minToken, grid, depth, alpha, Min(beta, Min(v, c)), false, cols[1..], Min(v, c))
  {
  }

  /** The plain minimax value of the same tree: same terminal test, same
      children, no cutoffs. */
  function Minimax(maxToken: string, minToken: string, grid: Grid.Cells, depth: int,
                   maximizing: bool): (s: int)
    requires WellFormed(grid) && Pieces(maxToken, minToken)
    ensures IsScore(s)
    decreases Grid.EmptyCount(grid, EMPTY), 1, 0
  {
    if Terminal(grid, depth) then Evaluate(maxToken, minToken, grid)
    else
      MinimaxLoop(maxToken, minToken, grid, depth, maximizing, GetValidColumns(grid), Start(maximizing))
  }

  /** The best of u and the minimax values of the children for cols. */
  function MinimaxLoop(maxToken: string, minToken: string, grid: Grid.Cells, depth: int,
                       maximizing: bool, cols: seq<nat>, u: int): (s: int)
    requires WellFormed(grid) && Pieces(maxToken, minToken) && Playable(grid, cols)
    requires Running(u, maximizing, cols)
    ensures IsScore(s)
    ensures if maximizing then s >= u else s <= u
    decreases Grid.EmptyCount(grid, EMPTY), 0, |cols|
  {
    if cols == [] then u
    else
      var piece := if maximizing then maxToken else minToken;
      Grid.DropFillsOneCell(grid, ROWS, COLS, EMPTY, cols[0], piece);
      var m := Minimax(maxToken, minToken, Dropped(grid, cols[0], piece), depth - 1, !maximizing);
      MinimaxLoop(maxToken, minToken, grid, depth, maximizing, cols[1..],
                  if maximizing then Max(u, m) else Min(u, m))
  }

  /** The fail-soft guarantee of a search with window (lo, hi) whose exact
      value is m and whose answer is a: exact inside the window, and on the
      correct side of it otherwise. */
  predicate FailSoft(a: int, m: int, lo: int, hi: int)
  {
    && (lo < m < hi ==> a == m)
    && (m <= lo ==> a <= lo)
    && (m >= hi ==> a >= hi)
  }

  /** Alpha-beta soundness: for alpha < beta, the pruned value is the
      minimax value when that lies inside (alpha, beta), and lies on the same
      side of the window as the minimax value otherwise. */
  lemma {:induction false} AlphaBetaSound(maxToken: string, minToken: string, grid: Grid.Cells,
                                          depth: int, alpha: int, beta: int, maximizing: bool)
    requires WellFormed(grid) && Pieces(maxToken, minToken) && alpha < beta
    ensures FailSoft(Value(maxToken, minToken, grid, depth, alpha, beta, maximizing),
                     Minimax(maxToken, minToken, grid, depth, maximizing), alpha, beta)
    decreases Grid.EmptyCount(grid, EMPTY), 1, 0, 0
  {
    if !Terminal(grid, depth) {
      var start := Start(maximizing);
      LoopSound(maxToken, minToken, grid, depth, maximizing, GetValidColumns(grid),
                alpha, beta, alpha, beta, start, start);
    }
  }

  /** The loop invariant behind AlphaBetaSound. (alpha0, beta0) is the window
      the node was called with; a max node has raised alpha to its running
      value v (or not yet moved it), a min node has lowered beta likewise; u is
      the running minimax value over the same columns. */
  lemma {:induction false} LoopSound(maxToken: string, minToken: string, grid: Grid.Cells, depth: int,
                                     maximizing: bool, cols: seq<nat>,
                                     alpha0: int, beta0: int, alpha: int, beta: int, v: int, u: int)
    requires WellFormed(grid) && Pieces(maxToken, minToken) && Playable(grid, cols)
    requires Running(v, maximizing, cols) && Running(u, maximizing, cols)
    requires alpha0 <= alpha < beta <= beta0
    requires maximizing ==> beta == beta0 && (alpha == alpha0 || alpha == v)
    requires !maximizing ==> alpha == alpha0 && (beta == beta0 || beta == v)
    requires FailSoft(v, u, alpha0, beta0)
    ensures FailSoft(ValueLoop(maxToken, minToken, grid, depth, alpha, beta, maximizing, cols, v),
                     MinimaxLoop(maxToken, minToken, grid, depth, maximizing, cols, u), alpha0, beta0)
    decreases Grid.EmptyCount(grid, EMPTY), 0, |cols|, 1
  {
    if cols != [] {
      if maximizing {
        MaxLoopSound(maxToken, minToken, grid, depth, cols, alpha0, beta0, alpha, v, u);
      } else {
        MinLoopSound(maxToken, minToken, grid, depth, cols, alpha0, beta0, beta, v, u);
      }
    }
  }

  /** LoopSound for a max node with at least one column left. */
  lemma {:induction false} MaxLoopSound(maxToken: string, minToken: string, grid: Grid.Cells, depth: int,
                                        cols: seq<nat>, alpha0: int, beta0: int, alpha: int, v: int, u: int)
    requires WellFormed(grid) && Pieces(maxToken, minToken) && Playable(grid, cols) && cols != []
    requires Running(v, true, cols) && Running(u, true, cols)
    requires alpha0 <= alpha < beta0 && (alpha == alpha0 || alpha == v)
    requires FailSoft(v, u, alpha0, beta0)
    ensures FailSoft(ValueLoop(maxToken, minToken, grid, depth, alpha, beta0, true, cols, v),
                     MinimaxLoop(maxToken, minToken, grid, depth, true, cols, u), alpha0, beta0)
    decreases Grid.EmptyCount(grid, EMPTY), 0, |cols|, 0
  {
    Grid.DropFillsOneCell(grid, ROWS, COLS, EMPTY, cols[0], maxToken);
    var child := Dropped(grid, cols[0], maxToken);
    AlphaBetaSound(maxToken, minToken, child, depth - 1, alpha, beta0, false);
    var c := Value(maxToken, minToken, child, depth - 1, alpha, beta0, false);
    var m := Minimax(maxToken, minToken, child, depth - 1, false);
    MaxStep(alpha0, beta0, alpha, v, u, c, m);
    var v', u' := Max(v, c), Max(u, m);
    var rest := cols[1..];
    assert Playable(grid, rest);
    if v' < beta0 {
      LoopSound(maxToken, minToken, grid, depth, true, rest, alpha0, beta0, Max(alpha, v'), beta0, v', u');
    }
  }

  /** LoopSound for a min node with at least one column left. */
  lemma {:induction false} MinLoopSound(maxToken: string, minToken: string, grid: Grid.Cells, depth: int,
                                        cols: seq<nat>, alpha0: int, beta0: int, beta: int, v: int, u: int)
    requires WellFormed(grid) && Pieces(maxToken, minToken) && Playable(grid, cols) && cols != []
    requires Running(v, false, cols) && Running(u, false, cols)
    requires alpha0 < beta <= beta0 && (beta == beta0 || beta == v)
    requires FailSoft(v, u, alpha0, beta0)
    ensures FailSoft(ValueLoop(maxToken, minToken, grid, depth, alpha0, beta, false, cols, v),
                     MinimaxLoop(maxToken, minToken, grid, depth, false, cols, u), alpha0, beta0)
    decreases Grid.EmptyCount(grid, EMPTY), 0, |cols|, 0
  {
    Grid.DropFillsOneCell(grid, ROWS, COLS, EMPTY, cols[0], minToken);
    var child := Dropped(grid, cols[0], minToken);
    AlphaBetaSound(maxToken, minToken, child, depth - 1, alpha0, beta, true);
    var c := Value(maxToken, minToken, child, depth - 1, alpha0, beta, true);
    var m := Minimax(maxToken, minToken, child, depth - 1, true);
    MinStep(alpha0, beta0, beta, v, u, c, m);
    var v', u' := Min(v, c), Min(u, m);
    var rest := cols[1..];
    assert Playable(grid, rest);
    if v' > alpha0 {
      LoopSound(maxToken, minToken, grid, depth, false, rest, alpha0, beta0, alpha0, Min(beta, v'), v', u');
    }
  }

  /** One step of a max node: the child searched with window (alpha, beta0)
      and exact value m answered c. */
  lemma MaxStep(alpha0: int, beta0: int, alpha: int, v: int, u: int, c: int, m: int)
    requires alpha0 <= alpha < beta0 && (alpha == alpha0 || alpha == v)
    requires FailSoft(v, u, alpha0, beta0) && FailSoft(c, m, alpha, beta0)
    requires IsScore(c) && IsScore(m)
    requires IsScore(v) || v == -INF
    requires IsScore(u) || u == -INF
    ensures FailSoft(Max(v, c), Max(u, m), alpha0, beta0)
    ensures IsScore(Max(v, c)) && IsScore(Max(u, m))
    ensures Max(v, c) < beta0 ==> Max(alpha, Max(v, c)) < beta0
  {
  }

  /** One step of a min node, symmetric to MaxStep. */
  lemma MinStep(alpha0: int, beta0: int, beta: int, v: int, u: int, c: int, m: int)
    requires alpha0 < beta <= beta0 && (beta == beta0 || beta == v)
    requires FailSoft(v, u, alpha0, beta0) && FailSoft(c, m, alpha0, beta)
    requires IsScore(c) && IsScore(m)
    requires IsScore(v) || v == INF
    requires IsScore(u) || u == INF
    ensures FailSoft(Min(v, c), Min(u, m), alpha0, beta0)
    ensures IsScore(Min(v, c)) && IsScore(Min(u, m))
    ensures Min(v, c) > alpha0 ==> alpha0 < Min(beta, Min(v, c))
  {
  }

  /** With the root window (-10**9, 10**9) the pruned value is the exact
      minimax value. */
  lemma RootWindowIsExact(maxToken: string, minToken: string, grid: Grid.Cells,
                          depth: int, maximizing: bool)
    requires WellFormed(grid) && Pieces(maxToken, minToken)
    ensures Value(maxToken, minToken, grid, depth, -INF, INF, maximizing)
         == Minimax(maxToken, minToken, grid, depth, maximizing)
  {
    AlphaBetaSound(maxToken, minToken, grid, depth, -INF, INF, maximizing);
  }

  /** The minimax value of playing the engine's piece in column col at the
      root, which `choose_next_move` compares across columns. */
  function RootValue(maxToken: string, minToken: string, grid: Grid.Cells, depth: int, col: int): (v: int)
    requires WellFormed(grid) && Pieces(maxToken, minToken) && 0 <= col < COLS
    ensures IsScore(v)
  {
    Minimax(maxToken, minToken, Dropped(grid, col, maxToken), depth - 1, false)
  }

  /** The root value of a column is what `choose_next_move` obtains for it:
      `min_value` of the child one level down with the root window. */
  lemma RootValueIsSearched(maxToken: string, minToken: string, grid: Grid.Cells, depth: int, col: int)
    requires WellFormed(grid) && Pieces(maxToken, minToken) && 0 <= col < COLS
    ensures RootValue(maxToken, minToken, grid, depth, col)
         == Value(maxToken, minToken, Dropped(grid, col, maxToken), depth - 1, -INF, INF, false)
  {
    RootWindowIsExact(maxToken, minToken, Dropped(grid, col, maxToken), depth - 1, false);
  }

  /** What `choose_next_move` must answer: no column for a full grid (the
      source fails there by indexing an empty list); otherwise a valid column
      with the greatest root value, and the lowest such column. */
  ghost predicate IsChosenMove(maxToken: string, minToken: string, grid: Grid.Cells, depth: int,
                               move: Option<nat>)
    requires WellFormed(grid) && Pieces(maxToken, minToken)
  {
    && (move.None? <==> IsFull(grid))
    && (move.Some? ==>
          && move.value in GetValidColumns(grid)
          && (forall c :: c in GetValidColumns(grid) ==>
                RootValue(maxToken, minToken, grid, depth, c)
                <= RootValue(maxToken, minToken, grid, depth, move.value))
          && (forall c :: c in GetValidColumns(grid) && c < move.value ==>
                RootValue(maxToken, minToken, grid, depth, c)
                < RootValue(maxToken, minToken, grid, depth, move.value)))
  }

  /** The root values of the columns cols, in their order. */
  ghost function RootValues(maxToken: string, minToken: string, grid: Grid.Cells, depth: int,
                            cols: seq<nat>): (vals: seq<int>)
    requires WellFormed(grid) && Pieces(maxToken, minToken) && Playable(grid, cols)
    ensures |vals| == |cols|
    ensures forall j :: 0 <= j < |cols| ==> vals[j] == RootValue(maxToken, minToken, grid, depth, cols[j])
  {
    seq(|cols|, j requires 0 <= j < |cols| => RootValue(maxToken, minToken, grid, depth, cols[j]))
  }

  /** Among vals[..n], index best holds the greatest value and is the first
      index that does: the state of `choose_next_move`'s loop after n
      columns. */
  predicate FirstMax(vals: seq<int>, n: nat, best: nat)
    requires n <= |vals|
  {
    && best < n
    && (forall j :: 0 <= j < n ==> vals[j] <= vals[best])
    && (forall j :: 0 <= j < best ==> vals[j] < vals[best])
  }

  /** One iteration of that loop: index n replaces best only when its value is
      strictly greater than the best so far; the first iteration always
      replaces the start value -10**9, below every score. */
  lemma FirstMaxNext(vals: seq<int>, n: nat, best: nat, bestVal: int)
    requires n < |vals| && IsScore(vals[n])
    requires n == 0 ==> bestVal == -INF
    requires n > 0 ==> FirstMax(vals, n, best) && bestVal == vals[best]
    ensures vals[n] > bestVal ==> FirstMax(vals, n + 1, n)
    ensures vals[n] <= bestVal ==> FirstMax(vals, n + 1, best)
  {
  }

  /** Every valid column's root value is at most that of the first maximum. */
  lemma FirstMaxIsMaximal(maxToken: string, minToken: string, grid: Grid.Cells, depth: int, best: nat)
    requires WellFormed(grid) && Pieces(maxToken, minToken)
    requires FirstMax(RootValues(maxToken, minToken, grid, depth, GetValidColumns(grid)),
                      |GetValidColumns(grid)|, best)
    ensures forall c :: c in GetValidColumns(grid) ==>
      RootValue(maxToken, minToken, grid, depth, c)
      <= RootValue(maxToken, minToken, grid, depth, GetValidColumns(grid)[best])
  {
    var cols := GetValidColumns(grid);
    var vals := RootValues(maxToken, minToken, grid, depth, cols);
    forall c | c in cols
      ensures RootValue(maxToken, minToken, grid, depth, c) <= vals[best]
    {
      var j :| 0 <= j < |cols| && cols[j] == c;
      assert vals[j] <= vals[best];
    }
  }

  /** In a strictly ascending sequence a smaller element sits at a smaller
      index. */
  lemma AscendingIndex(cols: seq<nat>, j: nat, k: nat)
    requires forall a, b :: 0 <= a < b < |cols| ==> cols[a] < cols[b]
    requires j < |cols| && k < |cols| && cols[j] < cols[k]
    ensures j < k
  {
  }

  /** Every lower valid column's root value is below that of the first
      maximum. */
  lemma FirstMaxIsFirst(maxToken: string, minToken: string, grid: Grid.Cells, depth: int, best: nat)
    requires WellFormed(grid) && Pieces(maxToken, minToken)
    requires FirstMax(RootValues(maxToken, minToken, grid, depth, GetValidColumns(grid)),
                      |GetValidColumns(grid)|, best)
    ensures forall c :: c in GetValidColumns(grid) && c < GetValidColumns(grid)[best] ==>
      RootValue(maxToken, minToken, grid, depth, c)
      < RootValue(maxToken, minToken, grid, depth, GetValidColumns(grid)[best])
  {
    var cols := GetValidColumns(grid);
    var vals := RootValues(maxToken, minToken, grid, depth, cols);
    forall c | c in cols && c < cols[best]
      ensures RootValue(maxToken, minToken, grid, depth, c) < vals[best]
    {
      var j :| 0 <= j < |cols| && cols[j] == c;
      AscendingIndex(cols, j, best);
      assert vals[j] < vals[best];
    }
  }

  /** The grid before the first move: every cell EMPTY. */
  function EmptyGrid(): (g: Grid.Cells)
    ensures WellFormed(g)
    ensures forall r, c :: 0 <= r < ROWS && 0 <= c < COLS ==> g[r][c] == EMPTY
  {
    seq(ROWS, r => seq(COLS, c => EMPTY))
  }

  /** On the empty grid with depth 1 every column has root value 0 (one piece
      never wins), so the strict `>` keeps the first valid column: column 0. */
  lemma {:induction false} FirstColumnOnEmptyGrid(maxToken: string, minToken: string)
    requires Pieces(maxToken, minToken)
    ensures IsChosenMove(maxToken, minToken, EmptyGrid(), 1, Some(0))
  {
    var g := EmptyGrid();
    forall c | 0 <= c < COLS
      ensures RootValue(maxToken, minToken, g, 1, c) == 0
    {
      var child := Dropped(g, c, maxToken);
      forall r, x | 0 <= r < ROWS && 0 <= x < COLS && (r != ROWS - 1 || x != c)
        ensures child[r][x] == EMPTY
      {
        if x == c {
          // the bottom cell of column c is empty, so row r is not the lowest
          assert g[ROWS - 1][c] == EMPTY;
        }
      }
      Lines.NoRunWithOnePiece(child, ROWS, COLS, EMPTY, ROWS - 1, c);
    }
    assert 0 in GetValidColumns(g);
  }

  /** The tie-break makes the choice deterministic: at most one answer meets
      IsChosenMove. */
  lemma ChosenMoveUnique(maxToken: string, minToken: string, grid: Grid.Cells, depth: int,
                         m1: Option<nat>, m2: Option<nat>)
    requires WellFormed(grid) && Pieces(maxToken, minToken)
    requires IsChosenMove(maxToken, minToken, grid, depth, m1)
    requires IsChosenMove(maxToken, minToken, grid, depth, m2)
    ensures m1 == m2
  {
  }
}
