/** The engine's agent (aiWrapper.py, `Connect4Agent` and `get_ai_move`): its
    methods run the source's loops and are proved against the functions of
    module Search. */
module AiAgent {
  import opened Wrappers
  import Grid
  import opened AiGrid
  import opened Search

  class Connect4Agent {
    /** The engine's piece, its opponent's piece and the search depth; none
        of them changes after construction. */
    const maxToken: string
    const minToken: string
    const depth: int

    constructor(maxToken: string, minToken: string, depth: int := 4)
      ensures this.maxToken == maxToken && this.minToken == minToken && this.depth == depth
    {
      this.maxToken := maxToken;
      this.minToken := minToken;
      this.depth := depth;
    }

    /** `min_value`: the opponent moves. A terminal grid is scored by
        `evaluate` without visiting any child; otherwise the children are
        searched in column order with alpha cutoffs. */
    method MinValue(grid: Grid.Cells, depth: int, alpha: int, beta: int) returns (v: int)
      requires WellFormed(grid) && Pieces(maxToken, minToken)
      ensures v == Value(maxToken, minToken, grid, depth, alpha, beta, false)
      ensures IsScore(v)
      ensures Terminal(grid, depth) ==> v == Evaluate(maxToken, minToken, grid)
      ensures alpha < beta ==> FailSoft(v, Minimax(maxToken, minToken, grid, depth, false), alpha, beta)
      decreases Grid.EmptyCount(grid, EMPTY), 0
    {
      if alpha < beta {
        AlphaBetaSound(maxToken, minToken, grid, depth, alpha, beta, false);
      }
      var winner := CheckWinToken(grid);
      if depth == 0 || winner.Some? || IsFull(grid) {
        return Evaluate(maxToken, minToken, grid);
      }
      v := INF;
      var b := beta;
      var cols := GetValidColumns(grid);
      ghost var result := ValueLoop(maxToken, minToken, grid, depth, alpha, beta, false, cols, INF);
      while cols != []
        invariant Playable(grid, cols) && Running(v, false, cols)
        invariant result == ValueLoop(maxToken, minToken, grid, depth, alpha, b, false, cols, v)
        decreases |cols|
      {
        var col := cols[0];
        var child := DropPieceCopy(grid, col, minToken);
        Grid.DropFillsOneCell(grid, ROWS, COLS, EMPTY, col, minToken);
        var c := MaxValue(child, depth - 1, alpha, b);
        MinLoopStep(maxToken, minToken, grid, depth, alpha, b, cols, v, c);
        v := Min(v, c);
        if v <= alpha {
          return v;
        }
        b := Min(b, v);
        cols := cols[1..];
      }
    }

    /** `max_value`: the engine moves; symmetric to MinValue with beta
        cutoffs. */
    method MaxValue(grid: Grid.Cells, depth: int, alpha: int, beta: int) returns (v: int)
      requires WellFormed(grid) && Pieces(maxToken, minToken)
      ensures v == Value(maxToken, minToken, grid, depth, alpha, beta, true)
      ensures IsScore(v)
      ensures Terminal(grid, depth) ==> v == Evaluate(maxToken, minToken, grid)
      ensures alpha < beta ==> FailSoft(v, Minimax(maxToken, minToken, grid, depth, true), alpha, beta)
      decreases Grid.EmptyCount(grid, EMPTY), 0
    {
      if alpha < beta {
        AlphaBetaSound(maxToken, minToken, grid, depth, alpha, beta, true);
      }
      var winner := CheckWinToken(grid);
      if depth == 0 || winner.Some? || IsFull(grid) {
        return Evaluate(maxToken, minToken, grid);
      }
      v := -INF;
      var a := alpha;
      var cols := GetValidColumns(grid);
      ghost var result := ValueLoop(maxToken, minToken, grid, depth, alpha, beta, true, cols, -INF);
      while cols != []
        invariant Playable(grid, cols) && Running(v, true, cols)
        invariant result == ValueLoop(maxToken, minToken, grid, depth, a, beta, true, cols, v)
        decreases |cols|
      {
        var col := cols[0];
        var child := DropPieceCopy(grid, col, maxToken);
        Grid.DropFillsOneCell(grid, ROWS, COLS, EMPTY, col, maxToken);
        var c := MinValue(child, depth - 1, a, beta);
        MaxLoopStep(maxToken, minToken, grid, depth, a, beta, cols, v, c);
        v := Max(v, c);
        if v >= beta {
          return v;
        }
        a := Max(a, v);
        cols := cols[1..];
      }
    }

    /** `choose_next_move`: the valid column whose child has the greatest
        value, the first one on ties (the comparison is a strict `>`). */
    method ChooseNextMove(grid: Grid.Cells) returns (move: Option<nat>)
      requires WellFormed(grid) && Pieces(maxToken, minToken)
      ensures IsChosenMove(maxToken, minToken, grid, depth, move)
    {
      var cols := GetValidColumns(grid);
      if |cols| == 0 {
        return None;
      }
      ghost var vals := RootValues(maxToken, minToken, grid, depth, cols);
      var bestVal := -INF;
      var best := 0;
      var i := 0;
      while i < |cols|
        invariant 0 <= i <= |cols| && best < |cols|
        invariant i == 0 ==> best == 0 && bestVal == -INF
        invariant i > 0 ==> FirstMax(vals, i, best) && bestVal == vals[best]
      {
        var child := DropPieceCopy(grid, cols[i], maxToken);
        var val := MinValue(child, depth - 1, -INF, INF);
        assert val == vals[i];
        FirstMaxNext(vals, i, best, bestVal);
        if val > bestVal {
          bestVal, best := val, i;
        }
        i := i + 1;
      }
      FirstMaxIsMaximal(maxToken, minToken, grid, depth, best);
      FirstMaxIsFirst(maxToken, minToken, grid, depth, best);
      move := Some(cols[best]);
    }
  }

  /** `get_ai_move`: a fresh agent for the engine's piece aiPiece against
      humanPiece, asked for its move. */
  method GetAiMove(grid: Grid.Cells, aiPiece: string, humanPiece: string, depth: int := 4)
    returns (move: Option<nat>)
    requires WellFormed(grid) && Pieces(aiPiece, humanPiece)
    ensures IsChosenMove(aiPiece, humanPiece, grid, depth, move)
  {
    var agent := new Connect4Agent(aiPiece, humanPiece, depth);
    move := agent.ChooseNextMove(grid);
  }
}
