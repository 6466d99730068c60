/** Detection of four equal pieces in a row: the scan shared (as two copies)
    by the engine's `check_win_token` and the console board's
    `Board.check_win_token`. */
module Lines {
  import opened Wrappers
  import Grid

  /** The four orientations, in the order the scan visits them. */
  datatype Dir = Horizontal | Vertical | DiagDown | DiagUp

  /** Row step of a line: DiagDown goes towards higher rows, DiagUp towards row 0. */
  function DR(d: Dir): int
  {
    match d
    case Horizontal => 0
    case Vertical => 1
    case DiagDown => 1
    case DiagUp => -1
  }

  /** Column step of a line. */
  function DC(d: Dir): int
  {
    if d == Vertical then 0 else 1
  }

  /** All four cells of the line that starts at (r, c) lie on an R x C grid. */
  predicate InBounds(R: nat, C: nat, r: int, c: int, d: Dir)
  {
    0 <= r < R && 0 <= c < C && 0 <= r + 3 * DR(d) < R && 0 <= c + 3 * DC(d) < C
  }

  /** The line of direction d from (r, c) is on the grid and its four cells all
      hold the piece t, which is not the empty marker. */
  predicate IsRun(g: Grid.Cells, R: nat, C: nat, e: string, r: int, c: int, d: Dir, t: string)
    requires Grid.Shape(g, R, C)
  {
    && InBounds(R, C, r, c, d)
    && t != e
    && g[r][c] == t
    && g[r + DR(d)][c + DC(d)] == t
    && g[r + 2 * DR(d)][c + 2 * DC(d)] == t
    && g[r + 3 * DR(d)][c + 3 * DC(d)] == t
  }

  /** Piece t has four in a row somewhere on the grid. */
  ghost predicate WinsFor(g: Grid.Cells, R: nat, C: nat, e: string, t: string)
    requires Grid.Shape(g, R, C)
  {
    exists r, c, d :: IsRun(g, R, C, e, r, c, d, t)
  }

  // The scan of one orientation is two nested loops. For Vertical the outer
  // loop runs over columns and the inner one over rows; for the three others
  // the outer loop runs over rows. The bounds below are those of the loops.

  function OuterLo(d: Dir): int
  {
    if d == DiagUp then 3 else 0
  }

  function OuterHi(R: nat, C: nat, d: Dir): int
  {
    match d
    case Horizontal => R
    case Vertical => C
    case DiagDown => R - 3
    case DiagUp => R
  }

  function InnerHi(R: nat, C: nat, d: Dir): int
  {
    if d == Vertical then R - 3 else C - 3
  }

  /** Outer and inner loop index at which the start cell (r, c) is visited. */
  function Outer(d: Dir, r: int, c: int): int
  {
    if d == Vertical then c else r
  }

  function Inner(d: Dir, r: int, c: int): int
  {
    if d == Vertical then r else c
  }

  /** The loop bounds visit exactly the start cells whose line fits on the grid. */
  lemma ScanRangeIsInBounds(R: nat, C: nat, r: int, c: int, d: Dir)
    ensures InBounds(R, C, r, c, d) <==>
      OuterLo(d) <= Outer(d, r, c) < OuterHi(R, C, d) && 0 <= Inner(d, r, c) < InnerHi(R, C, d)
  {
  }

  /** The start cell (r, c) is visited at or after loop position (o, i). */
  predicate VisitedFrom(d: Dir, o: int, i: int, r: int, c: int)
  {
    Outer(d, r, c) > o || (Outer(d, r, c) == o && Inner(d, r, c) >= i)
  }

  /** The scan of orientation d from loop position (o, i) on: the piece of the
      first run found, or None. */
  function ScanFrom(g: Grid.Cells, R: nat, C: nat, e: string, d: Dir, o: int, i: int): (w: Option<string>)
    requires Grid.Shape(g, R, C) && OuterLo(d) <= o && 0 <= i
    ensures w.Some? ==> exists r, c :: IsRun(g, R, C, e, r, c, d, w.value)
    decreases OuterHi(R, C, d) - o, InnerHi(R, C, d) - i
  {
    if o >= OuterHi(R, C, d) then None
    else if i >= InnerHi(R, C, d) then ScanFrom(g, R, C, e, d, o + 1, 0)
    else
      var r, c := if d == Vertical then i else o, if d == Vertical then o else i;
      if IsRun(g, R, C, e, r, c, d, g[r][c]) then Some(g[r][c])
      else ScanFrom(g, R, C, e, d, o, i + 1)
  }

  /** A scan that finds nothing has passed over no run. */
  lemma {:induction false} ScanFromComplete(g: Grid.Cells, R: nat, C: nat, e: string, d: Dir, o: int, i: int)
    requires Grid.Shape(g, R, C) && OuterLo(d) <= o && 0 <= i
    requires ScanFrom(g, R, C, e, d, o, i).None?
    ensures forall r, c, t :: VisitedFrom(d, o, i, r, c) ==> !IsRun(g, R, C, e, r, c, d, t)
    decreases OuterHi(R, C, d) - o, InnerHi(R, C, d) - i
  {
    if o >= OuterHi(R, C, d) {
      forall r, c, t ensures VisitedFrom(d, o, i, r, c) ==> !IsRun(g, R, C, e, r, c, d, t) {
        ScanRangeIsInBounds(R, C, r, c, d);
      }
    } else if i >= InnerHi(R, C, d) {
      ScanFromComplete(g, R, C, e, d, o + 1, 0);
      forall r, c, t ensures VisitedFrom(d, o, i, r, c) ==> !IsRun(g, R, C, e, r, c, d, t) {
        ScanRangeIsInBounds(R, C, r, c, d);
      }
    } else {
      ScanFromComplete(g, R, C, e, d, o, i + 1);
    }
  }

  /** The winner as the source computes it: horizontal lines first, then
      vertical, then the `\` diagonal, then the `/` diagonal (whose start row
      is at least 3); within each, in loop order. */
  function Winner(g: Grid.Cells, R: nat, C: nat, e: string): (w: Option<string>)
    requires Grid.Shape(g, R, C)
    ensures w.Some? ==> w.value != e && WinsFor(g, R, C, e, w.value)
  {
    var h := ScanFrom(g, R, C, e, Horizontal, 0, 0);
    if h.Some? then h
    else
      var v := ScanFrom(g, R, C, e, Vertical, 0, 0);
      if v.Some? then v
      else
        var dd := ScanFrom(g, R, C, e, DiagDown, 0, 0);
        if dd.Some? then dd
        else ScanFrom(g, R, C, e, DiagUp, 3, 0)
  }

  /** The scan reports no winner exactly when no piece has four in a row. */
  lemma WinnerComplete(g: Grid.Cells, R: nat, C: nat, e: string)
    requires Grid.Shape(g, R, C)
    ensures Winner(g, R, C, e).None? <==> forall t :: !WinsFor(g, R, C, e, t)
  {
    if Winner(g, R, C, e).None? {
      ScanFromComplete(g, R, C, e, Horizontal, 0, 0);
      ScanFromComplete(g, R, C, e, Vertical, 0, 0);
      ScanFromComplete(g, R, C, e, DiagDown, 0, 0);
      ScanFromComplete(g, R, C, e, DiagUp, 3, 0);
      forall r, c, d, t ensures !IsRun(g, R, C, e, r, c, d, t) {
        ScanRangeIsInBounds(R, C, r, c, d);
      }
    }
  }

  /** A grid of empty cells has no run. */
  lemma NoRunOnBlankGrid(g: Grid.Cells, R: nat, C: nat, e: string)
    requires Grid.Shape(g, R, C)
    requires forall r, c :: 0 <= r < R && 0 <= c < C ==> g[r][c] == e
    ensures forall t :: !WinsFor(g, R, C, e, t)
  {
  }

  /** A grid with at most one piece, at (r0, c0), has no run. */
  lemma NoRunWithOnePiece(g: Grid.Cells, R: nat, C: nat, e: string, r0: int, c0: int)
    requires Grid.Shape(g, R, C)
    requires forall r, c :: 0 <= r < R && 0 <= c < C && (r != r0 || c != c0) ==> g[r][c] == e
    ensures forall t :: !WinsFor(g, R, C, e, t)
  {
  }
}
