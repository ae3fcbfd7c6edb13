/** The Othello board: an even-sized square of cells, each EMPTY, WHITE or
    BLACK, with the turn, move legality, capture and game-state logic. */
module Othello {
  import opened Grids

  const EMPTY := 0
  const WHITE := 1
  const BLACK := 2

  /** The game phase, computed from the grid and the turn, never stored. */
  datatype Status = Playing | NoMoves | GameOver

  /** What the text beside the board shows: whose turn it is, or the result. */
  datatype Banner = TurnOf(player: int) | Wins(winner: int, winnerDiscs: nat, loserDiscs: nat) | Draw(discs: nat)

  predicate IsDisc(s: int) { s == WHITE || s == BLACK }

  /** The opponent of `s`, as the source computes it: BLACK for WHITE, WHITE otherwise. */
  function Other(s: int): (o: int)
    ensures IsDisc(o)
    ensures IsDisc(s) ==> o != s
  {
    if s == WHITE then BLACK else WHITE
  }

  /** `Cell.setState` and the cell constructor store the state modulo 3. */
  function CellState(state: int): (r: int)
    ensures state >= 0 ==> EMPTY <= r <= BLACK
    ensures EMPTY <= state <= BLACK ==> r == state
    ensures state >= 0 ==> r % 3 == state % 3
  {
    JsRem(state, 3)
  }

  /** The board constructor rounds the requested size down to an even number. */
  function EvenSize(size: int): (r: int)
    ensures r % 2 == 0
    ensures r == size <==> size % 2 == 0
    ensures size >= 0 ==> size - 1 <= r <= size
  {
    size - JsRem(size, 2)
  }

  /** A well-formed board: at least one row, every row as long as the first,
      every cell EMPTY, WHITE or BLACK. */
  predicate WellFormed(g: Grid)
  {
    |g| > 0 && Rectangular(g, |g|, |g[0]|) &&
    forall r, c :: 0 <= r < |g| && 0 <= c < |g[r]| ==> EMPTY <= g[r][c] <= BLACK
  }

  // ---------------------------------------------------------------------------
  // The eight scan directions, in the order of the source's table: east,
  // south-east, south, south-west, west, north-west, north, north-east
  // (columns grow to the east, rows to the south).

  function DX(d: int): (dx: int)
    requires 0 <= d < 8
    ensures -1 <= dx <= 1
  {
    if d == 0 || d == 1 || d == 7 then 1 else if d == 2 || d == 6 then 0 else -1
  }

  function DY(d: int): (dy: int)
    requires 0 <= d < 8
    ensures -1 <= dy <= 1
    ensures DX(d) == 0 ==> dy != 0
  {
    if d == 1 || d == 2 || d == 3 then 1 else if d == 0 || d == 4 then 0 else -1
  }

  /** `a` moved `i` steps of size `da`, which is -1, 0 or 1. */
  function Along(a: int, i: int, da: int): int
  {
    if da > 0 then a + i else if da < 0 then a - i else a
  }

  /** The column and the row of the cell `i` steps from (col, row) in direction `d`. */
  function ColAt(col: int, d: int, i: int): int
    requires 0 <= d < 8
  {
    Along(col, i, DX(d))
  }

  function RowAt(row: int, d: int, i: int): int
    requires 0 <= d < 8
  {
    Along(row, i, DY(d))
  }

  /** How many steps from (col, row) in direction `d` the point (x, y) would be,
      if it lies on that ray. */
  function Steps(col: int, row: int, d: int, x: int, y: int): int
    requires 0 <= d < 8
  {
    if DX(d) == 1 then x - col
    else if DX(d) == -1 then col - x
    else if DY(d) == 1 then y - row
    else row - y
  }

  /** (x, y) lies on the ray from (col, row) in direction `d`, at least `lo`
      and fewer than `hi` steps out. */
  predicate OnSegment(col: int, row: int, d: int, x: int, y: int, lo: int, hi: int)
    requires 0 <= d < 8
  {
    var i := Steps(col, row, d, x, y);
    lo <= i < hi && x == ColAt(col, d, i) && y == RowAt(row, d, i)
  }

  /** One more step moves by the direction's unit vector. */
  lemma StepNext(col: int, row: int, d: int, i: int)
    requires 0 <= d < 8
    ensures ColAt(col, d, i + 1) == ColAt(col, d, i) + DX(d)
    ensures RowAt(row, d, i + 1) == RowAt(row, d, i) + DY(d)
  {
  }

  lemma StepsOnRay(col: int, row: int, d: int, i: int)
    requires 0 <= d < 8
    ensures Steps(col, row, d, ColAt(col, d, i), RowAt(row, d, i)) == i
  {
  }

  /** Distinct directions leave (col, row) along disjoint rays. */
  lemma RaysDisjoint(col: int, row: int, d: int, e: int, i: int, j: int)
    requires 0 <= d < 8 && 0 <= e < 8 && i >= 1 && j >= 0
    requires ColAt(col, d, i) == ColAt(col, e, j) && RowAt(row, d, i) == RowAt(row, e, j)
    ensures d == e && i == j
  {
  }

  // ---------------------------------------------------------------------------
  // Legality

  /** The scan loop of `isValidMove` and `place`, looking at the cell `i`
      steps out with `flip` recording whether an opponent disc has been seen:
      the distance of the mover's disc that closes the line, if any. */
  function Walk(g: Grid, col: int, row: int, d: int, s: int, i: nat, flip: bool): Option<nat>
    requires WellFormed(g) && InBounds(g, col, row) && 0 <= d < 8
    decreases |g| + |g[0]| - i
  {
    var x, y := ColAt(col, d, i), RowAt(row, d, i);
    if !InBounds(g, x, y) then None
    else if g[y][x] == EMPTY || (g[y][x] == s && !flip) then None
    else if g[y][x] == Other(s) then Walk(g, col, row, d, s, i + 1, true)
    else if g[y][x] == s && flip then Some(i)
    else Walk(g, col, row, d, s, i + 1, flip)
  }

  /** The scan in direction `d` from the placement cell (col, row). */
  function Scan(g: Grid, col: int, row: int, d: int, s: int): Option<nat>
    requires WellFormed(g) && InBounds(g, col, row) && 0 <= d < 8
  {
    Walk(g, col, row, d, s, 1, false)
  }

  /** `isValidMove(col, row, s)`: the cell is empty and some direction closes a line. */
  predicate ValidMove(g: Grid, col: int, row: int, s: int)
    requires WellFormed(g) && InBounds(g, col, row)
  {
    g[row][col] == EMPTY && exists d :: 0 <= d < 8 && Scan(g, col, row, d, s).Some?
  }

  /** The cells 1 .. k-1 steps out in direction `d` are in bounds and hold the opponent's discs. */
  predicate OpponentRun(g: Grid, col: int, row: int, d: int, s: int, k: int)
    requires 0 <= d < 8
  {
    forall i :: 1 <= i < k ==>
      InBounds(g, ColAt(col, d, i), RowAt(row, d, i)) && g[RowAt(row, d, i)][ColAt(col, d, i)] == Other(s)
  }

  /** The Othello capture rule: a run of at least one opponent disc in
      direction `d`, closed k steps out by a disc of the mover `s`. */
  predicate Brackets(g: Grid, col: int, row: int, d: int, s: int, k: int)
    requires 0 <= d < 8
  {
    k >= 2 && OpponentRun(g, col, row, d, s, k) &&
    InBounds(g, ColAt(col, d, k), RowAt(row, d, k)) && g[RowAt(row, d, k)][ColAt(col, d, k)] == s
  }

  lemma {:induction false} WalkBrackets(g: Grid, col: int, row: int, d: int, s: int, i: nat, k: int)
    requires WellFormed(g) && InBounds(g, col, row) && 0 <= d < 8 && IsDisc(s)
    requires i >= 1 && OpponentRun(g, col, row, d, s, i)
    ensures Walk(g, col, row, d, s, i, i >= 2) == Some(k) <==> k >= i && Brackets(g, col, row, d, s, k)
    decreases |g| + |g[0]| - i
  {
    var x, y := ColAt(col, d, i), RowAt(row, d, i);
    if InBounds(g, x, y) && g[y][x] == Other(s) {
      assert OpponentRun(g, col, row, d, s, i + 1);
      WalkBrackets(g, col, row, d, s, i + 1, k);
    }
  }

  /** The scan finds a closing disc k steps out exactly when the capture rule holds for k. */
  lemma ScanBrackets(g: Grid, col: int, row: int, d: int, s: int, k: int)
    requires WellFormed(g) && InBounds(g, col, row) && 0 <= d < 8 && IsDisc(s)
    ensures Scan(g, col, row, d, s) == Some(k) <==> Brackets(g, col, row, d, s, k)
  {
    WalkBrackets(g, col, row, d, s, 1, k);
  }

  /** A move is legal exactly when the cell is empty and, in some direction,
      a run of opponent discs is closed by one of the mover's discs. */
  lemma ValidMoveIff(g: Grid, col: int, row: int, s: int)
    requires WellFormed(g) && InBounds(g, col, row) && IsDisc(s)
    ensures ValidMove(g, col, row, s) <==>
              g[row][col] == EMPTY && exists d, k :: 0 <= d < 8 && Brackets(g, col, row, d, s, k)
  {
    forall d, k | 0 <= d < 8 {
      ScanBrackets(g, col, row, d, s, k);
    }
  }

  // ---------------------------------------------------------------------------
  // Captures

  /** (x, y) is on the line captured in direction `d`: from the placement cell
      up to, not including, the closing disc. */
  predicate Captured(g: Grid, col: int, row: int, d: int, s: int, x: int, y: int)
    requires WellFormed(g) && InBounds(g, col, row) && 0 <= d < 8
  {
    match Scan(g, col, row, d, s)
    case Some(k) => OnSegment(col, row, d, x, y, 0, k)
    case None => false
  }

  /** (x, y) is captured in one of the first `n` directions. */
  predicate CapturedBelow(g: Grid, col: int, row: int, s: int, n: int, x: int, y: int)
    requires WellFormed(g) && InBounds(g, col, row) && n <= 8
  {
    exists d :: 0 <= d < n && Captured(g, col, row, d, s, x, y)
  }

  /** The board after `place(col, row, s)`, every direction read from the board before the move. */
  function Placed(g: Grid, col: int, row: int, s: int): Grid
    requires WellFormed(g) && InBounds(g, col, row)
  {
    seq(|g|, y requires 0 <= y < |g| =>
      seq(|g[y]|, x requires 0 <= x < |g[y]| =>
        if CapturedBelow(g, col, row, s, 8, x, y) then s else g[y][x]))
  }

  /** `place` sets to `s` exactly the cells from the placement cell up to, not
      including, the closing disc of every bracketed run, and leaves every other cell as it was. */
  lemma PlacedExactly(g: Grid, col: int, row: int, s: int, x: int, y: int)
    requires WellFormed(g) && InBounds(g, col, row) && IsDisc(s) && InBounds(g, x, y)
    ensures Placed(g, col, row, s)[y][x] ==
              if exists d, k, i :: 0 <= d < 8 && 0 <= i < k && Brackets(g, col, row, d, s, k) &&
                                   x == ColAt(col, d, i) && y == RowAt(row, d, i)
              then s else g[y][x]
  {
    if CapturedBelow(g, col, row, s, 8, x, y) {
      var d :| 0 <= d < 8 && Captured(g, col, row, d, s, x, y);
      var k := Scan(g, col, row, d, s).value;
      ScanBrackets(g, col, row, d, s, k);
      var i := Steps(col, row, d, x, y);
      assert 0 <= i < k && Brackets(g, col, row, d, s, k) && x == ColAt(col, d, i) && y == RowAt(row, d, i);
    }
    if exists d, k, i :: 0 <= d < 8 && 0 <= i < k && Brackets(g, col, row, d, s, k) &&
                         x == ColAt(col, d, i) && y == RowAt(row, d, i) {
      var d, k, i :| 0 <= d < 8 && 0 <= i < k && Brackets(g, col, row, d, s, k) &&
                     x == ColAt(col, d, i) && y == RowAt(row, d, i);
      ScanBrackets(g, col, row, d, s, k);
      StepsOnRay(col, row, d, i);
      assert Captured(g, col, row, d, s, x, y);
    }
  }

  /** Every flipped disc was the opponent's, and the placement cell gets the
      mover's disc exactly when the move captures in some direction. */
  lemma PlacedFlipsOpponents(g: Grid, col: int, row: int, s: int, x: int, y: int)
    requires WellFormed(g) && InBounds(g, col, row) && IsDisc(s) && InBounds(g, x, y)
    requires g[row][col] == EMPTY
    ensures Placed(g, col, row, s)[y][x] != g[y][x] ==> (x, y) == (col, row) || g[y][x] == Other(s)
    ensures Placed(g, col, row, s)[row][col] == s <==> ValidMove(g, col, row, s)
  {
    PlacedExactly(g, col, row, s, x, y);
    PlacedExactly(g, col, row, s, col, row);
    ValidMoveIff(g, col, row, s);
    if Placed(g, col, row, s)[y][x] != g[y][x] && (x, y) != (col, row) {
      var d, k, i :| 0 <= d < 8 && 0 <= i < k && Brackets(g, col, row, d, s, k) &&
                     x == ColAt(col, d, i) && y == RowAt(row, d, i);
      assert i != 0;
    }
    if ValidMove(g, col, row, s) {
      var d, k :| 0 <= d < 8 && Brackets(g, col, row, d, s, k);
      assert 0 <= 0 < k && col == ColAt(col, d, 0) && row == RowAt(row, d, 0);
    }
  }

  lemma CapturedBelowNext(g: Grid, col: int, row: int, s: int, n: int, x: int, y: int)
    requires WellFormed(g) && InBounds(g, col, row) && 0 <= n < 8
    ensures CapturedBelow(g, col, row, s, n + 1, x, y) <==>
              CapturedBelow(g, col, row, s, n, x, y) || Captured(g, col, row, n, s, x, y)
  {
  }

  /** Cells one or more steps out in direction `d` are on no line captured in another direction. */
  lemma OffOtherLines(g: Grid, col: int, row: int, s: int, d: int, i: int)
    requires WellFormed(g) && InBounds(g, col, row) && 0 <= d < 8 && i >= 1
    ensures !CapturedBelow(g, col, row, s, d, ColAt(col, d, i), RowAt(row, d, i))
  {
    var x, y := ColAt(col, d, i), RowAt(row, d, i);
    if CapturedBelow(g, col, row, s, d, x, y) {
      var e :| 0 <= e < d && Captured(g, col, row, e, s, x, y);
      RaysDisjoint(col, row, d, e, i, Steps(col, row, e, x, y));
    }
  }

  /** The scan reads only the cells one or more steps out along its direction. */
  lemma {:induction false} WalkAgree(g: Grid, h: Grid, col: int, row: int, d: int, s: int, i: nat, flip: bool)
    requires WellFormed(g) && WellFormed(h) && |g| == |h| && |g[0]| == |h[0]|
    requires InBounds(g, col, row) && 0 <= d < 8 && i >= 1
    requires forall j :: j >= i && InBounds(g, ColAt(col, d, j), RowAt(row, d, j)) ==>
               g[RowAt(row, d, j)][ColAt(col, d, j)] == h[RowAt(row, d, j)][ColAt(col, d, j)]
    ensures Walk(g, col, row, d, s, i, flip) == Walk(h, col, row, d, s, i, flip)
    decreases |g| + |g[0]| - i
  {
    if InBounds(g, ColAt(col, d, i), RowAt(row, d, i)) {
      WalkAgree(g, h, col, row, d, s, i + 1, true);
      WalkAgree(g, h, col, row, d, s, i + 1, flip);
    }
  }

  /** While `place` works through the directions in order, the lines still to
      be scanned read exactly as on the board before the move. */
  lemma LineUntouched(g: Grid, c: Grid, col: int, row: int, s: int, d: int)
    requires WellFormed(g) && InBounds(g, col, row) && 0 <= d < 8 && IsDisc(s)
    requires PaintedBelow(c, g, col, row, s, d)
    ensures WellFormed(c)
    ensures Scan(c, col, row, d, s) == Scan(g, col, row, d, s)
  {
    forall j | j >= 1 && InBounds(g, ColAt(col, d, j), RowAt(row, d, j))
      ensures g[RowAt(row, d, j)][ColAt(col, d, j)] == c[RowAt(row, d, j)][ColAt(col, d, j)]
    {
      OffOtherLines(g, col, row, s, d, j);
    }
    WalkAgree(g, c, col, row, d, s, 1, false);
  }

  /** `c` is the board `g` with the lines captured in the first `n` directions set to `s`. */
  predicate PaintedBelow(c: Grid, g: Grid, col: int, row: int, s: int, n: int)
    requires WellFormed(g) && InBounds(g, col, row) && n <= 8
  {
    Rectangular(c, |g|, |g[0]|) &&
    forall y, x :: 0 <= y < |g| && 0 <= x < |g[0]| ==>
      c[y][x] == if CapturedBelow(g, col, row, s, n, x, y) then s else g[y][x]
  }

  /** As `PaintedBelow(c, g, col, row, s, d)`, and the cells lo .. hi-1 steps out in direction `d` set to `s` too. */
  predicate Painted(c: Grid, g: Grid, col: int, row: int, s: int, d: int, lo: int, hi: int)
    requires WellFormed(g) && InBounds(g, col, row) && 0 <= d < 8
  {
    Rectangular(c, |g|, |g[0]|) &&
    forall y, x :: 0 <= y < |g| && 0 <= x < |g[0]| ==>
      c[y][x] == if CapturedBelow(g, col, row, s, d, x, y) || OnSegment(col, row, d, x, y, lo, hi) then s else g[y][x]
  }

  /** Setting the cell lo-1 steps out extends the painted segment by one cell. */
  lemma PaintStep(c: Grid, g: Grid, col: int, row: int, s: int, d: int, lo: int, hi: int)
    requires WellFormed(g) && InBounds(g, col, row) && 0 <= d < 8 && 1 <= lo <= hi
    requires InBounds(g, ColAt(col, d, lo - 1), RowAt(row, d, lo - 1))
    requires Painted(c, g, col, row, s, d, lo, hi)
    ensures var x, y := ColAt(col, d, lo - 1), RowAt(row, d, lo - 1);
            Painted(c[y := c[y][x := s]], g, col, row, s, d, lo - 1, hi)
  {
    var x, y := ColAt(col, d, lo - 1), RowAt(row, d, lo - 1);
    var c' := c[y := c[y][x := s]];
    StepsOnRay(col, row, d, lo - 1);
    forall y', x' | 0 <= y' < |g| && 0 <= x' < |g[0]|
      ensures c'[y'][x'] == if CapturedBelow(g, col, row, s, d, x', y') || OnSegment(col, row, d, x', y', lo - 1, hi) then s else g[y'][x']
    {
      if (x', y') != (x, y) {
        assert OnSegment(col, row, d, x', y', lo - 1, hi) == OnSegment(col, row, d, x', y', lo, hi);
      }
    }
  }

  /** A direction that closes no line leaves the painting as it is. */
  lemma PaintSkip(c: Grid, g: Grid, col: int, row: int, s: int, d: int)
    requires WellFormed(g) && InBounds(g, col, row) && 0 <= d < 8
    requires PaintedBelow(c, g, col, row, s, d) && Scan(g, col, row, d, s) == None
    ensures PaintedBelow(c, g, col, row, s, d + 1)
  {
    forall y, x | 0 <= y < |g| && 0 <= x < |g[0]| {
      CapturedBelowNext(g, col, row, s, d, x, y);
    }
  }

  /** A closed line painted from its placement cell up to the closing disc completes direction `d`. */
  lemma PaintDone(c: Grid, g: Grid, col: int, row: int, s: int, d: int, k: nat)
    requires WellFormed(g) && InBounds(g, col, row) && 0 <= d < 8
    requires Scan(g, col, row, d, s) == Some(k) && Painted(c, g, col, row, s, d, 0, k)
    ensures PaintedBelow(c, g, col, row, s, d + 1)
  {
    forall y, x | 0 <= y < |g| && 0 <= x < |g[0]|
      ensures c[y][x] == if CapturedBelow(g, col, row, s, d + 1, x, y) then s else g[y][x]
    {
      CapturedBelowNext(g, col, row, s, d, x, y);
      assert Captured(g, col, row, d, s, x, y) == OnSegment(col, row, d, x, y, 0, k);
    }
  }

  // ---------------------------------------------------------------------------
  // Game state

  predicate HasEmpty(g: Grid)
  {
    exists r, c :: 0 <= r < |g| && 0 <= c < |g[r]| && g[r][c] == EMPTY
  }

  /** Player `s` has a legal move somewhere on the board. */
  predicate HasMove(g: Grid, s: int)
    requires WellFormed(g)
  {
    exists r, c :: 0 <= r < |g| && 0 <= c < |g[r]| && ValidMove(g, c, r, s)
  }

  /** The `status` getter. */
  function StatusOf(g: Grid, turn: int): Status
    requires WellFormed(g)
  {
    if !HasEmpty(g) then GameOver
    else if !HasMove(g, WHITE) && !HasMove(g, BLACK) then GameOver
    else if turn == WHITE then (if HasMove(g, WHITE) then Playing else NoMoves)
    else if turn == BLACK then (if HasMove(g, BLACK) then Playing else NoMoves)
    else Playing
  }

  /** Whose turn it is once `mover` has moved and `handleGameState` has run:
      the opponent, unless the opponent is stuck. */
  function NextTurn(g: Grid, mover: int): int
    requires WellFormed(g)
  {
    if StatusOf(g, Other(mover)) == NoMoves then mover else Other(mover)
  }

  /** After a move and the skip of a stuck opponent, the player to move is never stuck. */
  lemma NextTurnNeverStuck(g: Grid, mover: int)
    requires WellFormed(g) && IsDisc(mover)
    ensures NextTurn(g, mover) == Other(mover) || StatusOf(g, Other(mover)) == NoMoves
    ensures StatusOf(g, NextTurn(g, mover)) != NoMoves
  {
  }

  /** Once the game is over no cell is a legal move for either player. */
  lemma GameOverFreezes(g: Grid, turn: int, col: int, row: int)
    requires WellFormed(g) && IsDisc(turn) && InBounds(g, col, row)
    requires StatusOf(g, turn) == GameOver
    ensures !ValidMove(g, col, row, WHITE) && !ValidMove(g, col, row, BLACK)
  {
  }

  /** Number of cells of `line` holding `v`. */
  function CountRow(line: seq<int>, v: int): (n: nat)
    ensures n <= |line|
  {
    if |line| == 0 then 0 else CountRow(line[..|line| - 1], v) + (if line[|line| - 1] == v then 1 else 0)
  }

  /** Number of cells of `g` holding `v`. */
  function Count(g: Grid, v: int): nat
  {
    if |g| == 0 then 0 else Count(g[..|g| - 1], v) + CountRow(g[|g| - 1], v)
  }

  lemma {:induction false} CountRowZero(line: seq<int>, v: int)
    ensures CountRow(line, v) == 0 <==> forall c :: 0 <= c < |line| ==> line[c] != v
  {
    if |line| > 0 {
      CountRowZero(line[..|line| - 1], v);
    }
  }

  /** No cell holds `v` exactly when `v` is counted zero times. */
  lemma {:induction false} CountZero(g: Grid, v: int)
    ensures Count(g, v) == 0 <==> forall r, c :: 0 <= r < |g| && 0 <= c < |g[r]| ==> g[r][c] != v
  {
    if |g| > 0 {
      var init, last := g[..|g| - 1], g[|g| - 1];
      CountZero(init, v);
      CountRowZero(last, v);
      assert forall r :: 0 <= r < |init| ==> init[r] == g[r];
    }
  }

  /** `handleWin`: the colour with more discs wins; equal counts are a draw. */
  function Verdict(white: nat, black: nat): (b: Banner)
    ensures b.Wins? ==> IsDisc(b.winner) && b.winnerDiscs > b.loserDiscs
    ensures b.Wins? && b.winner == WHITE ==> b.winnerDiscs == white && b.loserDiscs == black
    ensures b.Wins? && b.winner == BLACK ==> b.winnerDiscs == black && b.loserDiscs == white
    ensures b.Draw? <==> white == black
    ensures b.Draw? ==> b.discs == white
  {
    if white > black then Wins(WHITE, white, black)
    else if black > white then Wins(BLACK, black, white)
    else Draw(white)
  }

  // ---------------------------------------------------------------------------
  // Opening position

  /** The state `reset` gives the cell (x, y) when the centre block's top-left is (mx, my). */
  function OpeningCell(x: int, y: int, mx: int, my: int): int
  {
    if (x == mx && y == my) || (x == mx + 1 && y == my + 1) then WHITE
    else if (x == mx && y == my + 1) || (x == mx + 1 && y == my) then BLACK
    else EMPTY
  }

  /** The board `reset` produces: the 2x2 centre block, everything else empty. */
  function Opening(rows: nat, cols: nat): (g: Grid)
    ensures Rectangular(g, rows, cols)
  {
    seq(rows, y requires 0 <= y < rows =>
      seq(cols, x requires 0 <= x < cols => OpeningCell(x, y, cols / 2 - 1, rows / 2 - 1)))
  }

  lemma OpeningWellFormed(n: nat)
    requires n >= 1
    ensures WellFormed(Opening(n, n))
  {
  }

  /** On a fresh board the only captures are single black discs, closed by a white one. */
  lemma OpeningBracket(n: nat, col: int, row: int, d: int, k: int)
    requires n >= 4 && n % 2 == 0 && 0 <= col < n && 0 <= row < n && 0 <= d < 8
    requires Brackets(Opening(n, n), col, row, d, WHITE, k)
    ensures var m := n / 2 - 1;
            (col, row) in {(m - 1, m + 1), (m + 1, m - 1), (m, m + 2), (m + 2, m)}
  {
    var g, m := Opening(n, n), n / 2 - 1;
    var x1, y1 := ColAt(col, d, 1), RowAt(row, d, 1);
    var x2, y2 := ColAt(col, d, 2), RowAt(row, d, 2);
    assert InBounds(g, x1, y1) && g[y1][x1] == BLACK;
    assert OpeningCell(x1, y1, m, m) == BLACK;
    if k > 2 {
      assert false;
    }
    assert OpeningCell(x2, y2, m, m) == WHITE;
  }

  /** Each of the four cells beside a black centre disc closes a line through it. */
  lemma OpeningWitness(n: nat, col: int, row: int)
    requires n >= 4 && n % 2 == 0 && 0 <= col < n && 0 <= row < n
    requires var m := n / 2 - 1;
             (col, row) in {(m - 1, m + 1), (m + 1, m - 1), (m, m + 2), (m + 2, m)}
    ensures WellFormed(Opening(n, n)) && ValidMove(Opening(n, n), col, row, WHITE)
  {
    var g, m := Opening(n, n), n / 2 - 1;
    OpeningWellFormed(n);
    var p := (col, row);
    var d := if p == (m - 1, m + 1) then 0 else if p == (m + 1, m - 1) then 2 else if p == (m, m + 2) then 6 else 4;
    assert Brackets(g, col, row, d, WHITE, 2);
    ScanBrackets(g, col, row, d, WHITE, 2);
  }

  /** On a fresh n x n board (n even, at least 4) WHITE has exactly four legal
      moves, each next to a black centre disc and in line with a white one. */
  lemma OpeningMoves(n: nat, col: int, row: int)
    requires n >= 4 && n % 2 == 0 && 0 <= col < n && 0 <= row < n
    ensures WellFormed(Opening(n, n))
    ensures var m := n / 2 - 1;
            ValidMove(Opening(n, n), col, row, WHITE) <==>
              (col, row) in {(m - 1, m + 1), (m + 1, m - 1), (m, m + 2), (m + 2, m)}
  {
    var g, m := Opening(n, n), n / 2 - 1;
    OpeningWellFormed(n);
    if (col, row) in {(m - 1, m + 1), (m + 1, m - 1), (m, m + 2), (m + 2, m)} {
      OpeningWitness(n, col, row);
    }
    if ValidMove(g, col, row, WHITE) {
      ValidMoveIff(g, col, row, WHITE);
      var d, k :| 0 <= d < 8 && Brackets(g, col, row, d, WHITE, k);
      OpeningBracket(n, col, row, d, k);
    }
  }

  /** The standard 8x8 opening: WHITE's legal moves are (col, row) = (2,4), (4,2), (3,5), (5,3). */
  lemma OpeningMoves8(col: int, row: int)
    requires 0 <= col < 8 && 0 <= row < 8
    ensures WellFormed(Opening(8, 8))
    ensures ValidMove(Opening(8, 8), col, row, WHITE) <==> (col, row) in {(2, 4), (4, 2), (3, 5), (5, 3)}
  {
    OpeningMoves(8, col, row);
  }

  // ---------------------------------------------------------------------------
  // Move highlights

  /** `highlightMoves`: every cell that is a legal move for `s` has its flag flipped. */
  function Toggled(h: seq<seq<bool>>, g: Grid, s: int): seq<seq<bool>>
    requires WellFormed(g) && Rectangular(h, |g|, |g[0]|)
  {
    seq(|h|, y requires 0 <= y < |h| =>
      seq(|h[y]|, x requires 0 <= x < |h[y]| => h[y][x] != ValidMove(g, x, y, s)))
  }

  /** Flipping twice restores the flags. */
  lemma ToggleTwice(h: seq<seq<bool>>, g: Grid, s: int)
    requires WellFormed(g) && Rectangular(h, |g|, |g[0]|)
    ensures Toggled(Toggled(h, g, s), g, s) == h
  {
    var t := Toggled(Toggled(h, g, s), g, s);
    SameCells(t, h);
  }

  /** From all flags off, one `highlightMoves` lights exactly the legal moves. */
  lemma ToggleFromOff(g: Grid, s: int, col: int, row: int)
    requires WellFormed(g) && InBounds(g, col, row)
    ensures Toggled(Filled(|g|, |g[0]|, false), g, s)[row][col] == ValidMove(g, col, row, s)
  {
  }

  // ---------------------------------------------------------------------------
  // The board object

  class Board {
    const rows: int
    const cols: int
    var cells: Grid
    var turn: int
    var highlighted: seq<seq<bool>>
    var banner: Banner

    /** The shape every board keeps: an even square of at least 2x2 cells and
        one highlight flag per cell. */
    ghost predicate Shaped()
      reads this
    {
      rows == cols && rows >= 2 && rows % 2 == 0 &&
      Rectangular(cells, rows, cols) && Rectangular(highlighted, rows, cols)
    }

    ghost predicate Valid()
      reads this
    {
      Shaped() && WellFormed(cells) && IsDisc(turn)
    }

    /** `new Board({size})`: the size is rounded down to even, the cells are
        created empty and then `reset`. */
    constructor (size: int)
      requires size >= 2
      ensures Valid()
      ensures rows == EvenSize(size) && cols == rows
      ensures cells == Opening(rows, cols) && turn == WHITE && banner == TurnOf(WHITE)
      ensures highlighted == Filled(rows, cols, false)
    {
      var n := EvenSize(size);
      rows := n;
      cols := n;
      var grid := NewGrid(n, n, EMPTY);
      var lights := NewGrid(n, n, false);
      cells := grid;
      highlighted := lights;
      new;
      Reset();
    }

    /** `getCell(col, row)`: the state, or nothing when the position is off the board. */
    function GetCell(col: int, row: int): (r: Option<int>)
      reads this
      requires Valid()
      ensures r == None <==> !(0 <= row < rows && 0 <= col < cols)
      ensures r.Some? ==> r.value == cells[row][col] && EMPTY <= r.value <= BLACK
    {
      if 0 <= row < |cells| && 0 <= col < |cells[row]| then Some(cells[row][col]) else None
    }

    /** The `turn` setter: it also updates the banner. */
    method SetTurn(t: int)
      modifies this`turn, this`banner
      ensures turn == t
      ensures banner == TurnOf(if t == WHITE then WHITE else BLACK)
    {
      turn := t;
      banner := if t == WHITE then TurnOf(WHITE) else TurnOf(BLACK);
    }

    /** The scan loop of `isValidMove` and `place`: step outward from
        (col, row) in direction `d` until the line breaks (off the board, an
        empty cell, or the mover's own disc first) or is closed by a disc of
        `state` after opponent discs; the distance of that disc is returned. */
    method ScanLine(col: int, row: int, d: int, state: int) returns (closing: Option<nat>)
      requires WellFormed(cells) && InBounds(cells, col, row) && 0 <= d < 8
      ensures closing == Scan(cells, col, row, d, state)
    {
      var other := if state == WHITE then BLACK else WHITE;
      var dx, dy := DX(d), DY(d);
      var x, y, flip := col, row, false;
      var i: nat := 0;
      while true
        invariant x == ColAt(col, d, i) && y == RowAt(row, d, i)
        invariant i <= |cells| + |cells[0]|
        invariant Walk(cells, col, row, d, state, i + 1, flip) == Scan(cells, col, row, d, state)
        decreases |cells| + |cells[0]| - i
      {
        StepNext(col, row, d, i);
        x, y, i := x + dx, y + dy, i + 1;
        if x >= |cells[0]| || x < 0 || y >= |cells| || y < 0 {
          return None;
        }
        if cells[y][x] == EMPTY || (cells[y][x] == state && !flip) {
          return None;
        } else if cells[y][x] == other {
          flip := true;
        } else if cells[y][x] == state && flip {
          return Some(i);
        }
      }
    }

    /** `isValidMove(col, row, state)`: an occupied cell is never a move;
        otherwise the eight directions are scanned in turn. */
    method IsValidMove(col: int, row: int, state: int) returns (valid: bool)
      requires Valid() && InBounds(cells, col, row)
      ensures valid == ValidMove(cells, col, row, state)
    {
      if cells[row][col] != EMPTY {
        return false;
      }
      var d := 0;
      while d < 8
        invariant 0 <= d <= 8
        invariant forall e :: 0 <= e < d ==> Scan(cells, col, row, e, state) == None
      {
        var closing := ScanLine(col, row, d, state);
        if closing.Some? {
          return true;
        }
        d := d + 1;
      }
      return false;
    }

    /** The walk back of `place` along one closed line: from the closing disc
        `k` steps out, set every cell up to and including (col, row) to `state`. */
    method FlipLine(ghost g: Grid, col: int, row: int, d: int, k: nat, state: int)
      requires WellFormed(g) && InBounds(g, col, row) && 0 <= d < 8 && IsDisc(state)
      requires Brackets(g, col, row, d, state, k) && Painted(cells, g, col, row, state, d, k, k)
      modifies this`cells
      ensures Painted(cells, g, col, row, state, d, 0, k)
    {
      var dx, dy := DX(d), DY(d);
      var i := k;
      var x, y := ColAt(col, d, i), RowAt(row, d, i);
      while !(x == col && y == row)
        invariant 0 <= i <= k
        invariant x == ColAt(col, d, i) && y == RowAt(row, d, i)
        invariant Painted(cells, g, col, row, state, d, i, k)
        decreases i
      {
        StepNext(col, row, d, i - 1);
        x, y := x - dx, y - dy;
        assert i - 1 == 0 || (OpponentRun(g, col, row, d, state, k) && 1 <= i - 1 < k);
        PaintStep(cells, g, col, row, state, d, i, k);
        i := i - 1;
        cells := cells[y := cells[y][x := CellState(state)]];
      }
    }

    /** `place(col, row, state)`: along every direction whose line is closed,
        walk back from the closing disc and set each cell, the placement cell
        included, to `state`. */
    method Place(col: int, row: int, state: int)
      requires Valid() && InBounds(cells, col, row) && IsDisc(state)
      modifies this`cells
      ensures Valid()
      ensures cells == Placed(old(cells), col, row, state)
    {
      ghost var g := cells;
      var d := 0;
      while d < 8
        invariant 0 <= d <= 8
        invariant PaintedBelow(cells, g, col, row, state, d)
      {
        LineUntouched(g, cells, col, row, state, d);
        var closing := ScanLine(col, row, d, state);
        if closing.Some? {
          ghost var k := closing.value;
          ScanBrackets(g, col, row, d, state, k);
          FlipLine(g, col, row, d, closing.value, state);
          PaintDone(cells, g, col, row, state, d, k);
        } else {
          PaintSkip(cells, g, col, row, state, d);
        }
        d := d + 1;
      }
      SameCells(cells, Placed(g, col, row, state));
    }

    /** `attemptPlace(col, row)`: an illegal click changes nothing; a legal one
        places the disc, passes the turn, clears the highlights and runs
        `handleGameState`. */
    method AttemptPlace(col: int, row: int)
      requires Valid() && InBounds(cells, col, row)
      modifies this`cells, this`turn, this`highlighted, this`banner
      ensures Valid()
      ensures !ValidMove(old(cells), col, row, old(turn)) ==>
                cells == old(cells) && turn == old(turn) &&
                highlighted == old(highlighted) && banner == old(banner)
      ensures ValidMove(old(cells), col, row, old(turn)) ==>
                cells == Placed(old(cells), col, row, old(turn)) &&
                turn == NextTurn(cells, old(turn)) &&
                highlighted == Filled(rows, cols, false) &&
                banner == if StatusOf(cells, turn) == GameOver
                          then Verdict(Count(cells, WHITE), Count(cells, BLACK))
                          else TurnOf(turn)
      ensures ValidMove(old(cells), col, row, old(turn)) ==> StatusOf(cells, turn) != NoMoves
    {
      var valid := IsValidMove(col, row, turn);
      if valid {
        ghost var mover := turn;
        Place(col, row, turn);
        SetTurn(if turn == WHITE then BLACK else WHITE);
        DisableHighlights();
        HandleGameState();
        NextTurnNeverStuck(cells, mover);
      }
    }

    /** `handleGameState`: on GAMEOVER show the result, on NOMOVES skip the
        stuck player, otherwise nothing. */
    method HandleGameState()
      requires Valid()
      modifies this`turn, this`banner
      ensures Valid()
      ensures turn == if StatusOf(cells, old(turn)) == NoMoves then Other(old(turn)) else old(turn)
      ensures banner == match StatusOf(cells, old(turn))
                        case GameOver => Verdict(Count(cells, WHITE), Count(cells, BLACK))
                        case NoMoves => TurnOf(turn)
                        case Playing => old(banner)
    {
      var st := GetStatus();
      match st {
        case GameOver =>
          HandleWin();
        case NoMoves =>
          SetTurn(if turn == WHITE then BLACK else WHITE);
        case Playing =>
      }
    }

    /** `cells.flat().filter(cell => cell.state === 0).length`: the number of empty cells. */
    method CountEmpty() returns (empties: nat)
      requires Valid()
      ensures empties == Count(cells, EMPTY)
    {
      empties := 0;
      var r := 0;
      while r < rows
        invariant 0 <= r <= rows
        invariant empties == Count(cells[..r], EMPTY)
      {
        var c := 0;
        while c < cols
          invariant 0 <= c <= cols
          invariant empties == Count(cells[..r], EMPTY) + CountRow(cells[r][..c], EMPTY)
        {
          assert cells[r][..c + 1][..c] == cells[r][..c];
          if cells[r][c] == EMPTY {
            empties := empties + 1;
          }
          c := c + 1;
        }
        assert cells[r][..c] == cells[r];
        assert cells[..r + 1][..r] == cells[..r];
        r := r + 1;
      }
      assert cells[..r] == cells;
    }

    /** The `status` getter: count the empty cells, then look for a legal move
        of either colour on every cell. */
    method GetStatus() returns (st: Status)
      requires Valid()
      ensures st == StatusOf(cells, turn)
    {
      var empties := CountEmpty();
      CountZero(cells, EMPTY);
      if empties == 0 {
        return GameOver;
      }
      var wHasMoves, bHasMoves := false, false;
      var r := 0;
      while r < rows
        invariant 0 <= r <= rows
        invariant wHasMoves == MoveBefore(cells, WHITE, r, 0)
        invariant bHasMoves == MoveBefore(cells, BLACK, r, 0)
      {
        var c := 0;
        while c < cols
          invariant 0 <= c <= cols
          invariant wHasMoves == MoveBefore(cells, WHITE, r, c)
          invariant bHasMoves == MoveBefore(cells, BLACK, r, c)
        {
          var w := IsValidMove(c, r, WHITE);
          if w {
            wHasMoves := true;
          }
          var b := IsValidMove(c, r, BLACK);
          if b {
            bHasMoves := true;
          }
          c := c + 1;
        }
        r := r + 1;
      }
      if !wHasMoves && !bHasMoves {
        return GameOver;
      }
      if turn == WHITE {
        return if wHasMoves then Playing else NoMoves;
      }
      if turn == BLACK {
        return if bHasMoves then Playing else NoMoves;
      }
      return Playing;
    }

    /** `handleWin`: count the discs of each colour and show the result. */
    method HandleWin()
      requires Valid()
      modifies this`banner
      ensures banner == Verdict(Count(cells, WHITE), Count(cells, BLACK))
    {
      var white, black := 0, 0;
      var r := 0;
      while r < rows
        invariant 0 <= r <= rows
        invariant white == Count(cells[..r], WHITE) && black == Count(cells[..r], BLACK)
      {
        var c := 0;
        while c < cols
          invariant 0 <= c <= cols
          invariant white == Count(cells[..r], WHITE) + CountRow(cells[r][..c], WHITE)
          invariant black == Count(cells[..r], BLACK) + CountRow(cells[r][..c], BLACK)
        {
          assert cells[r][..c + 1][..c] == cells[r][..c];
          if cells[r][c] == WHITE {
            white := white + 1;
          }
          if cells[r][c] == BLACK {
            black := black + 1;
          }
          c := c + 1;
        }
        assert cells[r][..c] == cells[r];
        assert cells[..r + 1][..r] == cells[..r];
        r := r + 1;
      }
      assert cells[..r] == cells;
      banner := if white > black then Wins(WHITE, white, black)
                else if black > white then Wins(BLACK, black, white)
                else Draw(white);
    }

    /** `reset`: clear the highlights, give WHITE the turn and lay out the
        centre block. */
    method Reset()
      requires Shaped()
      modifies this`cells, this`turn, this`highlighted, this`banner
      ensures Valid()
      ensures cells == Opening(rows, cols) && turn == WHITE && banner == TurnOf(WHITE)
      ensures highlighted == Filled(rows, cols, false)
    {
      DisableHighlights();
      SetTurn(WHITE);
      var middleX := |cells[0]| / 2 - 1;
      var middleY := |cells| / 2 - 1;
      var row := 0;
      while row < rows
        modifies this`cells
        invariant 0 <= row <= rows
        invariant Rectangular(cells, rows, cols)
        invariant forall y, x :: 0 <= y < row && 0 <= x < cols ==> cells[y][x] == OpeningCell(x, y, middleX, middleY)
      {
        var col := 0;
        while col < cols
          modifies this`cells
          invariant 0 <= col <= cols
          invariant Rectangular(cells, rows, cols)
          invariant forall y, x :: 0 <= y < row && 0 <= x < cols ==> cells[y][x] == OpeningCell(x, y, middleX, middleY)
          invariant forall x :: 0 <= x < col ==> cells[row][x] == OpeningCell(x, row, middleX, middleY)
        {
          var state := 0;
          if col == middleX {
            if row == middleY {
              state := 1;
            } else if row == middleY + 1 {
              state := 2;
            }
          } else if col == middleX + 1 {
            if row == middleY {
              state := 2;
            } else if row == middleY + 1 {
              state := 1;
            }
          }
          cells := cells[row := cells[row][col := CellState(state)]];
          col := col + 1;
        }
        row := row + 1;
      }
      SameCells(cells, Opening(rows, cols));
      OpeningWellFormed(rows);
    }

    /** `highlightMoves`: flip the highlight of every legal move of the player to move. */
    method HighlightMoves()
      requires Valid()
      modifies this`highlighted
      ensures Valid()
      ensures highlighted == Toggled(old(highlighted), cells, turn)
    {
      ghost var h := highlighted;
      var r := 0;
      while r < rows
        invariant 0 <= r <= rows
        invariant Rectangular(highlighted, rows, cols)
        invariant forall y, x :: 0 <= y < rows && 0 <= x < cols ==>
                    highlighted[y][x] == if y < r then h[y][x] != ValidMove(cells, x, y, turn) else h[y][x]
      {
        var c := 0;
        while c < cols
          invariant 0 <= c <= cols
          invariant Rectangular(highlighted, rows, cols)
          invariant forall y, x :: 0 <= y < rows && 0 <= x < cols ==>
                      highlighted[y][x] ==
                        if y < r || (y == r && x < c) then h[y][x] != ValidMove(cells, x, y, turn) else h[y][x]
        {
          var valid := IsValidMove(c, r, turn);
          if valid {
            highlighted := highlighted[r := highlighted[r][c := !highlighted[r][c]]];
          }
          c := c + 1;
        }
        r := r + 1;
      }
      SameCells(highlighted, Toggled(h, cells, turn));
    }

    /** `disableHighlights`: switch every highlight off. */
    method DisableHighlights()
      requires Rectangular(highlighted, rows, cols) && rows >= 0 && cols >= 0
      modifies this`highlighted
      ensures highlighted == Filled(rows, cols, false)
    {
      var r := 0;
      while r < rows
        invariant 0 <= r <= rows
        invariant Rectangular(highlighted, rows, cols)
        invariant forall y, x :: 0 <= y < r && 0 <= x < cols ==> !highlighted[y][x]
      {
        var c := 0;
        while c < cols
          invariant 0 <= c <= cols
          invariant Rectangular(highlighted, rows, cols)
          invariant forall y, x :: 0 <= y < r && 0 <= x < cols ==> !highlighted[y][x]
          invariant forall x :: 0 <= x < c ==> !highlighted[r][x]
        {
          highlighted := highlighted[r := highlighted[r][c := false]];
          c := c + 1;
        }
        r := r + 1;
      }
      SameCells(highlighted, Filled(rows, cols, false));
    }
  }

  /** Some cell before (r, c) in row-major order is a legal move for `s`. */
  predicate MoveBefore(g: Grid, s: int, r: int, c: int)
    requires WellFormed(g)
  {
    exists y, x :: 0 <= y < |g| && 0 <= x < |g[y]| && (y < r || (y == r && x < c)) && ValidMove(g, x, y, s)
  }
}
