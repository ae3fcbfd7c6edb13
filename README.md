# Othello and Game of Life boards

This project models, in Dafny, the two board engines of a pair of browser games.

- **The Othello board** (`othello.dfy`, module `Othello`) keeps a square grid of cells. Each cell is EMPTY (0), WHITE (1) or BLACK (2).
  - Legality: a move is legal when the cell is empty and, in one of eight directions, a run of opponent discs is closed by one of the mover's discs.
  - `place` walks back along every closed line and flips it.
  - `attemptPlace` is the turn state machine. An illegal click does nothing. A legal move places the disc, passes the turn and clears the highlights. It then runs `handleGameState`, which reads the `status` getter (PLAYING / NOMOVES / GAMEOVER), skips a stuck player and shows the result at the end.
  - `reset` lays out the 2x2 centre opening.
  - `highlightMoves` and `disableHighlights` manage one highlight flag per cell.
- **The Game of Life board** (`life.dfy`, module `Life`) keeps a square grid of DEAD (0) and ALIVE (1) cells.
  - `neighbors` counts the Moore neighbourhood, with no wraparound.
  - `iterate` applies the B3/S23 rule. It first collects every next state into a flat list, then writes the list back.
  - `set` and `reset` save a snapshot and restore it.
  - `randomize` revives a sample of cells. `resize` rebuilds the board.
  - Loading reads a parsed 2D array; `download` produces that array.
  - The speed buttons and `update` control how often a generation is computed.
- `grids.dfy` (module `Grids`) holds what both boards share: `Option`, JavaScript's truncating `%`, grid shape predicates, and the nested loops that build a fresh grid.

Each board is a `class` whose grid is a `seq<seq<int>>` field that the methods reassign. The source mutates its cells in place. Each method is proved against a pure function, and the properties the games rely on are proved about those functions:

- the scan loop is proved equivalent to the capture rule;
- `place` is proved equal to a simultaneous flip of all bracketed runs, so the order of the directions does not matter;
- after any move the player to move is never stuck;
- on a fresh 8x8 board WHITE has exactly four legal moves;
- `iterate` equals one synchronous step of the rule on the grid before the step;
- loading a downloaded board reproduces it.

## Model

| member | source | states |
|---|---|---|
| Grids.JsRem | othello_gui/src/board.js:62 | JavaScript `%`: for a non-negative dividend it is Dafny's `%` and lies in 0..n-1; for a negative one it is the negated remainder of the magnitude, in -(n-1)..0 |
| Grids.NewGrid | othello_gui/src/board.js:371-387 | the nested `push` loops build a rows x cols grid whose every cell holds the initial value |
| Othello.CellState | othello_gui/src/board.js:61-64 | `setState` stores `state % 3`: a non-negative state lands in EMPTY..BLACK, a state already in range is kept, and the result is congruent to the input mod 3 |
| Othello.EvenSize | othello_gui/src/board.js:83 | `size - size % 2` is even, equals `size` exactly when `size` is even, and is `size` or `size - 1` for non-negative sizes |
| Othello.RaysDisjoint | othello_gui/src/board.js:224 | the eight direction vectors leave the placement cell along rays that share no cell beyond it |
| Othello.ScanBrackets | othello_gui/src/board.js:242-257 | the `while (true)` scan in direction d returns "closed at k steps" exactly when cells 1..k-1 hold opponent discs and cell k, on the board, holds the mover's disc (k >= 2) |
| Othello.WalkBrackets | othello_gui/src/board.js:242-257 | the scan resumed at step i, after an opponent run, stops at k exactly when the run continues to k-1 and k closes it |
| Othello.ValidMoveIff | othello_gui/src/board.js:220-260 | `isValidMove` is true iff the cell is EMPTY and some direction has a run of at least one opponent disc closed in bounds by the mover's disc, both directions of the iff |
| Othello.Board.ScanLine | othello_gui/src/board.js:242-257 | the scan loop, as run on the board's cells, returns the distance to the closing disc, or nothing, as the scan specification says |
| Othello.Board.IsValidMove | othello_gui/src/board.js:220-260 | returns false on a non-empty cell; otherwise true iff some of the eight directions closes a line |
| Othello.PlacedExactly | othello_gui/src/board.js:269-312 | after `place` a cell holds the mover's disc exactly when it lies on a bracketed run, from the placement cell up to but not including the closing disc; every other cell is unchanged |
| Othello.PlacedFlipsOpponents | othello_gui/src/board.js:269-312 | every cell `place` changes, other than the placement cell, held an opponent disc; the placement cell gets the mover's disc iff the move is legal |
| Othello.LineUntouched | othello_gui/src/board.js:273-311 | while `place` works through the directions in order, the scan of the next direction sees the same cells as on the board before the move |
| Othello.Board.FlipLine | othello_gui/src/board.js:301-307 | the walk back from the closing disc sets every cell of that line, the placement cell included, to the mover's disc and touches nothing else |
| Othello.Board.Place | othello_gui/src/board.js:269-312 | the board after the sequential, in-place flips equals the simultaneous flip of all bracketed runs read from the board before the move, so the direction order does not matter |
| Othello.Board.AttemptPlace | othello_gui/src/board.js:323-331 | an illegal click changes neither cells, turn, highlights nor banner. A legal one places the disc, hands the turn to the opponent unless the opponent is stuck, clears the highlights, shows the result on GAMEOVER, and never leaves the status NOMOVES |
| Othello.NextTurnNeverStuck | othello_gui/src/board.js:326-360 | after a move the turn goes to the opponent, or back to the mover when the opponent has status NOMOVES, and the resulting status is never NOMOVES |
| Othello.Board.HandleGameState | othello_gui/src/board.js:338-360 | on GAMEOVER the banner shows the verdict of the disc counts, on NOMOVES the turn passes to the other player, on PLAYING nothing changes |
| Othello.Board.GetStatus | othello_gui/src/board.js:427-457 | the getter returns GAMEOVER iff no cell is EMPTY or neither colour has a legal move; otherwise PLAYING if the player to move has a move, else NOMOVES |
| Othello.Board.CountEmpty | othello_gui/src/board.js:428 | the `filter` of the empty cells counts exactly the EMPTY cells of the board |
| Othello.CountZero | othello_gui/src/board.js:428 | a colour is counted zero times exactly when no cell holds it |
| Othello.GameOverFreezes | othello_gui/src/board.js:427-457 | once the status is GAMEOVER no cell is a legal move for either colour, so every later `attemptPlace` is a no-op |
| Othello.Verdict | othello_gui/src/board.js:469-475 | the colour with more discs wins with its count first; equal counts are a draw |
| Othello.Board.HandleWin | othello_gui/src/board.js:462-476 | the banner shows the verdict of the WHITE and BLACK disc counts of the whole board |
| Othello.Board.SetTurn | othello_gui/src/board.js:185-192 | the turn setter stores the player and shows whose turn it is |
| Othello.Board.GetCell | othello_gui/src/board.js:203-209 | returns nothing exactly when row is outside [0,rows) or col outside [0,cols); otherwise the cell's state, which lies in EMPTY..BLACK |
| Othello.Board.Reset | othello_gui/src/board.js:395-420 | turn WHITE, highlights off, and every cell EMPTY except (mX,mY) and (mX+1,mY+1) WHITE and (mX,mY+1) and (mX+1,mY) BLACK, with mX = floor(cols/2)-1 and mY = floor(rows/2)-1 |
| Othello.Board.constructor | othello_gui/src/board.js:81-86 | the size is rounded down to even; the board is square, reset to the opening, WHITE to move, no highlight on |
| Othello.OpeningWellFormed | othello_gui/src/board.js:395-420 | the opening board holds only EMPTY, WHITE and BLACK cells |
| Othello.OpeningWitness | othello_gui/src/board.js:395-420 | each of the four cells beside a black centre disc of the opening is a legal move for WHITE |
| Othello.OpeningMoves | othello_gui/src/board.js:395-420 | on a fresh even n x n board (n >= 4), WHITE's legal moves are exactly the four cells beside a black centre disc and in line with a white one |
| Othello.OpeningMoves8 | othello_gui/src/board.js:395-420 | on a fresh 8x8 board WHITE's legal moves are exactly (col,row) = (2,4), (4,2), (3,5) and (5,3) |
| Othello.Board.HighlightMoves | othello_gui/src/board.js:481-487 | the highlight of every legal move of the player to move is flipped, and every other highlight is kept |
| Othello.ToggleTwice | othello_gui/src/board.js:481-487 | calling `highlightMoves` twice on an unchanged board restores every highlight |
| Othello.ToggleFromOff | othello_gui/src/board.js:481-487 | starting from all highlights off, one `highlightMoves` lights exactly the legal moves |
| Othello.Board.DisableHighlights | othello_gui/src/board.js:492-498 | every highlight is switched off |
| Life.CellState | gol_gui/src/board.js:34-37 | `setState` stores `state % 2`: a non-negative state becomes DEAD or ALIVE, a DEAD or ALIVE state is kept, and parity is preserved |
| Life.Board.GetCell | gol_gui/src/board.js:165-171 | returns nothing exactly when the position is off the board; otherwise the cell's state, DEAD or ALIVE |
| Life.Board.Neighbors | gol_gui/src/board.js:179-206 | the eight guarded additions, including the row-against-row-length comparisons, count exactly the live cells in the 3x3 window around the cell, less the cell itself, on the square board; the count is in 0..8 |
| Life.MooreRange | gol_gui/src/board.js:179-206 | on a board of DEAD/ALIVE cells a cell has between 0 and 8 live neighbours |
| Life.CornerCount | gol_gui/src/board.js:195-204 | there is no wraparound: the corner cell counts only its three neighbours on the board |
| Life.RuleIsB3S23 | gol_gui/src/board.js:249-266 | an ALIVE cell stays ALIVE iff it has 2 or 3 live neighbours, a DEAD cell becomes ALIVE iff it has exactly 3, and every other cell becomes DEAD |
| Life.Step | gol_gui/src/board.js:255-271 | one generation keeps the grid's shape and yields only DEAD/ALIVE cells |
| Life.Board.NextStates | gol_gui/src/board.js:255-267 | the first pass fills `states` with the next state of every cell, row by row, all read from the grid before the step |
| Life.Board.WriteBack | gol_gui/src/board.js:268-271 | the second pass writes the flat list back in the same row-major order, giving the grid the list was flattened from |
| Life.Board.Iterate | gol_gui/src/board.js:248-272 | the grid after `iterate` is the synchronous step of the rule applied to the grid before it |
| Life.Board.Set | gol_gui/src/board.js:369-377 | the snapshot becomes an exact copy of the grid |
| Life.Board.Reset | gol_gui/src/board.js:297-305 | with a snapshot, every cell gets its saved state back; without one, nothing changes; the snapshot itself is kept |
| Life.SampledAlive | gol_gui/src/board.js:277-290 | after `randomize` the live cells are exactly the n sampled positions, so exactly n cells are alive |
| Life.Board.Randomize | gol_gui/src/board.js:277-290 | every cell is killed, then exactly the sampled cells are revived (n between floor(l/4) and floor(l/3), l = rows^2); the snapshot equals the result |
| Life.Board.Init | gol_gui/src/board.js:211-241 | a rows x cols board is built and randomized; the snapshot equals the result |
| Life.Board.constructor | gol_gui/src/board.js:47-58 | a size x size board, update rate 30, download index 1, randomized and snapshot |
| Life.Board.Resize | gol_gui/src/board.js:384-396 | below size 5 nothing changes; otherwise the board becomes size x size, is re-randomized and its snapshot refreshed to the same shape |
| Life.Board.Load | gol_gui/src/board.js:347-356 | loading a square array of at least 5 rows of non-negative integers resizes the board to the array when the shapes differ, copies every entry mod 2 and snapshots the result |
| Life.LoadedBinary | gol_gui/src/board.js:351-355 | a loaded board always holds only DEAD/ALIVE cells in the array's shape |
| Life.LoadDownload | gol_gui/src/board.js:313-320 | loading a board of DEAD/ALIVE cells reproduces it cell for cell, so loading what `download` saved restores the board |
| Life.Board.Download | gol_gui/src/board.js:313-327 | the saved array equals the grid, row by row, and the file counter goes up by one |
| Life.Board.Faster | gol_gui/src/board.js:118 | the ">>" button lowers the rate by 5 unless it is already 10; the rate stays in [10,60] and a multiple of 5 |
| Life.Board.Slower | gol_gui/src/board.js:125 | the "<<" button raises the rate by 5 unless it is already 60; the rate stays in [10,60] and a multiple of 5 |
| Life.Board.Update | gol_gui/src/board.js:405-409 | one generation is computed exactly when the tick count is a multiple of the update rate; otherwise the grid is unchanged |

## Left out

- Sprites, fonts, colours, the layout arithmetic of the constructors and `init`, and the engine's scene graph: these are presentational. Also left out are the `destroy` and `_children` reset in `resize`, and the DOM listener the Life constructor registers.
- The Othello `update(dt)` blink timers, and the `time`/`blinkTime` fields that `disableHighlights` zeroes. They use floating-point seconds. Highlights are modelled as booleans only.
- The `turnText` strings. The model keeps the `Banner` datatype instead: whose turn it is, the winner with the two counts, or a draw.
- The click handler passes a third argument that `attemptPlace` ignores (othello_gui/src/board.js:41, 323). `Othello.Board.AttemptPlace` takes only the position.
- Othello.Board.constructor: requires a size of at least 2. A smaller size yields an empty board, and `reset` reads `cells[0]` of it and throws.
- Othello.Board.GetStatus: the empty-cell count is the helper method `CountEmpty`.
- Othello.Board.IsValidMove, Othello.Board.Place: the shared `while (true)` scan is the helper method `ScanLine`. `place`'s walk back is the helper method `FlipLine`.
- Life.Board.Iterate: the two passes are the helper methods `NextStates` and `WriteBack`, called in the same order.
- Life.Board.Neighbors: takes the cell's position (r, c). The source finds the position by searching the grid for the cell object, and the model's cells are plain values with no identity. It requires the square board that `resize` and the constructor always build, because the source compares the row with the row length.
- Life.Board.Randomize: `Random.range` and `Random.sample` belong to an external engine. The model takes the sample as a parameter: distinct (row, col) positions on the board, between floor(l/4) and floor(l/3) of them. The same applies to `Init`, `Resize`, `Load` and the constructor.
- Life.Board.Update: `Game.instance.ticks` is a parameter.
- Life.Board.Load: requires a square array of at least 5 rows with non-negative integer entries. For other input the source can fail part-way:
  - a shorter array skips the resize, and the copy then reads past the array after some cells are written;
  - a ragged array reads undefined entries;
  - a negative entry stores a negative state.
  File reading, `JSON.parse`, the non-array check and the error logging are I/O and are not modelled.
- Life.Board.Download: the `data:` URL, `encodeURIComponent` and the link click are I/O. Only the array and the counter are modelled.
- JavaScript numbers are doubles. Every value here is a small integer, so the model uses unbounded integers.
