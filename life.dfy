/** The Game of Life board: a square grid of DEAD/ALIVE cells stepped by
    Conway's B3/S23 rule with no wraparound, a snapshot for `reset`, loading
    and saving of the grid as a 2D array, and the update-rate buttons. */
module Life {
  import opened Grids

  const DEAD := 0
  const ALIVE := 1

  /** `resize` ignores sizes below this one. */
  const MIN_SIZE := 5

  /** `Cell.setState` stores `state % 2`. */
  function CellState(state: int): (r: int)
    ensures state >= 0 ==> r == DEAD || r == ALIVE
    ensures state == DEAD || state == ALIVE ==> r == state
    ensures state >= 0 ==> r % 2 == state % 2
  {
    JsRem(state, 2)
  }

  /** Every cell of `g` is DEAD or ALIVE. */
  predicate Binary(g: Grid)
  {
    forall y, x :: 0 <= y < |g| && 0 <= x < |g[y]| ==> g[y][x] == DEAD || g[y][x] == ALIVE
  }

  // ---------------------------------------------------------------------------
  // Neighbourhood

  /** The state at (y, x), counting any position off the board as 0. */
  function At(g: Grid, y: int, x: int): int
  {
    if InBounds(g, x, y) then g[y][x] else 0
  }

  /** The three cells of row `y` centred on column `c`. */
  function RowWindow(g: Grid, y: int, c: int): int
  {
    At(g, y, c - 1) + At(g, y, c) + At(g, y, c + 1)
  }

  /** The Moore neighbourhood of (r, c) without wraparound: the 3x3 window
      around the cell, less the cell itself. */
  function MooreCount(g: Grid, r: int, c: int): int
  {
    RowWindow(g, r - 1, c) + RowWindow(g, r, c) + RowWindow(g, r + 1, c) - At(g, r, c)
  }

  /** On a board of DEAD/ALIVE cells a cell has between 0 and 8 live neighbours. */
  lemma MooreRange(g: Grid, r: int, c: int)
    requires Binary(g) && InBounds(g, c, r)
    ensures 0 <= MooreCount(g, r, c) <= 8
  {
  }

  /** No wraparound: the corner cell (0, 0) of a square board of at least two
      rows sees only its three neighbours on the board. */
  lemma CornerCount(g: Grid)
    requires |g| >= 2 && Rectangular(g, |g|, |g|)
    ensures MooreCount(g, 0, 0) == g[0][1] + g[1][0] + g[1][1]
  {
  }

  // ---------------------------------------------------------------------------
  // The rule

  /** The body of `iterate` for one cell: its next state from its state and its live-neighbour count. */
  function Rule(state: int, n: int): int
  {
    if state == ALIVE then
      if n < 2 then DEAD else if n < 4 then ALIVE else DEAD
    else if n == 3 then ALIVE else DEAD
  }

  /** B3/S23: a live cell survives with two or three live neighbours, a dead
      one is born with exactly three, and every other cell is dead next. */
  lemma RuleIsB3S23(state: int, n: int)
    requires state == DEAD || state == ALIVE
    ensures Rule(state, n) == ALIVE || Rule(state, n) == DEAD
    ensures state == ALIVE ==> (Rule(state, n) == ALIVE <==> n == 2 || n == 3)
    ensures state == DEAD ==> (Rule(state, n) == ALIVE <==> n == 3)
  {
  }

  /** One generation: every next state read from the same grid `g`. */
  function Step(g: Grid): (h: Grid)
    ensures |h| == |g| && forall y :: 0 <= y < |g| ==> |h[y]| == |g[y]|
    ensures Binary(h)
  {
    seq(|g|, y requires 0 <= y < |g| =>
      seq(|g[y]|, x requires 0 <= x < |g[y]| => Rule(g[y][x], MooreCount(g, y, x))))
  }

  // ---------------------------------------------------------------------------
  // Row-major flattening, the order of `cells.flat()`

  function Flatten(g: Grid): seq<int>
  {
    if |g| == 0 then [] else Flatten(g[..|g| - 1]) + g[|g| - 1]
  }

  lemma FlattenSnoc(a: Grid, b: seq<int>)
    ensures Flatten(a + [b]) == Flatten(a) + b
  {
    assert (a + [b])[..|a|] == a;
  }

  lemma {:induction false} FlattenAppend(a: Grid, b: Grid)
    ensures Flatten(a + b) == Flatten(a) + Flatten(b)
    decreases |b|
  {
    if |b| > 0 {
      var init := b[..|b| - 1];
      assert a + b == (a + init) + [b[|b| - 1]];
      assert b == init + [b[|b| - 1]];
      FlattenSnoc(a + init, b[|b| - 1]);
      FlattenSnoc(init, b[|b| - 1]);
      FlattenAppend(a, init);
    } else {
      assert a + b == a;
    }
  }

  lemma PrefixSnoc(a: seq<int>, b: seq<int>, k: int)
    requires 0 <= k < |b|
    ensures (a + b[..k]) + [b[k]] == a + b[..k + 1]
  {
    assert b[..k + 1] == b[..k] + [b[k]];
  }

  /** The cell (row, col) sits at offset |Flatten(g[..row])| + col of the flattened grid. */
  lemma FlattenIndex(g: Grid, row: int, col: int)
    requires 0 <= row < |g| && 0 <= col < |g[row]|
    ensures |Flatten(g[..row])| + col < |Flatten(g)|
    ensures Flatten(g)[|Flatten(g[..row])| + col] == g[row][col]
  {
    assert g == g[..row + 1] + g[row + 1..];
    FlattenAppend(g[..row + 1], g[row + 1..]);
    assert g[..row + 1] == g[..row] + [g[row]];
    FlattenSnoc(g[..row], g[row]);
  }

  // ---------------------------------------------------------------------------
  // Randomize and load

  /** The positions (row, col) of the live cells of `g`. */
  function AliveSet(g: Grid): set<(int, int)>
  {
    set y, x | 0 <= y < |g| && 0 <= x < |g[y]| && g[y][x] == ALIVE :: (y, x)
  }

  predicate Distinct<T(==)>(s: seq<T>)
  {
    forall i, j :: 0 <= i < j < |s| ==> s[i] != s[j]
  }

  /** A sequence without repetitions has as many elements as its set. */
  lemma {:induction false} DistinctCard<T>(s: seq<T>)
    requires Distinct(s)
    ensures |set p | p in s| == |s|
  {
    if |s| > 0 {
      var init := s[..|s| - 1];
      assert Distinct(init);
      DistinctCard(init);
      assert (set p | p in s) == (set p | p in init) + {s[|s| - 1]};
      assert s[|s| - 1] !in (set p | p in init);
    } else {
      assert (set p | p in s) == {};
    }
  }

  /** What `Random.sample(cells.flat(), n)` may return for a `size` x `size`
      board, with n from `Random.range(floor(l/4), floor(l/3))`, l = size*size:
      n distinct cells of the board, written as (row, col) positions. */
  predicate Sample(picks: seq<(int, int)>, size: int)
  {
    Distinct(picks) &&
    (forall i :: 0 <= i < |picks| ==> 0 <= picks[i].0 < size && 0 <= picks[i].1 < size) &&
    (size * size) / 4 <= |picks| <= (size * size) / 3
  }

  /** The board `randomize` leaves: ALIVE exactly at the sampled positions. */
  function Sampled(size: nat, picks: seq<(int, int)>): (g: Grid)
    ensures Rectangular(g, size, size) && Binary(g)
  {
    seq(size, y requires 0 <= y < size =>
      seq(size, x requires 0 <= x < size => if (y, x) in picks then ALIVE else DEAD))
  }

  /** After `randomize` exactly the n sampled cells are alive. */
  lemma SampledAlive(size: nat, picks: seq<(int, int)>)
    requires Sample(picks, size)
    ensures AliveSet(Sampled(size, picks)) == set p | p in picks
    ensures |AliveSet(Sampled(size, picks))| == |picks|
  {
    var g := Sampled(size, picks);
    forall p | p in picks
      ensures p in AliveSet(g)
    {
      var i :| 0 <= i < |picks| && picks[i] == p;
      assert g[p.0][p.1] == ALIVE;
    }
    DistinctCard(picks);
  }

  /** The grid `read` leaves after copying `data` cell by cell through `setState`. */
  function Loaded(data: Grid): (g: Grid)
    ensures |g| == |data| && forall y :: 0 <= y < |data| ==> |g[y]| == |data[y]|
  {
    seq(|data|, y requires 0 <= y < |data| =>
      seq(|data[y]|, x requires 0 <= x < |data[y]| => CellState(data[y][x])))
  }

  /** Loading a grid of DEAD/ALIVE cells reproduces it, so loading the array
      `download` produced gives back the board that was saved. */
  lemma LoadDownload(g: Grid)
    requires Binary(g)
    ensures Loaded(g) == g
  {
    SameCells(Loaded(g), g);
  }

  /** The input `read` can load: a square array of at least MIN_SIZE rows of non-negative integers. */
  predicate Loadable(data: Grid)
  {
    |data| >= MIN_SIZE && Rectangular(data, |data|, |data|) &&
    forall y, x :: 0 <= y < |data| && 0 <= x < |data| ==> data[y][x] >= 0
  }

  /** Loading a loadable array always leaves a board of DEAD/ALIVE cells. */
  lemma LoadedBinary(data: Grid)
    requires Loadable(data)
    ensures Binary(Loaded(data)) && Rectangular(Loaded(data), |data|, |data|)
  {
  }

  // ---------------------------------------------------------------------------
  // The board

  class Board {
    var rows: int
    var cols: int
    var cells: Grid
    var originalStates: Grid
    var downloadIndex: int
    var updateRate: int

    /** The fields the constructor sets before `init` and the buttons keep in range. */
    predicate Settings()
      reads this
    {
      rows == cols >= 0 && downloadIndex >= 1 &&
      10 <= updateRate <= 60 && updateRate % 5 == 0
    }

    /** A square board of DEAD/ALIVE cells and a snapshot of the same shape. */
    predicate Valid()
      reads this
    {
      Settings() &&
      Rectangular(cells, rows, cols) && Binary(cells) &&
      Rectangular(originalStates, rows, cols) && Binary(originalStates)
    }

    /** `new Board({size})`: a size x size board, randomized and snapshot. */
    constructor(size: nat, picks: seq<(int, int)>)
      requires Sample(picks, size)
      ensures Valid() && rows == size && cols == size
      ensures updateRate == 30 && downloadIndex == 1
      ensures AliveSet(cells) == set p | p in picks
      ensures originalStates == cells
    {
      cols := size;
      rows := size;
      cells := [];
      originalStates := [];
      downloadIndex := 1;
      updateRate := 30;
      new;
      Init(picks);
    }

    /** `getCell(col, row)`: the state at (col, row), or None off the board. */
    function GetCell(col: int, row: int): (r: Option<int>)
      reads this
      requires Valid()
      ensures r == None <==> !(0 <= row < rows && 0 <= col < cols)
      ensures r.Some? ==> r.value == cells[row][col] && (r.value == DEAD || r.value == ALIVE)
    {
      if 0 <= row < |cells| && 0 <= col < |cells[row]| then Some(cells[row][col]) else None
    }

    /** `neighbors(cell)` for the cell at (r, c). The row is compared with the
        length of a row and the column with the number of rows, which is
        harmless on the square board. */
    method Neighbors(r: int, c: int) returns (count: int)
      requires Valid() && 0 <= r < rows && 0 <= c < cols
      ensures count == MooreCount(cells, r, c)
      ensures 0 <= count <= 8
    {
      var sizeY := |cells|;
      var sizeX := |cells[r]|;
      count := 0;
      if r > 0 { count := count + cells[r - 1][c]; }
      if r < sizeX - 1 { count := count + cells[r + 1][c]; }
      if c > 0 { count := count + cells[r][c - 1]; }
      if c < sizeY - 1 { count := count + cells[r][c + 1]; }
      if r > 0 && c > 0 { count := count + cells[r - 1][c - 1]; }
      if r < sizeX - 1 && c < sizeY - 1 { count := count + cells[r + 1][c + 1]; }
      if r > 0 && c < sizeY - 1 { count := count + cells[r - 1][c + 1]; }
      if r < sizeX - 1 && c > 0 { count := count + cells[r + 1][c - 1]; }
      MooreRange(cells, r, c);
    }

    /** The first pass of `iterate`: the next state of every cell, read from
        the current grid, in the row-major order of `cells.flat()`. */
    method NextStates() returns (states: seq<int>)
      requires Valid()
      ensures states == Flatten(Step(cells))
    {
      ghost var g := cells;
      ghost var next := Step(g);
      states := [];
      var row := 0;
      while row < |cells|
        invariant 0 <= row <= |cells| && cells == g
        invariant states == Flatten(next[..row])
      {
        var col := 0;
        while col < |cells[row]|
          invariant cells == g && 0 <= col <= |cells[row]|
          invariant states == Flatten(next[..row]) + next[row][..col]
        {
          ghost var before := states;
          var neighbors := Neighbors(row, col);
          if cells[row][col] == ALIVE {
            if neighbors < 2 {
              states := states + [DEAD];
            } else if neighbors < 4 {
              states := states + [ALIVE];
            } else {
              states := states + [DEAD];
            }
          } else {
            if neighbors == 3 {
              states := states + [ALIVE];
            } else {
              states := states + [DEAD];
            }
          }
          assert states == before + [next[row][col]];
          PrefixSnoc(Flatten(next[..row]), next[row], col);
          col := col + 1;
        }
        assert next[row][..col] == next[row];
        assert next[..row + 1] == next[..row] + [next[row]];
        FlattenSnoc(next[..row], next[row]);
        row := row + 1;
      }
      assert next[..row] == next;
    }

    /** `iterate`: first every next state into the flat list `states`, read
        from the grid before the step, then the list written back in the same
        row-major order. */
    method Iterate()
      requires Valid()
      modifies this`cells
      ensures Valid()
      ensures cells == Step(old(cells))
    {
      var states := NextStates();
      WriteBack(states, Step(cells));
    }

    /** The second pass of `iterate`: `setState(states[i++])` over `cells.flat()`. */
    method WriteBack(states: seq<int>, ghost next: Grid)
      requires Valid() && Rectangular(next, rows, cols) && Binary(next)
      requires states == Flatten(next)
      modifies this`cells
      ensures Valid()
      ensures cells == next
    {
      ghost var g := cells;
      var row := 0;
      var i := 0;
      while row < |cells|
        invariant 0 <= row <= |cells| && Rectangular(cells, rows, cols)
        invariant i == |Flatten(next[..row])|
        invariant forall y, x :: 0 <= y < rows && 0 <= x < cols ==>
                    cells[y][x] == if y < row then next[y][x] else g[y][x]
      {
        var col := 0;
        while col < |cells[row]|
          invariant Rectangular(cells, rows, cols) && 0 <= col <= cols
          invariant i == |Flatten(next[..row])| + col
          invariant forall y, x :: 0 <= y < rows && 0 <= x < cols ==>
                      cells[y][x] == if y < row || (y == row && x < col) then next[y][x] else g[y][x]
        {
          FlattenIndex(next, row, col);
          cells := cells[row := cells[row][col := CellState(states[i])]];
          i := i + 1;
          col := col + 1;
        }
        assert next[..row + 1] == next[..row] + [next[row]];
        FlattenSnoc(next[..row], next[row]);
        row := row + 1;
      }
      SameCells(cells, next);
    }

    /** `set`: copy every state into a fresh `originalStates`, row by row. */
    method Set()
      requires Rectangular(cells, rows, cols)
      modifies this`originalStates
      ensures originalStates == cells
    {
      originalStates := [];
      var row := 0;
      while row < |cells|
        invariant 0 <= row <= |cells|
        invariant originalStates == cells[..row]
      {
        originalStates := originalStates + [[]];
        var col := 0;
        while col < |cells[row]|
          invariant 0 <= col <= |cells[row]|
          invariant |originalStates| == row + 1 && originalStates[..row] == cells[..row]
          invariant originalStates[row] == cells[row][..col]
        {
          originalStates := originalStates[row := originalStates[row] + [cells[row][col]]];
          col := col + 1;
        }
        assert cells[row][..col] == cells[row];
        assert cells[..row + 1] == cells[..row] + [cells[row]];
        row := row + 1;
      }
      assert cells[..row] == cells;
    }

    /** `reset`: with a snapshot, every cell goes back to its saved state;
        without one, nothing changes. */
    method Reset()
      requires Valid()
      modifies this`cells
      ensures Valid() && originalStates == old(originalStates)
      ensures |originalStates| > 0 ==> cells == originalStates
      ensures |originalStates| == 0 ==> cells == old(cells)
    {
      if |originalStates| > 0 {
        var row := 0;
        while row < |cells|
          invariant 0 <= row <= |cells| && Rectangular(cells, rows, cols)
          invariant forall y, x :: 0 <= y < rows && 0 <= x < cols ==>
                      cells[y][x] == if y < row then originalStates[y][x] else old(cells)[y][x]
        {
          var col := 0;
          while col < |cells[row]|
            invariant Rectangular(cells, rows, cols) && 0 <= col <= cols
            invariant forall y, x :: 0 <= y < rows && 0 <= x < cols ==>
                        cells[y][x] == if y < row || (y == row && x < col) then originalStates[y][x] else old(cells)[y][x]
          {
            cells := cells[row := cells[row][col := CellState(originalStates[row][col])]];
            col := col + 1;
          }
          row := row + 1;
        }
        SameCells(cells, originalStates);
      }
    }

    /** `randomize`: kill every cell, revive the sampled ones, then `set`. */
    method Randomize(picks: seq<(int, int)>)
      requires Settings() && Rectangular(cells, rows, cols) && Sample(picks, rows)
      modifies this`cells, this`originalStates
      ensures Valid()
      ensures cells == Sampled(rows, picks)
      ensures AliveSet(cells) == set p | p in picks
      ensures |AliveSet(cells)| == |picks|
      ensures originalStates == cells
    {
      var row := 0;
      while row < |cells|
        modifies this`cells
        invariant 0 <= row <= |cells| && Rectangular(cells, rows, cols)
        invariant forall y, x :: 0 <= y < row && 0 <= x < cols ==> cells[y][x] == DEAD
      {
        var col := 0;
        while col < |cells[row]|
          modifies this`cells
          invariant Rectangular(cells, rows, cols) && 0 <= col <= cols
          invariant forall y, x :: 0 <= y < row && 0 <= x < cols ==> cells[y][x] == DEAD
          invariant forall x :: 0 <= x < col ==> cells[row][x] == DEAD
        {
          cells := cells[row := cells[row][col := CellState(DEAD)]];
          col := col + 1;
        }
        row := row + 1;
      }
      var k := 0;
      while k < |picks|
        modifies this`cells
        invariant 0 <= k <= |picks| && Rectangular(cells, rows, cols)
        invariant forall y, x :: 0 <= y < rows && 0 <= x < cols ==>
                    cells[y][x] == if (y, x) in picks[..k] then ALIVE else DEAD
      {
        var (r, c) := picks[k];
        cells := cells[r := cells[r][c := CellState(ALIVE)]];
        assert picks[..k + 1] == picks[..k] + [picks[k]];
        k := k + 1;
      }
      assert picks[..k] == picks;
      SameCells(cells, Sampled(rows, picks));
      SampledAlive(rows, picks);
      Set();
    }

    /** `init`: a rows x cols board of DEAD cells, then `randomize`. */
    method Init(picks: seq<(int, int)>)
      requires Settings() && Sample(picks, rows)
      modifies this`cells, this`originalStates
      ensures Valid()
      ensures AliveSet(cells) == set p | p in picks
      ensures originalStates == cells
    {
      var dead := NewGrid(rows, cols, DEAD);
      cells := dead;
      Randomize(picks);
    }

    /** `resize(size)`: below MIN_SIZE nothing happens; otherwise the board is
        rebuilt as size x size and re-randomized, which refreshes the snapshot. */
    method Resize(size: int, picks: seq<(int, int)>)
      requires Valid() && (size >= MIN_SIZE ==> Sample(picks, size))
      modifies this`cells, this`originalStates, this`rows, this`cols
      ensures Valid()
      ensures size < MIN_SIZE ==>
                rows == old(rows) && cells == old(cells) && originalStates == old(originalStates)
      ensures size >= MIN_SIZE ==>
                rows == size && cols == size &&
                AliveSet(cells) == (set p | p in picks) && originalStates == cells
    {
      if size >= MIN_SIZE {
        cells := [];
        rows := size;
        cols := size;
        Init(picks);
      }
    }

    /** The load step of `read`, given the parsed array: resize when the shape
        differs, copy every entry through `setState`, then `set`. */
    method Load(data: Grid, picks: seq<(int, int)>)
      requires Valid() && Loadable(data)
      requires |data| != rows ==> Sample(picks, |data|)
      modifies this`cells, this`originalStates, this`rows, this`cols
      ensures Valid() && rows == |data| && cols == |data|
      ensures cells == Loaded(data)
      ensures originalStates == cells
    {
      if |data| != |cells| || (|data| > 0 && |data[0]| != |cells[0]|) {
        Resize(|data|, picks);
      }
      var row := 0;
      while row < rows
        modifies this`cells
        invariant 0 <= row <= rows && rows == cols == |data| && Rectangular(cells, rows, cols)
        invariant forall y, x :: 0 <= y < row && 0 <= x < cols ==> cells[y][x] == CellState(data[y][x])
      {
        var col := 0;
        while col < cols
          modifies this`cells
          invariant 0 <= col <= cols && rows == cols == |data| && Rectangular(cells, rows, cols)
          invariant forall y, x :: 0 <= y < row && 0 <= x < cols ==> cells[y][x] == CellState(data[y][x])
          invariant forall x :: 0 <= x < col ==> cells[row][x] == CellState(data[row][x])
        {
          cells := cells[row := cells[row][col := CellState(data[row][col])]];
          col := col + 1;
        }
        row := row + 1;
      }
      SameCells(cells, Loaded(data));
      LoadedBinary(data);
      Set();
    }

    /** The array `download` saves: the states row by row. The file name's
        counter `downloadIndex` goes up by one. */
    method Download() returns (boardData: Grid)
      requires Valid()
      modifies this`downloadIndex
      ensures Valid()
      ensures boardData == cells
      ensures downloadIndex == old(downloadIndex) + 1
    {
      boardData := [];
      var row := 0;
      while row < |cells|
        invariant 0 <= row <= |cells|
        invariant boardData == cells[..row]
      {
        boardData := boardData + [[]];
        var col := 0;
        while col < |cells[row]|
          invariant 0 <= col <= |cells[row]|
          invariant |boardData| == row + 1 && boardData[..row] == cells[..row]
          invariant boardData[row] == cells[row][..col]
        {
          boardData := boardData[row := boardData[row] + [cells[row][col]]];
          col := col + 1;
        }
        assert cells[row][..col] == cells[row];
        assert cells[..row + 1] == cells[..row] + [cells[row]];
        row := row + 1;
      }
      assert cells[..row] == cells;
      downloadIndex := downloadIndex + 1;
    }

    /** The ">>" button: five frames fewer between generations, down to 10. */
    method Faster()
      requires Valid()
      modifies this`updateRate
      ensures Valid()
      ensures old(updateRate) > 10 ==> updateRate == old(updateRate) - 5
      ensures old(updateRate) == 10 ==> updateRate == 10
    {
      if updateRate > 10 {
        updateRate := updateRate - 5;
      }
    }

    /** The "<<" button: five frames more between generations, up to 60. */
    method Slower()
      requires Valid()
      modifies this`updateRate
      ensures Valid()
      ensures old(updateRate) < 60 ==> updateRate == old(updateRate) + 5
      ensures old(updateRate) == 60 ==> updateRate == 60
    {
      if updateRate < 60 {
        updateRate := updateRate + 5;
      }
    }

    /** `update`: one generation on the frames whose tick count is a multiple of `updateRate`. */
    method Update(ticks: nat)
      requires Valid()
      modifies this`cells
      ensures Valid()
      ensures ticks % updateRate == 0 ==> cells == Step(old(cells))
      ensures ticks % updateRate != 0 ==> cells == old(cells)
    {
      if JsRem(ticks, updateRate) == 0 {
        Iterate();
      }
    }
  }
}
