/** Vocabulary shared by both boards: a grid of small integer cell states,
    indexed first by row, then by column, as `cells[row][col]`. */
module Grids {

  datatype Option<T> = None | Some(value: T)

  type Grid = seq<seq<int>>

  /** JavaScript's `%` on integers: the remainder takes the sign of the
      dividend, whereas Dafny's `%` is Euclidean. */
  function JsRem(a: int, n: int): (r: int)
    requires n > 0
    ensures a >= 0 ==> r == a % n && 0 <= r < n
    ensures a < 0 ==> -n < r <= 0 && r == -((-a) % n)
  {
    if a >= 0 then a % n else -((-a) % n)
  }

  /** `g` has `rows` rows of `cols` cells each. */
  predicate Rectangular<T>(g: seq<seq<T>>, rows: int, cols: int)
  {
    |g| == rows && forall r :: 0 <= r < |g| ==> |g[r]| == cols
  }

  /** The bounds test of `getCell`: a row of the grid, and a column of that row. */
  predicate InBounds<T>(g: seq<seq<T>>, col: int, row: int)
  {
    0 <= row < |g| && 0 <= col < |g[row]|
  }

  /** A `rows` x `cols` grid whose every cell holds `v`. */
  function Filled<T>(rows: nat, cols: nat, v: T): (g: seq<seq<T>>)
    ensures Rectangular(g, rows, cols)
    ensures forall r, c :: 0 <= r < rows && 0 <= c < cols ==> g[r][c] == v
  {
    seq(rows, _ => seq(cols, _ => v))
  }

  /** The nested `push` loops of the boards' `init`: a fresh grid, row by row. */
  method NewGrid<T>(rows: nat, cols: nat, v: T) returns (g: seq<seq<T>>)
    ensures g == Filled(rows, cols, v)
  {
    g := [];
    var row := 0;
    while row < rows
      invariant 0 <= row <= rows
      invariant Rectangular(g, row, cols)
      invariant forall r, c :: 0 <= r < row && 0 <= c < cols ==> g[r][c] == v
    {
      var line := [];
      var col := 0;
      while col < cols
        invariant 0 <= col <= cols
        invariant |line| == col
        invariant forall c :: 0 <= c < col ==> line[c] == v
      {
        line := line + [v];
        col := col + 1;
      }
      g := g + [line];
      row := row + 1;
    }
    SameCells(g, Filled(rows, cols, v));
  }

  /** Two grids of the same shape that agree on every cell are equal. */
  lemma SameCells<T>(a: seq<seq<T>>, b: seq<seq<T>>)
    requires |a| == |b|
    requires forall r :: 0 <= r < |a| ==> |a[r]| == |b[r]|
    requires forall r, c :: 0 <= r < |a| && 0 <= c < |a[r]| ==> a[r][c] == b[r][c]
    ensures a == b
  {
    forall r | 0 <= r < |a|
      ensures a[r] == b[r]
    {
      assert forall c :: 0 <= c < |a[r]| ==> a[r][c] == b[r][c];
    }
  }
}
