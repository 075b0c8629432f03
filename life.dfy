/**
 * The generation rule of the Game of Life engine (conway.js): cells of a
 * rows × cols grid hold integers (0 dead, 1 alive), neighbour counts range
 * over the bounded Moore neighbourhood (no wraparound), and the next
 * generation follows rule B3/S23 evaluated from a single snapshot.
 */
module Life {

  /** Row-major grid; `g[i][j]` is the cell in row i, column j. */
  type Grid = seq<seq<int>>

  /** The grid has exactly `rows` rows of exactly `cols` cells. */
  predicate IsGrid(g: Grid, rows: nat, cols: nat) {
    |g| == rows && forall i :: 0 <= i < |g| ==> |g[i]| == cols
  }

  predicate InBounds(g: Grid, r: int, c: int) {
    0 <= r < |g| && 0 <= c < |g[r]|
  }

  /** Every cell is 0 or 1. */
  predicate Binary(g: Grid) {
    forall i, j :: 0 <= i < |g| && 0 <= j < |g[i]| ==> g[i][j] == 0 || g[i][j] == 1
  }

  predicate AllDead(g: Grid) {
    forall i, j :: 0 <= i < |g| && 0 <= j < |g[i]| ==> g[i][j] == 0
  }

  /** The value a neighbour at (r, c) adds to a count. As in the source the
      position must lie inside the `rows` × `cols` window; a cell the array
      lacks (never, once the rows are at least `cols` long) adds 0 as well. */
  function At(g: Grid, rows: nat, cols: nat, r: int, c: int): int {
    if 0 <= r < rows && 0 <= c < cols && r < |g| && c < |g[r]| then g[r][c] else 0
  }

  /** What offset (dx, dy) adds to the count of (i, j); the cell itself is skipped. */
  function Contribution(g: Grid, rows: nat, cols: nat, i: int, j: int, dx: int, dy: int): int {
    if dx == 0 && dy == 0 then 0 else At(g, rows, cols, i + dx, j + dy)
  }

  /** Sum of the contributions of offsets (dx, -1), ..., (dx, n - 2): the first n
      iterations of the inner neighbour loop. */
  function RowSum(g: Grid, rows: nat, cols: nat, i: int, j: int, dx: int, n: nat): int {
    if n == 0 then 0 else RowSum(g, rows, cols, i, j, dx, n - 1) + Contribution(g, rows, cols, i, j, dx, n - 2)
  }

  /** Sum over the first m rows of offsets dx = -1, ..., m - 2, each with all three dy. */
  function WindowSum(g: Grid, rows: nat, cols: nat, i: int, j: int, m: nat): int {
    if m == 0 then 0 else WindowSum(g, rows, cols, i, j, m - 1) + RowSum(g, rows, cols, i, j, m - 2, 3)
  }

  /** The three contributions of row offset dx, as the inner loop adds them. */
  lemma RowSumUnrolled(g: Grid, rows: nat, cols: nat, i: int, j: int, dx: int)
    ensures RowSum(g, rows, cols, i, j, dx, 3) ==
      Contribution(g, rows, cols, i, j, dx, -1) + Contribution(g, rows, cols, i, j, dx, 0) + Contribution(g, rows, cols, i, j, dx, 1)
  {
    assert RowSum(g, rows, cols, i, j, dx, 1) == Contribution(g, rows, cols, i, j, dx, -1);
  }

  /** The neighbour count the two nested offset loops accumulate, with the
      source's bounds test against the global `rows` and `cols`: the sum over
      the eight Moore neighbours, each position outside the window counted as
      0. On a 0/1 grid it lies between 0 and 8. */
  function NeighborCount(g: Grid, rows: nat, cols: nat, i: int, j: int): (n: int)
    ensures n ==
      At(g, rows, cols, i - 1, j - 1) + At(g, rows, cols, i - 1, j) + At(g, rows, cols, i - 1, j + 1) +
      At(g, rows, cols, i, j - 1) + At(g, rows, cols, i, j + 1) +
      At(g, rows, cols, i + 1, j - 1) + At(g, rows, cols, i + 1, j) + At(g, rows, cols, i + 1, j + 1)
    ensures Binary(g) ==> 0 <= n <= 8
  {
    RowSumUnrolled(g, rows, cols, i, j, -1);
    RowSumUnrolled(g, rows, cols, i, j, 0);
    RowSumUnrolled(g, rows, cols, i, j, 1);
    assert WindowSum(g, rows, cols, i, j, 1) == RowSum(g, rows, cols, i, j, -1, 3);
    assert WindowSum(g, rows, cols, i, j, 2) == WindowSum(g, rows, cols, i, j, 1) + RowSum(g, rows, cols, i, j, 0, 3);
    WindowSum(g, rows, cols, i, j, 3)
  }

  /** Next state of one cell holding `cell` with `n` neighbours, with the
      source's truthiness tests (`cell` is live when it is non-zero). On a 0/1
      cell it is rule B3/S23; any other value either dies or is kept. */
  function NextCell(cell: int, n: int): (next: int)
    ensures cell != 0 && cell != 1 ==> next == 0 || next == cell
    ensures cell == 0 || cell == 1 ==>
      next == (if (cell == 1 && (n == 2 || n == 3)) || (cell == 0 && n == 3) then 1 else 0)
  {
    if cell != 0 && (n < 2 || n > 3) then 0
    else if cell == 0 && n == 3 then 1
    else cell
  }

  /** The next generation, built like `nextGrid` as a fresh `rows` × `cols`
      grid, every cell computed from the same snapshot `g`. Whatever the rows
      of `g` hold beyond column `cols` is never read. */
  function Next(g: Grid, rows: nat, cols: nat): (h: Grid)
    ensures IsGrid(h, rows, cols)
    ensures Binary(g) ==> Binary(h)
  {
    seq(rows, i requires 0 <= i < rows =>
      seq(cols, j requires 0 <= j < cols => NextCell(At(g, rows, cols, i, j), NeighborCount(g, rows, cols, i, j))))
  }

  /** `n` generations. */
  function Iterate(g: Grid, rows: nat, cols: nat, n: nat): Grid
    decreases n
  {
    if n == 0 then g else Iterate(Next(g, rows, cols), rows, cols, n - 1)
  }

  /** The `rows` × `cols` window of g: what the step can see of it. */
  function Clip(g: Grid, rows: nat, cols: nat): (h: Grid)
    ensures IsGrid(h, rows, cols)
    ensures forall i, j :: 0 <= i < rows && 0 <= j < cols && i < |g| && j < |g[i]| ==> h[i][j] == g[i][j]
  {
    seq(rows, i requires 0 <= i < rows => seq(cols, j requires 0 <= j < cols => At(g, rows, cols, i, j)))
  }

  /** The count reads only cells of the Moore neighbourhood inside the window,
      other than the cell itself: two grids that agree there give the same
      count, whatever they hold elsewhere (in particular at the opposite edge,
      so nothing wraps around). */
  lemma NeighborCountIsLocal(g: Grid, h: Grid, rows: nat, cols: nat, i: int, j: int)
    requires IsGrid(g, rows, cols) && IsGrid(h, rows, cols)
    requires forall r, c ::
      0 <= r < rows && 0 <= c < cols && i - 1 <= r <= i + 1 && j - 1 <= c <= j + 1 && !(r == i && c == j)
      ==> g[r][c] == h[r][c]
    ensures NeighborCount(g, rows, cols, i, j) == NeighborCount(h, rows, cols, i, j)
  {
  }

  /** The step sees a grid only through its `rows` × `cols` window: the cells
      beyond column `cols` of a widened row change nothing. */
  lemma NextSeesOnlyWindow(g: Grid, rows: nat, cols: nat)
    ensures Next(g, rows, cols) == Next(Clip(g, rows, cols), rows, cols)
  {
    var w := Clip(g, rows, cols);
    forall r, c | 0 <= r < rows && 0 <= c < cols
      ensures At(w, rows, cols, r, c) == At(g, rows, cols, r, c)
    {
    }
    forall i, j | 0 <= i < rows && 0 <= j < cols
      ensures Next(g, rows, cols)[i][j] == Next(w, rows, cols)[i][j]
    {
      assert NeighborCount(g, rows, cols, i, j) == NeighborCount(w, rows, cols, i, j);
    }
    GridsEqual(Next(g, rows, cols), Next(w, rows, cols), rows, cols);
  }

  /** The three cases of the rule, as the step applies them to each cell. */
  lemma NextRule(g: Grid, rows: nat, cols: nat, i: int, j: int)
    requires IsGrid(g, rows, cols) && 0 <= i < rows && 0 <= j < cols
    ensures var n := NeighborCount(g, rows, cols, i, j);
      && (g[i][j] != 0 && (n < 2 || n > 3) ==> Next(g, rows, cols)[i][j] == 0)
      && (g[i][j] == 0 && n == 3 ==> Next(g, rows, cols)[i][j] == 1)
      && (!(g[i][j] != 0 && (n < 2 || n > 3)) && !(g[i][j] == 0 && n == 3) ==> Next(g, rows, cols)[i][j] == g[i][j])
  {
  }

  /** On a 0/1 grid the step is rule B3/S23: a cell is alive next exactly when it
      is alive with 2 or 3 neighbours, or dead with exactly 3. */
  lemma NextIsB3S23(g: Grid, rows: nat, cols: nat, i: int, j: int)
    requires IsGrid(g, rows, cols) && Binary(g) && 0 <= i < rows && 0 <= j < cols
    ensures var n := NeighborCount(g, rows, cols, i, j);
      Next(g, rows, cols)[i][j] == (if (g[i][j] == 1 && (n == 2 || n == 3)) || (g[i][j] == 0 && n == 3) then 1 else 0)
  {
  }

  /** A lone live cell in the corner (0, 0) has no neighbours, whatever the size of
      the grid, and the whole grid is dead one generation later. */
  lemma LoneCornerCellDies(g: Grid, rows: nat, cols: nat)
    requires IsGrid(g, rows, cols) && rows > 0 && cols > 0
    requires g[0][0] == 1
    requires forall i, j :: 0 <= i < rows && 0 <= j < cols && !(i == 0 && j == 0) ==> g[i][j] == 0
    ensures NeighborCount(g, rows, cols, 0, 0) == 0
    ensures Next(g, rows, cols)[0][0] == 0
    ensures AllDead(Next(g, rows, cols))
  {
    forall i, j | 0 <= i < rows && 0 <= j < cols
      ensures Next(g, rows, cols)[i][j] == 0
    {
      assert NeighborCount(g, rows, cols, i, j) <= 1;
    }
  }

  /** Two rows × cols grids are equal when they agree cell by cell. */
  lemma GridsEqual(g: Grid, h: Grid, rows: nat, cols: nat)
    requires IsGrid(g, rows, cols) && IsGrid(h, rows, cols)
    requires forall i, j :: 0 <= i < rows && 0 <= j < cols ==> g[i][j] == h[i][j]
    ensures g == h
  {
    forall i | 0 <= i < rows ensures g[i] == h[i] {
    }
  }
}
