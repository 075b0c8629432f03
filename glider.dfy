/**
 * The glider stamp of the canvas click handler (conway.js, lines 119-126),
 * twice: as written, with JavaScript's semantics for `grid[r][c] = v` on an
 * array of arrays, and with a guard that keeps every write inside the grid.
 */
module Glider {
  import opened Life

  /** How a run of the handler ends, with the grid as it then is. The grid is
      updated in place, so writes made before a throw persist. */
  datatype Run = Completed(grid: Grid) | Threw(grid: Grid)

  /** `grid[r][c] = v` in JavaScript: a row index outside the array reads
      `undefined` and assigning into it throws a TypeError; a column index
      equal to the row's length appends to that row. */
  function JsWrite(run: Run, r: int, c: int, v: int): (out: Run)
    requires run.Completed? && 0 <= r < |run.grid| ==> 0 <= c <= |run.grid[r]|
    ensures run.Threw? ==> out == run
    ensures run.Completed? && !(0 <= r < |run.grid|) ==> out == Threw(run.grid)
    ensures run.Completed? && 0 <= r < |run.grid| ==>
      && out.Completed? && |out.grid| == |run.grid|
      && |out.grid[r]| == (if c < |run.grid[r]| then |run.grid[r]| else |run.grid[r]| + 1)
      && out.grid[r][c] == v
      && (forall k :: 0 <= k < |run.grid[r]| && k != c ==> out.grid[r][k] == run.grid[r][k])
      && (forall i :: 0 <= i < |run.grid| && i != r ==> out.grid[i] == run.grid[i])
  {
    match run
    case Threw(_) => run
    case Completed(g) =>
      if !(0 <= r < |g|) then Threw(g)
      else if c < |g[r]| then Completed(g[r := g[r][c := v]])
      else Completed(g[r := g[r] + [v]])
  }

  /** The guard of line 119: a one-cell margin around the anchor. It admits
      every click the corrected guard below admits, and the clicks it admits
      beyond those are exactly the ones on the second-to-last row or column. */
  predicate GuardAsWritten(rows: int, cols: int, r: int, c: int)
    ensures Guard(rows, cols, r, c) ==> GuardAsWritten(rows, cols, r, c)
    ensures GuardAsWritten(rows, cols, r, c) && !Guard(rows, cols, r, c) <==>
      0 < r <= rows - 2 && 0 < c <= cols - 2 && (r == rows - 2 || c == cols - 2)
  {
    c > 0 && c < cols - 1 && r > 0 && r < rows - 1
  }

  /** The grid has `rows` rows, each at least `cols` cells long: the shape
      the handler can meet, since an earlier click may have widened rows. */
  predicate Covers(g: Grid, rows: nat, cols: nat) {
    |g| == rows && forall i :: 0 <= i < rows ==> |g[i]| >= cols
  }

  /** Lines 119-126 as written: the anchor is cleared and five cells set, in the
      source's order. A click the guard refuses changes nothing; one it admits
      always clears the anchor and sets its right neighbour, and then throws
      exactly when the glider's last row lies below the grid, keeping the
      writes of lines 120-122 and every other cell as it was. */
  function StampAsWritten(g: Grid, rows: nat, cols: nat, r: int, c: int): (run: Run)
    requires Covers(g, rows, cols)
    ensures |run.grid| == rows
    ensures !GuardAsWritten(rows, cols, r, c) ==> run == Completed(g)
    ensures GuardAsWritten(rows, cols, r, c) ==>
      && (run.Threw? <==> r + 2 >= rows)
      && |run.grid[r]| == |g[r]| && run.grid[r][c] == 0 && run.grid[r][c + 1] == 1
    ensures GuardAsWritten(rows, cols, r, c) && r + 2 >= rows ==>
      && (forall i :: 0 <= i < rows ==> |run.grid[i]| >= |g[i]|)
      && |run.grid[r + 1]| > c + 2 && run.grid[r + 1][c + 2] == 1
      && (forall i, j :: 0 <= i < rows && 0 <= j < |g[i]| && (i, j) != (r, c) && (i, j) != (r, c + 1) && (i, j) != (r + 1, c + 2) ==>
           run.grid[i][j] == g[i][j])
  {
    if !GuardAsWritten(rows, cols, r, c) then Completed(g)
    else
      var s1 := JsWrite(Completed(g), r, c, 0);
      var s2 := JsWrite(s1, r, c + 1, 1);
      var s3 := JsWrite(s2, r + 1, c + 2, 1);
      var s4 := JsWrite(s3, r + 2, c, 1);
      var s5 := JsWrite(s4, r + 2, c + 1, 1);
      JsWrite(s5, r + 2, c + 2, 1)
  }

  /** Clicking the second-to-last row passes the guard, and line 123 then
      indexes row `rows`, which does not exist: the handler throws after the
      writes of lines 120-122 have been made. */
  lemma AsWrittenThrowsOnSecondLastRow(g: Grid, rows: nat, cols: nat, c: int)
    requires IsGrid(g, rows, cols) && rows >= 3 && 0 < c < cols - 1
    ensures GuardAsWritten(rows, cols, rows - 2, c)
    ensures var run := StampAsWritten(g, rows, cols, rows - 2, c);
      && run.Threw? && run.grid[rows - 2][c] == 0 && run.grid[rows - 2][c + 1] == 1
      && run.grid[rows - 1][c + 2] == 1
      && (forall i, j :: 0 <= i < rows && 0 <= j < cols && (i, j) !in {(rows - 2, c), (rows - 2, c + 1), (rows - 1, c + 2)}
           ==> run.grid[i][j] == g[i][j])
  {
  }

  /** Clicking the second-to-last column passes the guard, and lines 122 and
      125 then write column `cols`: the handler completes, but two rows are
      one cell longer than the grid is wide. */
  lemma AsWrittenWidensRowsOnSecondLastColumn(g: Grid, rows: nat, cols: nat, r: int)
    requires IsGrid(g, rows, cols) && cols >= 3 && 0 < r && r + 2 < rows
    ensures GuardAsWritten(rows, cols, r, cols - 2)
    ensures var run := StampAsWritten(g, rows, cols, r, cols - 2);
      && run.Completed?
      && |run.grid[r + 1]| == cols + 1 && |run.grid[r + 2]| == cols + 1
      && !IsGrid(run.grid, rows, cols)
  {
  }

  /** ... and the next generation, built `rows` × `cols` with the bounds test
      against `cols`, never reads the two extra cells: it is the step of the
      grid in which only the glider's cells left of column `cols` were set,
      so what survives of the click is a clipped glider. */
  lemma AsWrittenStepsClippedGlider(g: Grid, rows: nat, cols: nat, r: int)
    requires IsGrid(g, rows, cols) && cols >= 3 && 0 < r && r + 2 < rows
    ensures var run := StampAsWritten(g, rows, cols, r, cols - 2);
      var w := Clip(run.grid, rows, cols);
      && (forall i, j :: 0 <= i < rows && 0 <= j < cols ==>
           w[i][j] == if (i, j) == (r, cols - 2) then 0 else if (i, j) in GliderCells(r, cols - 2) then 1 else g[i][j])
      && Next(run.grid, rows, cols) == Next(w, rows, cols)
  {
    var run := StampAsWritten(g, rows, cols, r, cols - 2);
    NextSeesOnlyWindow(run.grid, rows, cols);
  }

  /** The guard that leaves room for the glider's two extra rows and columns. */
  predicate Guard(rows: int, cols: int, r: int, c: int) {
    c > 0 && c + 2 < cols && r > 0 && r + 2 < rows
  }

  /** The five cells the glider sets, relative to the anchor (r, c). */
  function GliderCells(r: int, c: int): set<(int, int)> {
    {(r, c + 1), (r + 1, c + 2), (r + 2, c), (r + 2, c + 1), (r + 2, c + 2)}
  }

  /** `g` with cell (r, c) set to v. */
  function SetCell(g: Grid, r: int, c: int, v: int): Grid
    requires InBounds(g, r, c)
  {
    g[r := g[r][c := v]]
  }

  /** The stamp under the corrected guard: outside it nothing changes; inside
      it the anchor becomes 0, the five glider cells become 1 and every other
      cell keeps its value. */
  function Stamp(g: Grid, rows: nat, cols: nat, r: int, c: int): (h: Grid)
    requires IsGrid(g, rows, cols)
    ensures IsGrid(h, rows, cols)
    ensures !Guard(rows, cols, r, c) ==> h == g
    ensures Guard(rows, cols, r, c) ==> h[r][c] == 0
    ensures Guard(rows, cols, r, c) ==>
      forall i, j :: 0 <= i < rows && 0 <= j < cols && (i, j) != (r, c) ==>
        h[i][j] == (if (i, j) in GliderCells(r, c) then 1 else g[i][j])
  {
    if !Guard(rows, cols, r, c) then g
    else
      var g1 := SetCell(g, r, c, 0);
      var g2 := SetCell(g1, r, c + 1, 1);
      var g3 := SetCell(g2, r + 1, c + 2, 1);
      var g4 := SetCell(g3, r + 2, c, 1);
      var g5 := SetCell(g4, r + 2, c + 1, 1);
      SetCell(g5, r + 2, c + 2, 1)
  }

  /** Where the source's stamp stays in the grid, it is the corrected stamp;
      it leaves the grid whole exactly when the click is not one that the
      guard as written admits and the corrected guard refuses. */
  lemma StampAgreesWithSourceWhereSafe(g: Grid, rows: nat, cols: nat, r: int, c: int)
    requires IsGrid(g, rows, cols)
    ensures Guard(rows, cols, r, c) || !GuardAsWritten(rows, cols, r, c) ==>
      StampAsWritten(g, rows, cols, r, c) == Completed(Stamp(g, rows, cols, r, c))
    ensures (StampAsWritten(g, rows, cols, r, c).Completed? && IsGrid(StampAsWritten(g, rows, cols, r, c).grid, rows, cols))
      <==> !(GuardAsWritten(rows, cols, r, c) && !Guard(rows, cols, r, c))
  {
  }

  /** Stamping keeps a 0/1 grid 0/1. */
  lemma StampKeepsBinary(g: Grid, rows: nat, cols: nat, r: int, c: int)
    requires IsGrid(g, rows, cols) && Binary(g)
    ensures Binary(Stamp(g, rows, cols, r, c))
  {
  }
}
