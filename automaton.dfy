/**
 * The Game of Life engine of conway.js as an object: the module-level
 * `rows`, `cols` and `grid` become fields of an Automaton, and each of the
 * source's grid operations becomes a method proved against module Life.
 */
module Conway {
  import opened Life
  import Glider

  /** Default probability of a live cell in `seedRandom`. */
  const DefaultPercentage: real := 0.2

  /** Row and column of the anchor of the cells `seedLWSS` sets. */
  const LwssStartX: int := 10
  const LwssStartY: int := 10

  /** The eight cells `seedLWSS` sets, as (row, column) pairs. */
  function LwssCells(): set<(int, int)> {
    var x, y := LwssStartX, LwssStartY;
    {(x, y + 1), (x + 1, y + 2), (x + 2, y + 2), (x + 3, y + 2),
     (x + 4, y + 1), (x + 4, y), (x + 3, y - 2), (x + 4, y - 1)}
  }

  /** The random numbers `seedRandom` draws, one per cell: `draws[i][j]` is the
      value `Math.random()` returned when the loops visited (i, j). */
  predicate DrawsFit(draws: seq<seq<real>>, rows: nat, cols: nat) {
    |draws| == rows && forall i :: 0 <= i < rows ==> |draws[i]| == cols
  }

  /** The grid after `seedRandom`: a cell whose draw is below `percentage`
      is set to 1, every other cell is left as it was. The shape is kept and
      a cell is only ever set to 1, never cleared. */
  function Seeded(g: Grid, draws: seq<seq<real>>, percentage: real): (s: Grid)
    requires |draws| == |g| && forall i :: 0 <= i < |g| ==> |draws[i]| == |g[i]|
    ensures |s| == |g| && forall i :: 0 <= i < |g| ==> |s[i]| == |g[i]|
    ensures forall i, j :: 0 <= i < |g| && 0 <= j < |g[i]| ==> s[i][j] == g[i][j] || s[i][j] == 1
    ensures forall i, j :: 0 <= i < |g| && 0 <= j < |g[i]| ==>
      s[i][j] == (if draws[i][j] < percentage then 1 else g[i][j])
  {
    seq(|g|, i requires 0 <= i < |g| =>
      seq(|g[i]|, j requires 0 <= j < |g[i]| => if draws[i][j] < percentage then 1 else g[i][j]))
  }

  /** Seeding only ever sets cells to 1: it keeps the shape, never clears a
      live cell, keeps a 0/1 grid 0/1, and on a dead grid the live cells are
      exactly those whose draw fell below the percentage. */
  lemma SeedOnlySets(g: Grid, rows: nat, cols: nat, draws: seq<seq<real>>, percentage: real)
    requires IsGrid(g, rows, cols) && DrawsFit(draws, rows, cols)
    ensures var s := Seeded(g, draws, percentage);
      && IsGrid(s, rows, cols)
      && (forall i, j :: 0 <= i < rows && 0 <= j < cols ==> s[i][j] == g[i][j] || s[i][j] == 1)
      && (forall i, j :: 0 <= i < rows && 0 <= j < cols && g[i][j] != 0 ==> s[i][j] != 0)
      && (Binary(g) ==> Binary(s))
      && (AllDead(g) ==> forall i, j :: 0 <= i < rows && 0 <= j < cols ==> (s[i][j] == 1 <==> draws[i][j] < percentage))
  {
  }

  class Automaton {
    var rows: nat
    var cols: nat
    var grid: Grid

    /** The grid is fully allocated, `rows` rows of `cols` cells, each 0 or 1. */
    ghost predicate Valid()
      reads this
    {
      IsGrid(grid, rows, cols) && Binary(grid)
    }

    /** The first `resizeCanvas`: take the dimensions, allocate and seed. */
    constructor (rows0: nat, cols0: nat, draws: seq<seq<real>>)
      requires DrawsFit(draws, rows0, cols0)
      ensures Valid() && rows == rows0 && cols == cols0
      ensures forall i, j :: 0 <= i < rows && 0 <= j < cols ==>
        grid[i][j] == (if draws[i][j] < DefaultPercentage then 1 else 0)
    {
      rows, cols, grid := rows0, cols0, [];
      new;
      Resize(rows0, cols0, draws);
    }

    /** `resizeCanvas` with the geometry already turned into dimensions: every
        earlier cell is discarded and the new grid is a random seeding of a
        dead one. */
    method Resize(rows0: nat, cols0: nat, draws: seq<seq<real>>)
      requires DrawsFit(draws, rows0, cols0)
      modifies this
      ensures Valid() && rows == rows0 && cols == cols0
      ensures forall i, j :: 0 <= i < rows && 0 <= j < cols ==>
        grid[i][j] == (if draws[i][j] < DefaultPercentage then 1 else 0)
    {
      rows := rows0;
      cols := cols0;
      grid := ResetGrid();
      SeedRandom(draws, DefaultPercentage);
    }

    /** `resetGrid`: a fresh rows × cols grid of dead cells. */
    method ResetGrid() returns (arr: Grid)
      ensures IsGrid(arr, rows, cols) && AllDead(arr)
    {
      arr := [];
      for i := 0 to rows
        invariant IsGrid(arr, i, cols) && AllDead(arr)
      {
        var row: seq<int> := [];
        for j := 0 to cols
          invariant |row| == j && forall k :: 0 <= k < j ==> row[k] == 0
        {
          row := row + [0];
        }
        arr := arr + [row];
      }
    }

    /** `seedRandom`: visit every cell in row-major order and set it to 1 when
        its draw is below `percentage`. */
    method SeedRandom(draws: seq<seq<real>>, percentage: real)
      requires Valid() && DrawsFit(draws, rows, cols)
      modifies this
      ensures Valid() && rows == old(rows) && cols == old(cols)
      ensures grid == Seeded(old(grid), draws, percentage)
    {
      ghost var g0 := grid;
      SeedOnlySets(g0, rows, cols, draws, percentage);
      for i := 0 to rows
        invariant rows == old(rows) && cols == old(cols)
        invariant IsGrid(grid, rows, cols)
        invariant forall i', j' :: 0 <= i' < rows && 0 <= j' < cols ==>
          grid[i'][j'] == if i' < i then Seeded(g0, draws, percentage)[i'][j'] else g0[i'][j']
      {
        for j := 0 to cols
          invariant rows == old(rows) && cols == old(cols)
          invariant IsGrid(grid, rows, cols)
          invariant forall i', j' :: 0 <= i' < rows && 0 <= j' < cols ==>
            grid[i'][j'] == if i' < i || (i' == i && j' < j) then Seeded(g0, draws, percentage)[i'][j'] else g0[i'][j']
        {
          if draws[i][j] < percentage {
            grid := grid[i := grid[i][j := 1]];
          }
        }
      }
      GridsEqual(grid, Seeded(g0, draws, percentage), rows, cols);
    }

    /** `seedLWSS`: set the eight cells it lists around the anchor at
        (10, 10); every other cell keeps its value. */
    method SeedLwss()
      requires Valid() && rows >= LwssStartX + 5 && cols >= LwssStartY + 3
      modifies this
      ensures Valid() && rows == old(rows) && cols == old(cols)
      ensures forall i, j :: 0 <= i < rows && 0 <= j < cols ==>
        grid[i][j] == if (i, j) in LwssCells() then 1 else old(grid)[i][j]
    {
      var startX, startY := LwssStartX, LwssStartY;
      grid := grid[startX := grid[startX][startY + 1 := 1]];
      grid := grid[startX + 1 := grid[startX + 1][startY + 2 := 1]];
      grid := grid[startX + 2 := grid[startX + 2][startY + 2 := 1]];
      grid := grid[startX + 3 := grid[startX + 3][startY + 2 := 1]];
      grid := grid[startX + 4 := grid[startX + 4][startY + 1 := 1]];
      grid := grid[startX + 4 := grid[startX + 4][startY := 1]];
      grid := grid[startX + 3 := grid[startX + 3][startY - 2 := 1]];
      grid := grid[startX + 4 := grid[startX + 4][startY - 1 := 1]];
    }

    /** The neighbour loops of `updateGrid`: add up the in-bounds cells of the
        Moore neighbourhood of (i, j), skipping the cell itself. */
    method CountNeighbors(i: int, j: int) returns (neighborCount: int)
      requires Valid() && 0 <= i < rows && 0 <= j < cols
      ensures neighborCount == NeighborCount(grid, rows, cols, i, j)
    {
      neighborCount := 0;
      for x := -1 to 2
        invariant neighborCount == WindowSum(grid, rows, cols, i, j, x + 1)
      {
        for y := -1 to 2
          invariant neighborCount == WindowSum(grid, rows, cols, i, j, x + 1) + RowSum(grid, rows, cols, i, j, x, y + 1)
        {
          if x == 0 && y == 0 {
            continue;
          }
          var newX, newY := i + x, j + y;
          if newX >= 0 && newY >= 0 && newX < rows && newY < cols {
            neighborCount := neighborCount + grid[newX][newY];
          }
        }
      }
    }

    /** `updateGrid`: compute every cell of the next generation into a fresh
        buffer, reading only the current grid, and publish the buffer after
        the full pass. */
    method UpdateGrid()
      requires Valid()
      modifies this
      ensures Valid() && rows == old(rows) && cols == old(cols)
      ensures grid == Next(old(grid), rows, cols)
    {
      var nextGrid := ResetGrid();
      for i := 0 to rows
        invariant rows == old(rows) && cols == old(cols) && grid == old(grid)
        invariant IsGrid(nextGrid, rows, cols)
        invariant forall i', j' :: 0 <= i' < i && 0 <= j' < cols ==> nextGrid[i'][j'] == Next(grid, rows, cols)[i'][j']
      {
        for j := 0 to cols
          invariant rows == old(rows) && cols == old(cols) && grid == old(grid)
          invariant IsGrid(nextGrid, rows, cols)
          invariant forall i', j' :: 0 <= i' < i && 0 <= j' < cols ==> nextGrid[i'][j'] == Next(grid, rows, cols)[i'][j']
          invariant forall j' :: 0 <= j' < j ==> nextGrid[i][j'] == Next(grid, rows, cols)[i][j']
        {
          var cell := grid[i][j];
          var neighborCount := CountNeighbors(i, j);
          var v: int;
          if cell != 0 && (neighborCount < 2 || neighborCount > 3) {
            v := 0;
          } else if cell == 0 && neighborCount == 3 {
            v := 1;
          } else {
            v := cell;
          }
          nextGrid := nextGrid[i := nextGrid[i][j := v]];
        }
      }
      GridsEqual(nextGrid, Next(grid, rows, cols), rows, cols);
      grid := nextGrid;
    }

    /** The click handler, with the clicked cell already computed: stamp a
        glider anchored at (clickedRow, clickedCol) under the corrected guard. */
    method Click(clickedRow: int, clickedCol: int)
      requires Valid()
      modifies this
      ensures Valid() && rows == old(rows) && cols == old(cols)
      ensures grid == Glider.Stamp(old(grid), rows, cols, clickedRow, clickedCol)
    {
      Glider.StampKeepsBinary(grid, rows, cols, clickedRow, clickedCol);
      if Glider.Guard(rows, cols, clickedRow, clickedCol) {
        var r, c := clickedRow, clickedCol;
        grid := grid[r := grid[r][c := 0]];
        grid := grid[r := grid[r][c + 1 := 1]];
        grid := grid[r + 1 := grid[r + 1][c + 2 := 1]];
        grid := grid[r + 2 := grid[r + 2][c := 1]];
        grid := grid[r + 2 := grid[r + 2][c + 1 := 1]];
        grid := grid[r + 2 := grid[r + 2][c + 2 := 1]];
      }
    }
  }
}
