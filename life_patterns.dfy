/**
 * Classic patterns under the bounded (non-wrapping) step of module Life:
 * the 2×2 block is a still life and the blinker oscillates with period 2.
 */
module LifePatterns {
  import opened Life

  /** Cell (i, j) is one of the four cells of the 2×2 block with top-left cell (r, c). */
  predicate InBlock(r: int, c: int, i: int, j: int) {
    r <= i <= r + 1 && c <= j <= c + 1
  }

  /** Cell (i, j) is on the horizontal blinker centred on (r, c). */
  predicate OnHorizontal(r: int, c: int, i: int, j: int) {
    i == r && c - 1 <= j <= c + 1
  }

  /** Cell (i, j) is on the vertical blinker centred on (r, c). */
  predicate OnVertical(r: int, c: int, i: int, j: int) {
    j == c && r - 1 <= i <= r + 1
  }

  /** A rows × cols grid holding only the 2×2 block at (r, c). */
  function Block(rows: nat, cols: nat, r: int, c: int): (g: Grid)
    ensures IsGrid(g, rows, cols) && Binary(g)
    ensures forall i, j :: InBounds(g, i, j) ==> (g[i][j] == 1 <==> InBlock(r, c, i, j))
  {
    seq(rows, i => seq(cols, j => if InBlock(r, c, i, j) then 1 else 0))
  }

  /** A rows × cols grid holding only the horizontal blinker centred on (r, c). */
  function Horizontal(rows: nat, cols: nat, r: int, c: int): (g: Grid)
    ensures IsGrid(g, rows, cols) && Binary(g)
    ensures forall i, j :: InBounds(g, i, j) ==> (g[i][j] == 1 <==> OnHorizontal(r, c, i, j))
  {
    seq(rows, i => seq(cols, j => if OnHorizontal(r, c, i, j) then 1 else 0))
  }

  /** A rows × cols grid holding only the vertical blinker centred on (r, c). */
  function Vertical(rows: nat, cols: nat, r: int, c: int): (g: Grid)
    ensures IsGrid(g, rows, cols) && Binary(g)
    ensures forall i, j :: InBounds(g, i, j) ==> (g[i][j] == 1 <==> OnVertical(r, c, i, j))
  {
    seq(rows, i => seq(cols, j => if OnVertical(r, c, i, j) then 1 else 0))
  }

  /** A block that fits in the grid, against an edge or not, is a still life. */
  lemma BlockIsStill(rows: nat, cols: nat, r: int, c: int)
    requires 0 <= r && r + 1 < rows && 0 <= c && c + 1 < cols
    ensures Next(Block(rows, cols, r, c), rows, cols) == Block(rows, cols, r, c)
  {
    var b := Block(rows, cols, r, c);
    forall i, j | 0 <= i < rows && 0 <= j < cols
      ensures Next(b, rows, cols)[i][j] == b[i][j]
    {
    }
    GridsEqual(Next(b, rows, cols), b, rows, cols);
  }

  /** ... and so it is unchanged after any number of generations. */
  lemma {:induction false} BlockStaysStill(rows: nat, cols: nat, r: int, c: int, n: nat)
    requires 0 <= r && r + 1 < rows && 0 <= c && c + 1 < cols
    ensures Iterate(Block(rows, cols, r, c), rows, cols, n) == Block(rows, cols, r, c)
    decreases n
  {
    if n > 0 {
      BlockIsStill(rows, cols, r, c);
      BlockStaysStill(rows, cols, r, c, n - 1);
    }
  }

  /** One cell of the step of the horizontal blinker. */
  lemma HorizontalCellTurns(rows: nat, cols: nat, r: int, c: int, i: int, j: int)
    requires 1 <= r && r + 1 < rows && 1 <= c && c + 1 < cols
    requires 0 <= i < rows && 0 <= j < cols
    ensures Next(Horizontal(rows, cols, r, c), rows, cols)[i][j] == Vertical(rows, cols, r, c)[i][j]
  {
    var h := Horizontal(rows, cols, r, c);
    forall a, b | i - 1 <= a <= i + 1 && j - 1 <= b <= j + 1
      ensures At(h, rows, cols, a, b) == if 0 <= a < rows && 0 <= b < cols && OnHorizontal(r, c, a, b) then 1 else 0
    {
    }
    var n := NeighborCount(h, rows, cols, i, j);
    if i < r - 1 || i > r + 1 {
      assert n == 0;
    } else if i != r {
      if j == c { assert n == 3; } else { assert n < 3; }
    } else {
      if j == c { assert n == 2; } else { assert n <= 1; }
    }
  }

  /** A horizontal blinker with a one-cell margin on every side turns vertical. */
  lemma HorizontalTurnsVertical(rows: nat, cols: nat, r: int, c: int)
    requires 1 <= r && r + 1 < rows && 1 <= c && c + 1 < cols
    ensures Next(Horizontal(rows, cols, r, c), rows, cols) == Vertical(rows, cols, r, c)
  {
    forall i, j | 0 <= i < rows && 0 <= j < cols
      ensures Next(Horizontal(rows, cols, r, c), rows, cols)[i][j] == Vertical(rows, cols, r, c)[i][j]
    {
      HorizontalCellTurns(rows, cols, r, c, i, j);
    }
    GridsEqual(Next(Horizontal(rows, cols, r, c), rows, cols), Vertical(rows, cols, r, c), rows, cols);
  }

  /** One cell of the step of the vertical blinker. */
  lemma VerticalCellTurns(rows: nat, cols: nat, r: int, c: int, i: int, j: int)
    requires 1 <= r && r + 1 < rows && 1 <= c && c + 1 < cols
    requires 0 <= i < rows && 0 <= j < cols
    ensures Next(Vertical(rows, cols, r, c), rows, cols)[i][j] == Horizontal(rows, cols, r, c)[i][j]
  {
    var v := Vertical(rows, cols, r, c);
    forall a, b | i - 1 <= a <= i + 1 && j - 1 <= b <= j + 1
      ensures At(v, rows, cols, a, b) == if 0 <= a < rows && 0 <= b < cols && OnVertical(r, c, a, b) then 1 else 0
    {
    }
    var n := NeighborCount(v, rows, cols, i, j);
    if j < c - 1 || j > c + 1 {
      assert n == 0;
    } else if j != c {
      if i == r { assert n == 3; } else { assert n < 3; }
    } else {
      if i == r { assert n == 2; } else { assert n <= 1; }
    }
  }

  /** A vertical blinker with a one-cell margin on every side turns horizontal. */
  lemma VerticalTurnsHorizontal(rows: nat, cols: nat, r: int, c: int)
    requires 1 <= r && r + 1 < rows && 1 <= c && c + 1 < cols
    ensures Next(Vertical(rows, cols, r, c), rows, cols) == Horizontal(rows, cols, r, c)
  {
    forall i, j | 0 <= i < rows && 0 <= j < cols
      ensures Next(Vertical(rows, cols, r, c), rows, cols)[i][j] == Horizontal(rows, cols, r, c)[i][j]
    {
      VerticalCellTurns(rows, cols, r, c, i, j);
    }
    GridsEqual(Next(Vertical(rows, cols, r, c), rows, cols), Horizontal(rows, cols, r, c), rows, cols);
  }

  /** The blinker has period 2: it differs from itself after one generation
      and returns after two. */
  lemma BlinkerHasPeriodTwo(rows: nat, cols: nat, r: int, c: int)
    requires 1 <= r && r + 1 < rows && 1 <= c && c + 1 < cols
    ensures Iterate(Horizontal(rows, cols, r, c), rows, cols, 1) != Horizontal(rows, cols, r, c)
    ensures Iterate(Horizontal(rows, cols, r, c), rows, cols, 2) == Horizontal(rows, cols, r, c)
  {
    var h := Horizontal(rows, cols, r, c);
    HorizontalTurnsVertical(rows, cols, r, c);
    VerticalTurnsHorizontal(rows, cols, r, c);
    var v := Vertical(rows, cols, r, c);
    assert v[r - 1][c] == 1 && h[r - 1][c] == 0;
    assert Iterate(h, rows, cols, 1) == Iterate(v, rows, cols, 0) == v;
    assert Iterate(h, rows, cols, 2) == Iterate(v, rows, cols, 1) == Iterate(h, rows, cols, 0);
  }
}
