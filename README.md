# Game of Life engine and layout-tool logic, in Dafny

This project models two small browser programs and proves properties of the models.

The first is the Game of Life engine in `conway.js`. The module-level `rows`, `cols` and `grid` become the fields of a
class `Conway.Automaton`. The class has these operations:

- `resetGrid` allocates a dead grid.
- `resizeCanvas` resets the grid and then seeds it at random.
- `seedRandom` sets each cell to 1 when its random draw is below 0.2.
- `seedLWSS` sets the eight cells it lists around (10, 10).
- `updateGrid` computes a generation into a fresh buffer and then replaces the grid with it.
- The click handler stamps a glider.

The class invariant `Valid` says the grid has `rows` rows of `cols` cells, each 0 or 1. Every method keeps it, and each is proved against a pure specification:

- `CountNeighbors` and `UpdateGrid` are proved against functions in module `Life`:
  - `NeighborCount` is the Moore count bounded by `rows` and `cols`, built the way the two offset loops accumulate it.
  - `NextCell` and `Next` give rule B3/S23 with the source's truthiness tests on integer cells. `Next` builds a fresh `rows` × `cols` grid, as `nextGrid` is.
- `SeedRandom` is proved against `Conway.Seeded`.
- `SeedLwss` is proved against the cell set `Conway.LwssCells`.
- `Click` is proved against `Glider.Stamp`.
- `ResetGrid` states its result directly.

The lemmas prove:

- the rule itself, applied to every cell from one snapshot;
- that counts lie between 0 and 8;
- that counts use in-bounds neighbours only, so the grid does not wrap around;
- that the step reads only the `rows` × `cols` window of the grid, preserves the shape and keeps a 0/1 grid 0/1;
- that a lone corner cell dies.

Module `LifePatterns` proves that the 2×2 block is a still life and that the blinker has period 2.

Module `Glider` models the click handler's stamp twice:

- `StampAsWritten` follows JavaScript array semantics. A write to a missing row throws a TypeError. A write one past a row's end makes the row longer.
- `Stamp` uses a corrected guard.

The second program is the optical-bench layout tool in `experiments/layout/layout.js`. Module `Layout` models:

- `snapToGrid`, with `Math.round`'s rule that ties round up;
- the rotation arithmetic of `rotateElement`, with JavaScript's truncating `%`;
- the placing and dragging globals, as the fields of a `Workspace` class.

Each event handler is a method of `Workspace`. DOM elements are records holding `left`, `top` and `rotation`. An
element in the container is identified by its position in `placed`.

Files:

- `life.dfy`: the generation rule.
- `life_patterns.dfy`: the block and blinker patterns.
- `glider.dfy`: the click stamp, as written and corrected.
- `automaton.dfy`: the automaton class.
- `layout.dfy`: the layout tool.

## Model

| member | source | states |
|---|---|---|
| `Life.NeighborCount` | conway.js:76-87 | The count the offset loops build is the sum over the eight Moore neighbours. A position counts as 0 when it falls outside rows 0..rows-1 or columns 0..cols-1. On a 0/1 grid the count is between 0 and 8. |
| `Life.NeighborCountIsLocal` | conway.js:80-85 | The count depends only on in-bounds cells of the Moore neighbourhood, excluding the cell itself. Two grids that agree there have equal counts, so nothing wraps around. |
| `Life.NextCell` | conway.js:89-95 | On a 0/1 cell the next value is 1 when the cell is live with 2 or 3 neighbours or dead with exactly 3, and 0 otherwise. A cell holding any other value becomes 0 or keeps its value. |
| `Life.Next` | conway.js:71-99 | The next generation is a fresh rows × cols grid whatever the row lengths of the current one, and every cell is computed from the same snapshot. A 0/1 grid steps to a 0/1 grid. |
| `Life.Clip` | conway.js:73-85 | The rows × cols window of a grid is a rows × cols grid that agrees with it on every cell the window holds. |
| `Life.NextSeesOnlyWindow` | conway.js:73-85 | The step reads only the rows × cols window. A grid whose rows were widened past column cols steps exactly as its window does. |
| `Life.NextRule` | conway.js:89-95 | A live cell with fewer than 2 or more than 3 neighbours becomes 0. A dead cell with exactly 3 becomes 1. Every other cell keeps its value. |
| `Life.NextIsB3S23` | conway.js:89-95 | On a 0/1 grid, a cell is alive in the next generation exactly when it is alive with 2 or 3 neighbours or dead with 3. |
| `Life.LoneCornerCellDies` | conway.js:83-90 | A lone live cell at (0, 0) has neighbour count 0 on any grid size, and the whole grid is dead one step later. |
| `LifePatterns.BlockIsStill` | conway.js:73-97 | A 2×2 block anywhere in the grid, edges included, is a fixed point of the step. |
| `LifePatterns.BlockStaysStill` | conway.js:73-97 | The block is unchanged after any number of generations. |
| `LifePatterns.HorizontalTurnsVertical` | conway.js:73-97 | A horizontal line of three cells with a one-cell margin becomes the vertical line through its centre. |
| `LifePatterns.VerticalTurnsHorizontal` | conway.js:73-97 | The vertical line of three becomes the horizontal one. |
| `LifePatterns.BlinkerHasPeriodTwo` | conway.js:73-97 | The blinker differs from itself after one step and is back after two. |
| `Glider.GuardAsWritten` | conway.js:119 | The guard admits every click the corrected guard admits. The clicks it admits beyond those are exactly the ones on row rows-2 or column cols-2. |
| `Glider.JsWrite` | conway.js:120-125 | `grid[r][c] = v` throws when row r does not exist. Otherwise it sets the cell, or appends when c equals the row's length, and changes nothing else. |
| `Glider.StampAsWritten` | conway.js:119-126 | Runs the six writes in source order with JavaScript array semantics. It accepts any grid whose rows are at least cols long, so an earlier click may already have widened rows. A click the guard refuses changes nothing. A click it admits always clears the anchor and sets its right neighbour. The run throws exactly when row r+2 does not exist. The thrown grid holds the writes of lines 120-122, and every other cell keeps its value. |
| `Glider.AsWrittenThrowsOnSecondLastRow` | conway.js:119-123 | A click on row rows-2 passes the guard and throws at line 123. The writes of lines 120-122 persist, and every other cell of the grid keeps its value. |
| `Glider.AsWrittenWidensRowsOnSecondLastColumn` | conway.js:119-125 | A click on column cols-2 passes the guard and completes, but rows r+1 and r+2 become cols+1 long. |
| `Glider.AsWrittenStepsClippedGlider` | conway.js:71-85 | After that click, the window of the widened grid holds the glider with its two cells in column cols dropped. The next generation is a rows × cols grid and equals the step of that window. |
| `Glider.Stamp` | conway.js:119-126 | Under the corrected guard, the anchor becomes 0, the five glider cells become 1 and all other cells are untouched. Outside the guard the grid is unchanged. The grid keeps its shape in both cases. |
| `Glider.StampAgreesWithSourceWhereSafe` | conway.js:119-126 | Where the source stays in bounds, it computes the corrected stamp. The source leaves a whole grid exactly when the click is not one that its guard admits and the corrected guard refuses. |
| `Glider.StampKeepsBinary` | conway.js:119-126 | Stamping keeps a 0/1 grid 0/1. |
| `Conway.Seeded` | conway.js:49-57 | Seeding keeps each row's length. A cell whose draw is below the percentage becomes 1, and every other cell keeps its value. |
| `Conway.SeedOnlySets` | conway.js:49-57 | Seeding keeps the shape and only ever sets cells to 1, so it never clears a live cell. It keeps a 0/1 grid 0/1. On a dead grid the live cells are exactly those whose draw is below the percentage. |
| `Conway.Automaton.constructor` | conway.js:17-21 | The first resize gives a rows × cols grid in which a cell is 1 exactly when its draw is below 0.2. |
| `Conway.Automaton.Resize` | conway.js:17-21 | The dimensions are replaced and all earlier cells are discarded. A cell of the new grid is 1 exactly when its draw is below 0.2. |
| `Conway.Automaton.ResetGrid` | conway.js:25-34 | Returns exactly `rows` rows of exactly `cols` entries, every entry 0. |
| `Conway.Automaton.SeedRandom` | conway.js:49-57 | The new grid is `Seeded(old grid, draws, percentage)`, with the dimensions unchanged. |
| `Conway.Automaton.SeedLwss` | conway.js:36-47 | Exactly the eight listed cells around the anchor (10, 10) become 1. Every other cell and the dimensions are unchanged. |
| `Conway.Automaton.CountNeighbors` | conway.js:76-87 | The nested offset loops compute `NeighborCount` of the current grid. |
| `Conway.Automaton.UpdateGrid` | conway.js:70-100 | The new grid is `Next(old grid)` with the same dimensions, and it stays a 0/1 grid. The old grid is read unchanged during both loops and replaced only after the full pass. |
| `Conway.Automaton.Click` | conway.js:119-126 | The grid becomes `Glider.Stamp` of the old grid at the clicked cell, using the corrected guard. |
| `Layout.MathRound` | experiments/layout/layout.js:48 | `Math.round`: the integer n with n - 0.5 ≤ x < n + 0.5, so ties round up. |
| `Layout.SnapToGrid` | experiments/layout/layout.js:46-49 | The result is a multiple of 20 in (v - 10, v + 10], so an exact tie rounds up. |
| `Layout.SnapIsUnique` | experiments/layout/layout.js:46-49 | Any multiple of 20 in (v - 10, v + 10] is the snapped value. |
| `Layout.SnapIsIdempotent` | experiments/layout/layout.js:46-49 | Snapping twice equals snapping once. |
| `Layout.SnapIsMonotone` | experiments/layout/layout.js:48 | v ≤ w implies snap(v) ≤ snap(w). |
| `Layout.SnapIsNearest` | experiments/layout/layout.js:48 | No multiple of 20 is closer to v than snap(v). |
| `Layout.JsRem360` | experiments/layout/layout.js:103 | The truncated remainder lies strictly between -360 and 360, has the sign of the dividend and is congruent to it modulo 360. |
| `Layout.Rotate` | experiments/layout/layout.js:101-106 | The stored rotation is (current + angle) % 360 with JavaScript's `%`. It lies in (-360, 360), has the sign of current + angle and gives the same orientation. The position is unchanged. |
| `Layout.RotateTimesTracksTotal` | experiments/layout/layout.js:103 | After n rotations by an angle, the stored value is congruent to start + n·angle modulo 360 and stays within one turn. |
| `Layout.EightStepsTurnFull` | experiments/layout/layout.js:103 | From rotation 0, eight +45 rotations return to 0. |
| `Layout.Workspace.constructor` | experiments/layout/layout.js:1-4 | Initially nothing is being placed or dragged and the container is empty. |
| `Layout.Workspace.StartPlacing` | experiments/layout/layout.js:6-17 | A fresh element becomes the one being placed, replacing any element already being placed. Nothing else changes. |
| `Layout.Workspace.MoveWithCursor` | experiments/layout/layout.js:19-24 | The element being placed, if any, moves to (pageX - 20, pageY - 40). Nothing else changes. |
| `Layout.Workspace.PlaceElement` | experiments/layout/layout.js:26-44 | Placement succeeds exactly when an element is being placed and pageY is greater than the container's top. On success the element is added to the container at snapped coordinates and placing ends. Otherwise the mode and the container are unchanged. |
| `Layout.Workspace.MouseDown` | experiments/layout/layout.js:52-60 | Sets `isDragging`, records the offsets, and makes the element both the dragged and the selected one. |
| `Layout.Workspace.MouseUp` | experiments/layout/layout.js:62-70 | Afterwards nothing is dragged or selected and `isDragging` is false. Nothing else changes. |
| `Layout.Workspace.DragElement` | experiments/layout/layout.js:73-78 | While dragging, the dragged element moves to the snapped cursor position relative to its container. Otherwise nothing changes. |
| `Layout.Workspace.TransformOnDrag` | experiments/layout/layout.js:80-92 | While dragging, ArrowLeft rotates the selected element by -45 and ArrowRight by +45. Any other key, or any key while not dragging, leaves every rotation unchanged. All methods keep `isDragging` true exactly when something is dragged, keep the dragged element equal to the selected one, and keep every rotation in (-360, 360). |

## Left out

- `drawGrid`, the canvas, the context and the `drawGrid` calls in `resizeCanvas` and the click handler are not modelled. They are rendering side effects with no result.
- The canvas geometry of `resizeCanvas` is not modelled. It uses floating-point window sizes and `cellSize`, so `rows` and `cols` are natural-number inputs of `Conway.Automaton.Resize`.
- The source does not reject zero dimensions and has no error for a grid that is not yet allocated, so the model has no such errors either.
- `Math.random` is replaced by an input. `seedRandom` calls it once per cell in row-major order, and `draws[i][j]` is the value drawn at cell (i, j).
- `addElement` and its five wrappers are not modelled, because they snap a random fractional position.
- The scheduling by `setInterval`, the `gameLoop` wrapper and every `addEventListener`/`removeEventListener` call are not modelled.
- `DOMNodeInserted`, the `DOMContentLoaded` logging and `getBoundingClientRect` are not modelled.
- The pixel-to-cell `Math.floor` of the click handler is not modelled. The clicked row and column are integer inputs.
- Because the listener wiring is not modelled, the document mouseup listener is modelled once. `makeDraggable` adds a new copy on every call. A placed element goes through it at layout.js:33 and again through the `DOMNodeInserted` handler at layout.js:127, which fires when line 32 moves the element into the container. All copies do the same thing, and only the first one finds `isDragging` set.
- The `DOMNodeInserted` handler also fires when line 13 appends the element being placed to the page body, so that element gets a mousedown listener too. In the model only elements in the container can be dragged, and the element being placed is never dragged.
- `scaleElement` and the ArrowUp/ArrowDown branches are not modelled, because they multiply a floating-point scale by 1.1 or 0.9. The model has no scale, so those keys change nothing in it.
- `makeDeletable` is not modelled. Removing an element from the container would renumber `placed`.
- DOM creation, class names, CSS strings, `console.log` and element type names are not modelled. An element that has not yet been positioned is modelled with position 0.
- `parseInt` of `data-rotation` is not modelled. The stored values are integers, which survive the trip through a string, and `-0` is stored as "0".
- `Layout.SnapToGrid`: it takes integer arguments only. Browsers may report fractional `pageX`/`pageY` or offsets.
- `Conway.Automaton.SeedLwss`: it requires at least 15 rows and 13 columns. The source has no caller for `seedLWSS`. On a smaller grid the JavaScript would throw at a missing row, or lengthen a row, and the model does not cover that.
- `Conway.Automaton.Click`: it uses the corrected guard. The JavaScript behaviour, with its throw and its too-long rows, is `Glider.StampAsWritten` (see Findings).
- The guard at conway.js:119 gives the anchor a one-cell margin from every edge, but the glider reaches two cells below and to the right of it. `Glider.StampAsWritten` follows the code. `Conway.Automaton.Click` uses a guard that leaves two cells below and to the right.

## Findings

| source | as written | input that shows it | evidently intended | confidence | as-written member | corrected member |
|---|---|---|---|---|---|---|
| conway.js:119 | `clickedRow < rows - 1` admits `clickedRow == rows - 2`. Line 123 then writes `grid[rows]`, which is undefined, and the handler throws a TypeError after lines 120-122 have written. | A 4 × 4 grid clicked at row 2, column 1 | `clickedRow < rows - 2` | not executed | `Glider.AsWrittenThrowsOnSecondLastRow` | `Glider.Stamp` |
| conway.js:119 | `clickedCol < cols - 1` admits `clickedCol == cols - 2`. Lines 122 and 125 then write column `cols`, which makes rows r+1 and r+2 one cell too long. The extra cells are never drawn, and the next generation reads only the first `cols` cells of each row, so the user sees a clipped glider (`Glider.AsWrittenStepsClippedGlider`). | A 5 × 4 grid clicked at row 1, column 2 | `clickedCol < cols - 2` | not executed | `Glider.AsWrittenWidensRowsOnSecondLastColumn` | `Glider.Stamp` |
