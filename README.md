# Tower-defence board: collision, grid and hover highlight

A Dafny model of the logic in `script.js`, an early snapshot of a canvas
tower-defence game. This snapshot has three pieces of logic:

- `collision(first, second)`, the axis-aligned rectangle overlap test
  (module `Geometry`, file `geometry.dfy`);
- the `Cell` record and `createGrid()`, which fill the module-level
  `gameGrid` array with a row-major tiling of the board below the controls bar
  (module `Grid`, file `grid.dfy`);
- the hover condition in `Cell.draw` (`mouse.x && mouse.y && collision(this, mouse)`)
  and the effect of the `mousemove`/`mouseleave` handlers on the `mouse` record
  (module `Hover`, file `hover.dfy`).

Modelling choices:

- `collision` is `Geometry.Collision`, and `new Cell(x, y)` is `Grid.NewCell`.
  `Grid.CellRect` gives a cell as the rectangle `collision` sees.
- Rectangles have `real` coordinates, so the mouse's 0.1 size is exact. Cells
  have integer coordinates and are converted for the collision test.
- `collision` returns `true` or falls off the end (`undefined`). The model is a
  `bool` predicate, with `undefined` as `false`, which is how its only caller
  uses it.
- `createGrid` is a method with the source's two nested loops. The
  module-level `gameGrid` array is passed in, and its grown value is returned.
  Canvas width, canvas height and cell size are parameters. The startup values
  900, 600 and 100 are constants used by the lemmas about the startup board.
- The grid's specification is `Grid.GridCells`. It is built from `Row` and
  `Rows`, which say what each loop appends. The lemmas about it give its
  length, its row-major indexing, its bounds and its strict ordering.
- A mouse coordinate is `Option<real>`, so the `undefined` set by `mouseleave`
  can be represented. JavaScript truthiness is `Hover.Truthy`: `undefined`
  and `0` are falsy.

## Model

| member | source | states |
|---|---|---|
| Geometry.CollisionSymmetric | script.js:94-97 | `collision(a, b)` equals `collision(b, a)` for all rectangles |
| Geometry.CollisionIffCommonPoint | script.js:91-101 | for rectangles with non-negative size, `collision` is true exactly when their closed areas share a point, and false (undefined) otherwise |
| Geometry.EdgeContactCollides | script.js:94-97 | rectangles that only share a vertical edge collide, although no point lies strictly inside both |
| Geometry.SelfCollision | script.js:94-97 | a rectangle collides with itself exactly when its width and height are not negative |
| Grid.CreateGrid | script.js:55-65 | appends exactly the row-major grid cells to `gameGrid`, (rows × columns) of them, keeping what was there before |
| Grid.RowLength | script.js:59-63 | the inner loop pushes one cell per step of `x` from its start below the canvas width |
| Grid.RowsLength | script.js:57-64 | the outer loop pushes (number of `y` steps) × (number of `x` steps) cells |
| Grid.GridLength | script.js:55-65 | the grid holds (number of rows) × (number of columns) cells |
| Grid.RowAt | script.js:59-63 | the k-th cell of a row is k cell widths right of the row's first cell, at the row's `y` |
| Grid.RowsAt | script.js:57-64 | the cell at index r × columns + c is at column c of the r-th row pushed |
| Grid.GridAt | script.js:57-62 | the cell at index r × columns + c has `x = c·cellSize` and `y = (r+1)·cellSize` |
| Grid.RowBounds | script.js:59-63 | every cell of a row has `x` between the start and the canvas width, the row's `y`, and size `cellSize` |
| Grid.RowsBounds | script.js:57-64 | every cell pushed from row `y` on has `0 <= x < width`, `y <= cell.y < height`, size `cellSize` |
| Grid.GridCellAt | script.js:57-62 | cell i is at `x = (i mod columns)·cellSize` and `y = (i div columns + 1)·cellSize`, so both coordinates are multiples of `cellSize` |
| Grid.GridBounds | script.js:38-62 | every grid cell's top-left corner (not the whole cell) lies on the canvas with `y >= cellSize`, and the cell is `cellSize` wide and high |
| Grid.RowOrdered | script.js:59-63 | within a row, cells are pushed left to right, strictly increasing in `x` |
| Grid.RowsOrdered | script.js:57-64 | cells are pushed in strict row-major order |
| Grid.GridOrdered | script.js:57-62 | the grid is in strict row-major order and no two cells share a top-left corner |
| Grid.StartupGrid | script.js:5-62 | on the 900 × 600 canvas with 100-pixel cells: 5 rows of 9, 45 cells, cell `r*9+c` at `(c·100, (r+1)·100)`, each cell wholly on the canvas (`x + width <= 900`, `y + height <= 600`), none above the controls bar's bottom edge |
| Hover.HighlightedIff | script.js:47 | as written, a cell is highlighted exactly when both mouse coordinates are defined and non-zero and the cell and the mouse share a point |
| Hover.HighlightedIntendedIff | script.js:47 | with the corrected test, a cell is highlighted exactly when the mouse is on the canvas and the cell and the mouse share a point |
| Hover.HighlightedAgreesAwayFromZero | script.js:47 | the written test implies the corrected one; they agree whenever neither coordinate is exactly 0 |
| Hover.NoHighlightAfterLeave | script.js:26-47 | after `mouseleave` no cell is highlighted |
| Hover.HighlightAfterMove | script.js:22-47 | after a `mousemove` onto a cell, that cell is highlighted by the corrected test; by the written test only if neither relative coordinate is 0 |
| Hover.InitialMouseHighlightsNoCell | script.js:14-62 | the startup mouse at (10, 10) lies in the controls bar, and neither test highlights any startup grid cell |
| Hover.LeftEdgeNotHighlighted | script.js:47 | a mouse at x = 0 over cell (0, 100) collides with it but is not highlighted as written; the corrected test highlights it |

## Findings

| source | as written | input that shows it | evidently intended | confidence | as-written member | corrected member |
|---|---|---|---|---|---|---|
| script.js:47 | `mouse.x && mouse.y` treats a coordinate of exactly 0 as "no mouse" | mouse at (0, 150), size 0.1, over cell (0, 100): `collision` is true, but there is no highlight | highlight whenever the mouse is on the canvas (coordinates not `undefined`) and collides with the cell | medium, not executed | Hover.LeftEdgeNotHighlighted | Hover.HighlightedIntendedIff |

`Hover.Highlighted` is the condition as written. `Hover.HighlightedIntended` is
the corrected one. `Hover.HighlightedAgreesAwayFromZero` shows that they differ only
at a zero coordinate. On the board only the x case matters: every cell lies at
`y >= 100`, so a mouse at `y = 0` collides with no cell anyway.

## Left out

- Canvas and context setup and `getBoundingClientRect` (script.js:1-6, 20) are DOM
  input/output. Dimensions are constants or parameters. The canvas offset is
  the `left`/`top` parameters of `Hover.MouseMoved`.
- Registering the `mousemove`/`mouseleave` listeners (script.js:22-29) is host
  event wiring. Only their effect on the mouse record is modelled
  (`Hover.MouseMoved`, `Hover.MouseLeft`).
- Drawing is presentation and is not modelled: `strokeRect`, `fillRect`,
  `clearRect`, colours, and `handleGameGrid`'s loop over `draw`
  (script.js:45-51, 69-74, 80-86). The hover decision that guards the drawing
  is modelled.
- `animate` and `requestAnimationFrame` (script.js:80-88) are the host's frame
  scheduler. They change no state.
- `cellGap` (script.js:10) is declared but never used.
- Floating point: coordinates are exact reals, so rounding and `NaN` are not
  modelled. A `NaN` mouse coordinate cannot come from the handlers' subtraction
  of finite numbers.
- `collision` is modelled on defined numbers only. Called with `undefined`
  coordinates, every comparison in JavaScript is false, so it would return
  `true`. The `mouse.x && mouse.y` guard in `draw` keeps that case from happening.
- Grid.CreateGrid: `gameGrid` is a module-level array mutated by `push`. Here it is
  a sequence value passed in and returned, so aliasing of the global array is not
  represented. The method requires a positive cell size. Otherwise the source's
  loops would not terminate, and the constant 100 satisfies it.
- Defenders, enemies, projectiles, resources, the economy, the spawner and
  win/loss rules have no code in this snapshot, only placeholder comments
  (script.js:76-79). None of them is modelled.
