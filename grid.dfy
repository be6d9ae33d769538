/** The game board: the `Cell` record and `createGrid` (script.js). */
module Grid {
  import opened Geometry

  /** Startup configuration: `canvas.width`, `canvas.height`, `cellSize`. */
  const CanvasWidth: int := 900
  const CanvasHeight: int := 600
  const CellSize: int := 100

  /** `controlsBar` spans the canvas width and is one cell high, drawn from the top-left corner. */
  const ControlsBar: Rect := Rect(0.0, 0.0, CanvasWidth as real, CellSize as real)

  /** A placement cell: top-left corner and its (square) size. */
  datatype Cell = Cell(x: int, y: int, width: int, height: int)

  /** `new Cell(x, y)`: width and height are the cell size. */
  function NewCell(x: int, y: int, cellSize: int): (cell: Cell) {
    Cell(x, y, cellSize, cellSize)
  }

  /** The cell as a rectangle, as `collision` sees it. */
  function CellRect(c: Cell): (r: Rect) {
    Rect(c.x as real, c.y as real, c.width as real, c.height as real)
  }

  /** Number of iterations of `for (v = from; v < bound; v += step)`. */
  function Steps(from: int, bound: int, step: int): (n: nat)
    requires step > 0
    decreases bound - from
  {
    if from < bound then 1 + Steps(from + step, bound, step) else 0
  }

  /** The cells the inner loop pushes for row `y`, starting at column `x`. */
  function Row(y: int, x: int, width: int, cellSize: int): (cells: seq<Cell>)
    requires cellSize > 0
    decreases width - x
  {
    if x < width then [NewCell(x, y, cellSize)] + Row(y, x + cellSize, width, cellSize) else []
  }

  /** The cells the outer loop pushes, starting at row `y`. */
  function Rows(y: int, width: int, height: int, cellSize: int): (cells: seq<Cell>)
    requires cellSize > 0
    decreases height - y
  {
    if y < height then Row(y, 0, width, cellSize) + Rows(y + cellSize, width, height, cellSize) else []
  }

  /** Everything `createGrid` appends: rows from `cellSize` down, columns from 0 across. */
  function GridCells(width: int, height: int, cellSize: int): (cells: seq<Cell>)
    requires cellSize > 0
  {
    Rows(cellSize, width, height, cellSize)
  }

  /** Row-major order: `a` comes strictly before `b`. */
  predicate Before(a: Cell, b: Cell) {
    a.y < b.y || (a.y == b.y && a.x < b.x)
  }

  /** `createGrid()`: nested loops push `new Cell(x, y)` onto `gameGrid`.
      The module-level array is passed in and its grown value returned. */
  method CreateGrid(gameGrid: seq<Cell>, width: int, height: int, cellSize: int) returns (grown: seq<Cell>)
    requires cellSize > 0
    ensures grown == gameGrid + GridCells(width, height, cellSize)
    ensures |grown| == |gameGrid| + Steps(cellSize, height, cellSize) * Steps(0, width, cellSize)
  {
    grown := gameGrid;
    var y := cellSize;
    while y < height
      invariant grown + Rows(y, width, height, cellSize) == gameGrid + GridCells(width, height, cellSize)
      decreases height - y
    {
      var x := 0;
      while x < width
        invariant grown + Row(y, x, width, cellSize) + Rows(y + cellSize, width, height, cellSize)
               == gameGrid + GridCells(width, height, cellSize)
        decreases width - x
      {
        assert Row(y, x, width, cellSize) == [NewCell(x, y, cellSize)] + Row(y, x + cellSize, width, cellSize);
        grown := grown + [NewCell(x, y, cellSize)];
        x := x + cellSize;
      }
      y := y + cellSize;
    }
    GridLength(width, height, cellSize);
  }

  /** The row holds one cell per iteration of the inner loop. */
  lemma {:induction false} RowLength(y: int, x: int, width: int, cellSize: int)
    requires cellSize > 0
    ensures |Row(y, x, width, cellSize)| == Steps(x, width, cellSize)
    decreases width - x
  {
    if x < width {
      RowLength(y, x + cellSize, width, cellSize);
    }
  }

  lemma {:induction false} RowsLength(y: int, width: int, height: int, cellSize: int)
    requires cellSize > 0
    ensures |Rows(y, width, height, cellSize)| == Steps(y, height, cellSize) * Steps(0, width, cellSize)
    decreases height - y
  {
    if y < height {
      RowLength(y, 0, width, cellSize);
      RowsLength(y + cellSize, width, height, cellSize);
      var n := Steps(y + cellSize, height, cellSize);
      assert (1 + n) * Steps(0, width, cellSize) == Steps(0, width, cellSize) + n * Steps(0, width, cellSize);
    }
  }

  /** The grid has (number of rows) x (number of columns) cells. */
  lemma GridLength(width: int, height: int, cellSize: int)
    requires cellSize > 0
    ensures |GridCells(width, height, cellSize)| == Steps(cellSize, height, cellSize) * Steps(0, width, cellSize)
  {
    RowsLength(cellSize, width, height, cellSize);
  }

  /** The k-th cell pushed for a row lies k cells to the right of the first. */
  lemma {:induction false} RowAt(y: int, x: int, width: int, cellSize: int, k: nat)
    requires cellSize > 0
    requires k < Steps(x, width, cellSize)
    ensures |Row(y, x, width, cellSize)| == Steps(x, width, cellSize)
    ensures Row(y, x, width, cellSize)[k] == NewCell(x + k * cellSize, y, cellSize)
    decreases width - x
  {
    RowLength(y, x, width, cellSize);
    if k > 0 {
      RowAt(y, x + cellSize, width, cellSize, k - 1);
      assert x + cellSize + (k - 1) * cellSize == x + k * cellSize;
    }
  }

  lemma {:induction false} RowsAt(y: int, width: int, height: int, cellSize: int, r: nat, c: nat)
    requires cellSize > 0
    requires r < Steps(y, height, cellSize) && c < Steps(0, width, cellSize)
    ensures r * Steps(0, width, cellSize) + c < |Rows(y, width, height, cellSize)|
    ensures Rows(y, width, height, cellSize)[r * Steps(0, width, cellSize) + c]
         == NewCell(c * cellSize, y + r * cellSize, cellSize)
    decreases height - y
  {
    var cols := Steps(0, width, cellSize);
    RowLength(y, 0, width, cellSize);
    RowsLength(y, width, height, cellSize);
    if r == 0 {
      RowAt(y, 0, width, cellSize, c);
    } else {
      RowsAt(y + cellSize, width, height, cellSize, r - 1, c);
      assert r * cols + c == cols + ((r - 1) * cols + c);
      assert y + cellSize + (r - 1) * cellSize == y + r * cellSize;
    }
  }

  /** Row-major layout: the cell at index r * columns + c is at column c, row r + 1. */
  lemma GridAt(width: int, height: int, cellSize: int, r: nat, c: nat)
    requires cellSize > 0
    requires r < Steps(cellSize, height, cellSize) && c < Steps(0, width, cellSize)
    ensures r * Steps(0, width, cellSize) + c < |GridCells(width, height, cellSize)|
    ensures GridCells(width, height, cellSize)[r * Steps(0, width, cellSize) + c]
         == NewCell(c * cellSize, (r + 1) * cellSize, cellSize)
  {
    RowsAt(cellSize, width, height, cellSize, r, c);
    assert cellSize + r * cellSize == (r + 1) * cellSize;
  }

  /** Per index: cell i sits at column i % columns and row i / columns + 1, so its
      position is a multiple of cellSize on both axes. */
  lemma GridCellAt(width: int, height: int, cellSize: int)
    requires cellSize > 0
    ensures forall i :: 0 <= i < |GridCells(width, height, cellSize)| && Steps(0, width, cellSize) > 0 ==>
      GridCells(width, height, cellSize)[i]
        == NewCell((i % Steps(0, width, cellSize)) * cellSize, (i / Steps(0, width, cellSize) + 1) * cellSize, cellSize)
  {
    forall i | 0 <= i < |GridCells(width, height, cellSize)| && Steps(0, width, cellSize) > 0
      ensures GridCells(width, height, cellSize)[i]
        == NewCell((i % Steps(0, width, cellSize)) * cellSize, (i / Steps(0, width, cellSize) + 1) * cellSize, cellSize)
    {
      GridIndexAt(width, height, cellSize, i);
    }
  }

  lemma GridIndexAt(width: int, height: int, cellSize: int, i: nat)
    requires cellSize > 0 && Steps(0, width, cellSize) > 0
    requires i < |GridCells(width, height, cellSize)|
    ensures GridCells(width, height, cellSize)[i]
         == NewCell((i % Steps(0, width, cellSize)) * cellSize, (i / Steps(0, width, cellSize) + 1) * cellSize, cellSize)
  {
    var rows, cols := Steps(cellSize, height, cellSize), Steps(0, width, cellSize);
    GridLength(width, height, cellSize);
    var r, c := i / cols, i % cols;
    DivBelow(i, cols, rows);
    GridAt(width, height, cellSize, r, c);
  }

  /** Splitting an index below rows * cols into its row and column. */
  lemma DivBelow(i: nat, cols: nat, rows: nat)
    requires cols > 0 && i < rows * cols
    ensures i == (i / cols) * cols + i % cols
    ensures i / cols < rows && i % cols < cols
  {
  }

  lemma {:induction false} RowBounds(y: int, x: int, width: int, cellSize: int)
    requires cellSize > 0
    ensures forall i :: 0 <= i < |Row(y, x, width, cellSize)| ==>
      var cell := Row(y, x, width, cellSize)[i];
      x <= cell.x < width && cell.y == y && cell.width == cellSize && cell.height == cellSize
    decreases width - x
  {
    if x < width {
      RowBounds(y, x + cellSize, width, cellSize);
    }
  }

  lemma {:induction false} RowsBounds(y: int, width: int, height: int, cellSize: int)
    requires cellSize > 0
    ensures forall i :: 0 <= i < |Rows(y, width, height, cellSize)| ==>
      var cell := Rows(y, width, height, cellSize)[i];
      0 <= cell.x < width && y <= cell.y < height && cell.width == cellSize && cell.height == cellSize
    decreases height - y
  {
    if y < height {
      RowBounds(y, 0, width, cellSize);
      RowsBounds(y + cellSize, width, height, cellSize);
    }
  }

  /** Every cell's top-left corner lies on the canvas, below the first cell-high
      band, and the cell is cellSize square. When a canvas side is not a multiple
      of cellSize, the last column or row extends past that side. */
  lemma GridBounds(width: int, height: int, cellSize: int)
    requires cellSize > 0
    ensures forall i :: 0 <= i < |GridCells(width, height, cellSize)| ==>
      var cell := GridCells(width, height, cellSize)[i];
      0 <= cell.x < width && cellSize <= cell.y < height && cell.width == cellSize && cell.height == cellSize
  {
    RowsBounds(cellSize, width, height, cellSize);
  }

  lemma {:induction false} RowOrdered(y: int, x: int, width: int, cellSize: int)
    requires cellSize > 0
    ensures forall i, j :: 0 <= i < j < |Row(y, x, width, cellSize)| ==>
      Before(Row(y, x, width, cellSize)[i], Row(y, x, width, cellSize)[j])
    decreases width - x
  {
    if x < width {
      RowOrdered(y, x + cellSize, width, cellSize);
      RowBounds(y, x + cellSize, width, cellSize);
    }
  }

  lemma {:induction false} RowsOrdered(y: int, width: int, height: int, cellSize: int)
    requires cellSize > 0
    ensures forall i, j :: 0 <= i < j < |Rows(y, width, height, cellSize)| ==>
      Before(Rows(y, width, height, cellSize)[i], Rows(y, width, height, cellSize)[j])
    decreases height - y
  {
    if y < height {
      var row, rest := Row(y, 0, width, cellSize), Rows(y + cellSize, width, height, cellSize);
      RowOrdered(y, 0, width, cellSize);
      RowBounds(y, 0, width, cellSize);
      RowsOrdered(y + cellSize, width, height, cellSize);
      RowsBounds(y + cellSize, width, height, cellSize);
      forall i, j | 0 <= i < j < |row + rest|
        ensures Before((row + rest)[i], (row + rest)[j])
      {
        if j < |row| {
          assert Before(row[i], row[j]);
        } else if i < |row| {
          assert (row + rest)[j] == rest[j - |row|];
        } else {
          assert Before(rest[i - |row|], rest[j - |row|]);
        }
      }
    }
  }

  /** Cells are pushed in strict row-major order, so no two share a top-left corner. */
  lemma GridOrdered(width: int, height: int, cellSize: int)
    requires cellSize > 0
    ensures forall i, j :: 0 <= i < j < |GridCells(width, height, cellSize)| ==>
      Before(GridCells(width, height, cellSize)[i], GridCells(width, height, cellSize)[j])
    ensures forall i, j :: 0 <= i < |GridCells(width, height, cellSize)| && 0 <= j < |GridCells(width, height, cellSize)| && i != j ==>
      (GridCells(width, height, cellSize)[i].x, GridCells(width, height, cellSize)[i].y)
      != (GridCells(width, height, cellSize)[j].x, GridCells(width, height, cellSize)[j].y)
  {
    var g := GridCells(width, height, cellSize);
    RowsOrdered(cellSize, width, height, cellSize);
    forall i, j | 0 <= i < |g| && 0 <= j < |g| && i != j
      ensures (g[i].x, g[i].y) != (g[j].x, g[j].y)
    {
      if i < j { assert Before(g[i], g[j]); } else { assert Before(g[j], g[i]); }
    }
  }

  /** The startup grid of a 900 x 600 canvas with 100-pixel cells: 5 rows of 9
      cells in row-major order, each wholly on the canvas and none reaching
      into the controls bar. */
  lemma StartupGrid()
    ensures Steps(CellSize, CanvasHeight, CellSize) == 5 && Steps(0, CanvasWidth, CellSize) == 9
    ensures |GridCells(CanvasWidth, CanvasHeight, CellSize)| == 45
    ensures forall r: nat, c: nat :: r < 5 && c < 9 ==>
      GridCells(CanvasWidth, CanvasHeight, CellSize)[r * 9 + c] == Cell(c * 100, (r + 1) * 100, 100, 100)
    ensures forall i :: 0 <= i < |GridCells(CanvasWidth, CanvasHeight, CellSize)| ==>
      GridCells(CanvasWidth, CanvasHeight, CellSize)[i].y as real >= ControlsBar.y + ControlsBar.height
    ensures forall i :: 0 <= i < |GridCells(CanvasWidth, CanvasHeight, CellSize)| ==>
      GridCells(CanvasWidth, CanvasHeight, CellSize)[i].x + GridCells(CanvasWidth, CanvasHeight, CellSize)[i].width <= CanvasWidth &&
      GridCells(CanvasWidth, CanvasHeight, CellSize)[i].y + GridCells(CanvasWidth, CanvasHeight, CellSize)[i].height <= CanvasHeight
  {
    GridLength(CanvasWidth, CanvasHeight, CellSize);
    GridBounds(CanvasWidth, CanvasHeight, CellSize);
    GridCellAt(CanvasWidth, CanvasHeight, CellSize);
    forall r: nat, c: nat | r < 5 && c < 9
      ensures GridCells(CanvasWidth, CanvasHeight, CellSize)[r * 9 + c] == Cell(c * 100, (r + 1) * 100, 100, 100)
    {
      GridAt(CanvasWidth, CanvasHeight, CellSize, r, c);
    }
  }
}
