/** The mouse record and the hover-highlight decision of `Cell.draw` (script.js). */
module Hover {
  import opened Wrappers
  import opened Geometry
  import opened Grid

  /** The global `mouse`: coordinates become `undefined` when the pointer leaves the canvas. */
  datatype Mouse = Mouse(x: Option<real>, y: Option<real>, width: real, height: real)

  /** The mouse as declared at startup. */
  const InitialMouse: Mouse := Mouse(Some(10.0), Some(10.0), 0.1, 0.1)

  /** JavaScript truthiness of a number-or-undefined: `undefined` and `0` are falsy. */
  predicate Truthy(v: Option<real>) {
    v.Some? && v.value != 0.0
  }

  /** The mouse as a rectangle; only meaningful when both coordinates are present. */
  function MouseRect(m: Mouse): (r: Rect)
    requires m.x.Some? && m.y.Some?
  {
    Rect(m.x.value, m.y.value, m.width, m.height)
  }

  /** Effect of a `mousemove` event: pointer position relative to the canvas. */
  function MouseMoved(m: Mouse, eventX: real, eventY: real, left: real, top: real): (moved: Mouse) {
    m.(x := Some(eventX - left), y := Some(eventY - top))
  }

  /** Effect of a `mouseleave` event. */
  function MouseLeft(m: Mouse): (left: Mouse) {
    m.(x := None, y := None)
  }

  /** `mouse.x && mouse.y && collision(this, mouse)`, as written. */
  predicate Highlighted(cell: Cell, m: Mouse) {
    Truthy(m.x) && Truthy(m.y) && Collision(CellRect(cell), MouseRect(m))
  }

  /** The evidently intended test: the pointer is on the canvas and over the cell. */
  predicate HighlightedIntended(cell: Cell, m: Mouse) {
    m.x.Some? && m.y.Some? && Collision(CellRect(cell), MouseRect(m))
  }

  /** As written, a cell is highlighted exactly when both mouse coordinates are
      present and non-zero and the cell and the mouse share a point. */
  lemma HighlightedIff(cell: Cell, m: Mouse)
    requires cell.width >= 0 && cell.height >= 0 && m.width >= 0.0 && m.height >= 0.0
    ensures Highlighted(cell, m) <==>
      m.x.Some? && m.y.Some? && m.x.value != 0.0 && m.y.value != 0.0 &&
      exists px, py :: Contains(CellRect(cell), px, py) && Contains(MouseRect(m), px, py)
  {
    if m.x.Some? && m.y.Some? {
      CollisionIffCommonPoint(CellRect(cell), MouseRect(m));
    }
  }

  /** The intended test: highlighted exactly when the pointer is present and
      the cell and the mouse share a point. */
  lemma HighlightedIntendedIff(cell: Cell, m: Mouse)
    requires cell.width >= 0 && cell.height >= 0 && m.width >= 0.0 && m.height >= 0.0
    ensures HighlightedIntended(cell, m) <==>
      m.x.Some? && m.y.Some? &&
      exists px, py :: Contains(CellRect(cell), px, py) && Contains(MouseRect(m), px, py)
  {
    if m.x.Some? && m.y.Some? {
      CollisionIffCommonPoint(CellRect(cell), MouseRect(m));
    }
  }

  /** The written test differs from the intended one only at a zero coordinate. */
  lemma HighlightedAgreesAwayFromZero(cell: Cell, m: Mouse)
    ensures Highlighted(cell, m) ==> HighlightedIntended(cell, m)
    ensures m.x != Some(0.0) && m.y != Some(0.0) ==>
      (Highlighted(cell, m) <==> HighlightedIntended(cell, m))
  {
  }

  /** After `mouseleave` no cell is highlighted, under either test. */
  lemma NoHighlightAfterLeave(cell: Cell, m: Mouse)
    ensures !Highlighted(cell, MouseLeft(m))
    ensures !HighlightedIntended(cell, MouseLeft(m))
  {
  }

  /** After a `mousemove`, the cell under the pointer is highlighted (intended
      test); as written, only when neither relative coordinate is zero. */
  lemma HighlightAfterMove(cell: Cell, m: Mouse, eventX: real, eventY: real, left: real, top: real)
    requires m.width >= 0.0 && m.height >= 0.0
    requires Contains(CellRect(cell), eventX - left, eventY - top)
    ensures HighlightedIntended(cell, MouseMoved(m, eventX, eventY, left, top))
    ensures Highlighted(cell, MouseMoved(m, eventX, eventY, left, top)) <==> eventX != left && eventY != top
  {
  }

  /** The startup mouse (10, 10) lies in the controls bar, so no grid cell is highlighted. */
  lemma InitialMouseHighlightsNoCell()
    ensures Contains(ControlsBar, InitialMouse.x.value, InitialMouse.y.value)
    ensures forall i :: 0 <= i < |GridCells(CanvasWidth, CanvasHeight, CellSize)| ==>
      !HighlightedIntended(GridCells(CanvasWidth, CanvasHeight, CellSize)[i], InitialMouse) &&
      !Highlighted(GridCells(CanvasWidth, CanvasHeight, CellSize)[i], InitialMouse)
  {
    GridBounds(CanvasWidth, CanvasHeight, CellSize);
  }

  /** As written, a pointer on the left edge of the canvas (x exactly 0) over
      the first cell of a row is not highlighted, although it collides. */
  lemma LeftEdgeNotHighlighted()
    ensures Collision(CellRect(NewCell(0, 100, 100)), MouseRect(Mouse(Some(0.0), Some(150.0), 0.1, 0.1)))
    ensures !Highlighted(NewCell(0, 100, 100), Mouse(Some(0.0), Some(150.0), 0.1, 0.1))
    ensures HighlightedIntended(NewCell(0, 100, 100), Mouse(Some(0.0), Some(150.0), 0.1, 0.1))
  {
  }
}
