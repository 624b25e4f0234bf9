/**
 * Logical (DPI-independent) positions and sizes, and the three helpers the
 * input state uses on them: component-wise addition, subtraction and the
 * distance test that separates a click from a drag.
 *
 * Coordinates are `real`: the double-precision rounding of the original is not
 * modelled, so the identities below hold exactly.
 */
module Geometry {

  datatype Position = Position(x: real, y: real)

  datatype Size = Size(width: real, height: real)

  const ORIGIN: Position := Position(0.0, 0.0)

  /** The pointer must travel strictly farther than this from the press to start a drag. */
  const MIN_DRAG_DISTANCE: real := 2.0

  /** Component-wise sum; adding a displacement can be undone by subtracting it. */
  function Add(p0: Position, p1: Position): (r: Position)
    ensures Subtract(r, p1) == p0 && Subtract(r, p0) == p1
  {
    Position(p0.x + p1.x, p0.y + p1.y)
  }

  /** Component-wise difference: the displacement that leads from `p1` to `p0`. */
  function Subtract(p0: Position, p1: Position): (r: Position)
    ensures p1.x + r.x == p0.x && p1.y + r.y == p0.y
    ensures r == ORIGIN <==> p0 == p1
  {
    Position(p0.x - p1.x, p0.y - p1.y)
  }

  /** Subtracting gives the displacement that, added back, reaches the target again. */
  lemma AddSubtracted(p0: Position, p1: Position)
    ensures Add(p1, Subtract(p0, p1)) == p0
    ensures Subtract(p0, p1) == ORIGIN <==> p0 == p1
  {
  }

  /**
   * The square of the straight-line distance. The original takes its square
   * root; comparing the square against the squared threshold decides the same
   * question (see DragDistanceMatchesRoot) without a square root.
   */
  function SquaredDistance(p0: Position, p1: Position): (r: real)
    ensures r >= 0.0
  {
    var xDiff := p1.x - p0.x;
    var yDiff := p1.y - p0.y;
    xDiff * xDiff + yDiff * yDiff
  }

  lemma MulNonNegative(a: real, b: real)
    requires a >= 0.0 && b >= 0.0
    ensures a * b >= 0.0
  {
  }

  /** True when the pointer has moved far enough from `p0` to `p1` to count as a drag. */
  predicate DragDistanceMet(p0: Position, p1: Position)
    ensures DragDistanceMet(p0, p1) ==> p0 != p1
    ensures DragDistanceMet(p0, p1) <==> SquaredDistance(p1, p0) > MIN_DRAG_DISTANCE * MIN_DRAG_DISTANCE
  {
    SquaredDistance(p0, p1) > MIN_DRAG_DISTANCE * MIN_DRAG_DISTANCE
  }

  /**
   * The squared comparison agrees with the original's: for the non-negative
   * square root `d` of the squared distance, `d > 2.0` exactly when the drag
   * distance is met.
   */
  lemma DragDistanceMatchesRoot(p0: Position, p1: Position, d: real)
    requires d >= 0.0 && d * d == SquaredDistance(p0, p1)
    ensures DragDistanceMet(p0, p1) <==> d > MIN_DRAG_DISTANCE
  {
    var t := MIN_DRAG_DISTANCE;
    assert d * d - t * t == (d - t) * (d + t);
    if d > t {
      assert (d - t) * (d + t) > 0.0;
    } else {
      MulNonNegative(t - d, d + t);
    }
  }

  /** A pointer that has not moved never starts a drag. */
  lemma NoDragWithoutMotion(p: Position)
    ensures !DragDistanceMet(p, p)
  {
  }
}
