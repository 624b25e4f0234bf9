/**
 * The per-button drag detector: when pointer motion while a button is held
 * becomes a drag, and how a running drag accumulates its displacement.
 */
module Drag {

  import opened Wrappers
  import opened Geometry

  /**
   * A drag: where it began, where the pointer is now, the displacement of the
   * most recent update and the total displacement since it began.
   */
  datatype DragState = DragState(
    beginPosition: Position,
    endPosition: Position,
    previousFrameDelta: Position,
    accumulatedFrameDelta: Position)

  /** The total displacement leads from the beginning of the drag to its end. */
  predicate Balanced(d: DragState)
  {
    Add(d.beginPosition, d.accumulatedFrameDelta) == d.endPosition
  }

  /** The drag that starts once the pointer, held down at `wentDown`, has reached `current`. */
  function StartDrag(wentDown: Position, current: Position): (d: DragState)
    ensures d.beginPosition == wentDown && d.endPosition == current
    ensures d.previousFrameDelta == d.accumulatedFrameDelta
    ensures Balanced(d)
  {
    var delta := Subtract(current, wentDown);
    DragState(wentDown, current, delta, delta)
  }

  /**
   * One update of a running drag against the pointer at `current`: the new
   * delta is the part of the motion not yet accounted for, and it is added to
   * the total. Used for every motion update and, once more, on release.
   */
  function AdvanceDrag(d: DragState, current: Position): (r: DragState)
    ensures r.beginPosition == d.beginPosition && r.endPosition == current
    ensures r.accumulatedFrameDelta == Add(d.accumulatedFrameDelta, r.previousFrameDelta)
    ensures Balanced(r)
    ensures Balanced(d) ==> r.previousFrameDelta == Subtract(current, d.endPosition)
  {
    var delta := Subtract(current, Add(d.beginPosition, d.accumulatedFrameDelta));
    DragState(d.beginPosition, current, delta, Add(d.accumulatedFrameDelta, delta))
  }

  /**
   * The drag detector of one held button after the pointer moved to `current`:
   * a running drag is advanced; otherwise a drag starts only when the press
   * position is known and lies strictly farther than the threshold away.
   */
  function DragOnMove(drag: Option<DragState>, wentDown: Option<Position>, current: Position): (r: Option<DragState>)
    ensures r.Some? <==> drag.Some? || (wentDown.Some? && DragDistanceMet(wentDown.value, current))
    ensures r.Some? ==> Balanced(r.value) && r.value.endPosition == current
    ensures drag.Some? ==> r == Some(AdvanceDrag(drag.value, current))
    ensures drag.None? && r.Some? ==>
      r.value.beginPosition == wentDown.value &&
      r.value.previousFrameDelta == r.value.accumulatedFrameDelta == Subtract(current, wentDown.value)
  {
    match drag
    case None =>
      (match wentDown
       case Some(down) =>
         if DragDistanceMet(down, current) then Some(StartDrag(down, current)) else None
       case None => None)
    case Some(d) => Some(AdvanceDrag(d, current))
  }

  /** At a frame boundary a running drag has moved nothing yet in the new frame. */
  function ClearPreviousDelta(drag: Option<DragState>): (r: Option<DragState>)
    ensures r.Some? <==> drag.Some?
    ensures r.Some? ==>
      r.value.previousFrameDelta == ORIGIN &&
      r.value.beginPosition == drag.value.beginPosition &&
      r.value.endPosition == drag.value.endPosition &&
      r.value.accumulatedFrameDelta == drag.value.accumulatedFrameDelta
  {
    match drag
    case None => None
    case Some(d) => Some(d.(previousFrameDelta := ORIGIN))
  }

  /** Advancing twice to the same position records no further motion. */
  lemma AdvanceDragAgain(d: DragState, current: Position)
    ensures AdvanceDrag(AdvanceDrag(d, current), current).previousFrameDelta == ORIGIN
    ensures AdvanceDrag(AdvanceDrag(d, current), current).accumulatedFrameDelta
         == AdvanceDrag(d, current).accumulatedFrameDelta
  {
  }

  /**
   * A drag advanced through the pointer positions of `path`, one update per
   * position; AdvanceAlongKeepsBegin shows its total then leads from the
   * press position to the last point.
   */
  function AdvanceAlong(d: DragState, path: seq<Position>): DragState
    decreases |path|
  {
    if path == [] then d else AdvanceAlong(AdvanceDrag(d, path[0]), path[1..])
  }

  lemma {:induction false} AdvanceAlongKeepsBegin(d: DragState, path: seq<Position>)
    requires Balanced(d)
    ensures AdvanceAlong(d, path).beginPosition == d.beginPosition
    ensures Balanced(AdvanceAlong(d, path))
    ensures path != [] ==> AdvanceAlong(d, path).endPosition == path[|path| - 1]
    ensures path != [] ==>
      AdvanceAlong(d, path).accumulatedFrameDelta == Subtract(path[|path| - 1], d.beginPosition)
    decreases |path|
  {
    if path != [] {
      AdvanceAlongKeepsBegin(AdvanceDrag(d, path[0]), path[1..]);
    }
  }
}
