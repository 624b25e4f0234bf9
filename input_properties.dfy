/**
 * Properties of the input transitions that relate several calls: the frame
 * reset is idempotent, every transition keeps the per-button invariant, a
 * release either clicks or finishes a drag, a running drag keeps its start,
 * and the behaviours the input state is meant to show on short event traces.
 */
module InputProperties {

  import opened Wrappers
  import opened Geometry
  import opened InputIds
  import opened Drag
  import opened InputModel

  /** Ending a frame twice in a row leaves the same state as ending it once. */
  lemma EndFrameIdempotent(s: Snapshot)
    requires WellSized(s)
    ensures EndFrame(EndFrame(s)) == EndFrame(s)
  {
  }

  lemma EndFrameKeepsCoherent(s: Snapshot)
    requires Coherent(s)
    ensures Coherent(EndFrame(s))
  {
    var r := EndFrame(s);
    forall i: nat | i < MOUSE_BUTTON_COUNT
      ensures ButtonCoherent(r, i)
    {
      assert ButtonCoherent(s, i);
    }
  }

  lemma KeyboardKeepsCoherent(s: Snapshot, key: KeyCode, state: ElementState)
    requires Coherent(s)
    ensures Coherent(HandleKeyboardEvent(s, key, state))
  {
    var r := HandleKeyboardEvent(s, key, state);
    forall i: nat | i < MOUSE_BUTTON_COUNT
      ensures ButtonCoherent(r, i)
    {
      assert ButtonCoherent(s, i);
    }
  }

  lemma MouseButtonKeepsCoherent(s: Snapshot, button: MouseButton, state: ElementState)
    requires Coherent(s)
    ensures Coherent(HandleMouseButtonEvent(s, button, state))
  {
    var r := HandleMouseButtonEvent(s, button, state);
    forall i: nat | i < MOUSE_BUTTON_COUNT
      ensures ButtonCoherent(r, i)
    {
      assert ButtonCoherent(s, i);
      if MouseButtonToIndex(button) != Some(i) {
        assert MouseButtonToIndex(button).Some? ==> SameButtonSlot(s, r, i);
      }
    }
  }

  lemma MouseMoveKeepsCoherent(s: Snapshot, position: Position)
    requires Coherent(s)
    ensures Coherent(HandleMouseMoveEvent(s, position))
  {
    var r := HandleMouseMoveEvent(s, position);
    forall i: nat | i < MOUSE_BUTTON_COUNT
      ensures ButtonCoherent(r, i)
    {
      assert ButtonCoherent(s, i);
    }
  }

  /** Every window event keeps the per-button invariant. */
  lemma HandleEventKeepsCoherent(s: Snapshot, event: Event)
    requires Coherent(s)
    ensures Coherent(HandleEvent(s, event))
  {
    match event
    case KeyboardInput(vk, state) =>
      if vk.Some? {
        KeyboardKeepsCoherent(s, vk.value, state);
      }
    case MouseInput(state, button) =>
      MouseButtonKeepsCoherent(s, button, state);
    case CursorMoved(position) =>
      MouseMoveKeepsCoherent(s, position);
    case HiDpiFactorChanged(_) | Resized(_) =>
      var r := HandleEvent(s, event);
      forall i: nat | i < MOUSE_BUTTON_COUNT
        ensures ButtonCoherent(r, i)
      {
        assert ButtonCoherent(s, i);
      }
    case CloseRequested =>
    case Ignored =>
  }

  /**
   * From any state satisfying the per-button invariant, a run of events keeps
   * it, and so does the frame reset that follows the run.
   */
  lemma {:induction false} HandleEventsKeepsCoherent(s: Snapshot, events: seq<Event>)
    requires Coherent(s)
    ensures Coherent(HandleEvents(s, events))
    ensures Coherent(EndFrame(HandleEvents(s, events)))
    decreases |events|
  {
    if events != [] {
      HandleEventKeepsCoherent(s, events[0]);
      HandleEventsKeepsCoherent(HandleEvent(s, events[0]), events[1..]);
    }
    EndFrameKeepsCoherent(HandleEvents(s, events));
  }

  /**
   * A release of a button whose one-shot fields are clear (as after a frame
   * reset) sets exactly one of "just clicked" and "drag just finished": the
   * latter exactly when a drag was running.
   */
  lemma ReleaseClicksOrFinishesDrag(s: Snapshot, button: MouseButton)
    requires WellSized(s) && MouseButtonToIndex(button).Some?
    requires s.mouseButtonJustClicked[MouseButtonToIndex(button).value].None?
    requires s.mouseDragJustFinished[MouseButtonToIndex(button).value].None?
    ensures var i, r := MouseButtonToIndex(button).value, HandleMouseButtonEvent(s, button, Released);
      (r.mouseButtonJustClicked[i].Some? <==> s.mouseDragInProgress[i].None?) &&
      (r.mouseDragJustFinished[i].Some? <==> s.mouseDragInProgress[i].Some?) &&
      r.mouseDragInProgress[i].None?
  {
  }

  /** A running drag keeps its start position through every event that does not end it. */
  lemma DragBeginStable(s: Snapshot, event: Event, i: nat)
    requires WellSized(s) && i < MOUSE_BUTTON_COUNT && s.mouseDragInProgress[i].Some?
    ensures var r := HandleEvent(s, event);
      r.mouseDragInProgress[i].Some? ==>
        r.mouseDragInProgress[i].value.beginPosition == s.mouseDragInProgress[i].value.beginPosition
    ensures EndFrame(s).mouseDragInProgress[i].Some? &&
      EndFrame(s).mouseDragInProgress[i].value.beginPosition == s.mouseDragInProgress[i].value.beginPosition
  {
    var r := HandleEvent(s, event);
    if event.MouseInput? {
      var index := MouseButtonToIndex(event.button);
      if index.Some? && index.value != i {
        assert SameButtonSlot(s, r, i);
      }
    }
  }

  /** Pressing a key marks it down and just down; after the frame reset it is still down but no longer just down. */
  lemma KeyPressThenEndFrame(s: Snapshot, key: KeyCode)
    requires WellSized(s) && key < KEYBOARD_BUTTON_COUNT && !s.keyIsDown[key]
    ensures HandleKeyboardEvent(s, key, Pressed).keyIsDown[key]
    ensures HandleKeyboardEvent(s, key, Pressed).keyJustDown[key]
    ensures EndFrame(HandleKeyboardEvent(s, key, Pressed)).keyIsDown[key]
    ensures !EndFrame(HandleKeyboardEvent(s, key, Pressed)).keyJustDown[key]
  {
  }

  /** A key code beyond the key slots changes nothing, whether pressed or released. */
  lemma OutOfRangeKeyIgnored(s: Snapshot, key: KeyCode, state: ElementState)
    requires WellSized(s) && key >= KEYBOARD_BUTTON_COUNT
    ensures HandleEvent(s, KeyboardInput(Some(key), state)) == s
  {
  }

  /** An extra button beyond the button slots changes nothing. */
  lemma OutOfRangeButtonIgnored(s: Snapshot, id: U8, state: ElementState)
    requires WellSized(s) && id >= MOUSE_BUTTON_COUNT - 3
    ensures HandleEvent(s, MouseInput(state, Other(id))) == s
  {
  }

  /**
   * Press then release without motion in between, on a button with no drag
   * and no pending one-shot fields: a click at the pointer position, no drag.
   */
  lemma PressReleaseIsClick(s: Snapshot, button: MouseButton)
    requires WellSized(s) && MouseButtonToIndex(button).Some?
    requires s.mouseDragInProgress[MouseButtonToIndex(button).value].None?
    requires s.mouseDragJustFinished[MouseButtonToIndex(button).value].None?
    ensures var i := MouseButtonToIndex(button).value;
      var r := HandleMouseButtonEvent(HandleMouseButtonEvent(s, button, Pressed), button, Released);
      r.mouseButtonJustClicked[i] == Some(s.mousePosition) &&
      r.mouseDragJustFinished[i].None? &&
      !r.mouseButtonIsDown[i]
  {
    var i := MouseButtonToIndex(button).value;
    var pressed := HandleMouseButtonEvent(s, button, Pressed);
    assert pressed.mouseDragInProgress[i].None?;
  }

  /**
   * A held button whose pointer stays within the threshold of the press
   * position does not start a drag.
   */
  lemma SmallMoveStartsNoDrag(s: Snapshot, button: MouseButton, position: Position)
    requires WellSized(s) && MouseButtonToIndex(button).Some?
    requires s.mouseDragInProgress[MouseButtonToIndex(button).value].None?
    requires !DragDistanceMet(s.mousePosition, position)
    ensures var i := MouseButtonToIndex(button).value;
      HandleMouseMoveEvent(HandleMouseButtonEvent(s, button, Pressed), position).mouseDragInProgress[i].None?
  {
    var i := MouseButtonToIndex(button).value;
    var pressed := HandleMouseButtonEvent(s, button, Pressed);
    assert pressed.mouseButtonIsDown[i];
    assert pressed.mouseButtonWentDownPosition[i] == Some(s.mousePosition);
  }

  /**
   * The left button goes down at (5, 5); a move to (5, 5.5) is jitter; a move to
   * (20, 20) starts a drag from (5, 5); the release there finishes it with a
   * total displacement of (15, 15) and registers no click.
   */
  lemma LeftDragTrace(s: Snapshot)
    requires WellSized(s) && s.mousePosition == Position(5.0, 5.0)
    requires s.mouseDragInProgress[0].None? && s.mouseButtonJustClicked[0].None?
    ensures
      var s1 := HandleMouseButtonEvent(s, Left, Pressed);
      var s2 := HandleMouseMoveEvent(s1, Position(5.0, 5.5));
      var s3 := HandleMouseMoveEvent(s2, Position(20.0, 20.0));
      var s4 := HandleMouseButtonEvent(s3, Left, Released);
      s2.mouseDragInProgress[0].None? &&
      s3.mouseDragInProgress[0] == Some(TraceDrag()) &&
      s4.mouseDragJustFinished[0] ==
        Some(DragState(Position(5.0, 5.0), Position(20.0, 20.0), ORIGIN, Position(15.0, 15.0))) &&
      s4.mouseButtonJustClicked[0].None? &&
      s4.mouseDragInProgress[0].None?
  {
    var s1 := HandleMouseButtonEvent(s, Left, Pressed);
    var s2 := HandleMouseMoveEvent(s1, Position(5.0, 5.5));
    var s3 := HandleMouseMoveEvent(s2, Position(20.0, 20.0));
    TraceJitter(s1);
    TraceDragStarts(s2);
    TraceRelease(s3);
  }

  /** The drag of LeftDragTrace once the pointer reached (20, 20). */
  function TraceDrag(): DragState
  {
    DragState(Position(5.0, 5.0), Position(20.0, 20.0), Position(15.0, 15.0), Position(15.0, 15.0))
  }

  lemma TraceJitter(s1: Snapshot)
    requires WellSized(s1) && s1.mouseButtonIsDown[0]
    requires s1.mouseButtonWentDownPosition[0] == Some(Position(5.0, 5.0))
    requires s1.mouseDragInProgress[0].None?
    ensures var s2 := HandleMouseMoveEvent(s1, Position(5.0, 5.5));
      s2.mouseButtonIsDown[0] && s2.mouseDragInProgress[0].None? &&
      s2.mouseButtonWentDownPosition[0] == Some(Position(5.0, 5.0)) &&
      s2.mouseButtonJustClicked[0] == s1.mouseButtonJustClicked[0]
  {
    assert !DragDistanceMet(Position(5.0, 5.0), Position(5.0, 5.5));
    assert DragOnMove(None, Some(Position(5.0, 5.0)), Position(5.0, 5.5)).None?;
  }

  lemma TraceDragStarts(s2: Snapshot)
    requires WellSized(s2) && s2.mouseButtonIsDown[0]
    requires s2.mouseButtonWentDownPosition[0] == Some(Position(5.0, 5.0))
    requires s2.mouseDragInProgress[0].None?
    ensures var s3 := HandleMouseMoveEvent(s2, Position(20.0, 20.0));
      s3.mouseDragInProgress[0] == Some(TraceDrag()) &&
      s3.mouseButtonJustClicked[0] == s2.mouseButtonJustClicked[0] &&
      s3.mousePosition == Position(20.0, 20.0)
  {
    assert SquaredDistance(Position(5.0, 5.0), Position(20.0, 20.0)) == 450.0;
  }

  lemma TraceRelease(s3: Snapshot)
    requires WellSized(s3) && s3.mousePosition == Position(20.0, 20.0)
    requires s3.mouseDragInProgress[0] == Some(TraceDrag())
    requires s3.mouseButtonJustClicked[0].None?
    ensures var s4 := HandleMouseButtonEvent(s3, Left, Released);
      s4.mouseDragJustFinished[0] ==
        Some(DragState(Position(5.0, 5.0), Position(20.0, 20.0), ORIGIN, Position(15.0, 15.0))) &&
      s4.mouseButtonJustClicked[0].None? &&
      s4.mouseDragInProgress[0].None?
  {
  }
}
