/**
 * The input state itself: fixed-capacity arrays updated in place by the event
 * handlers and cleared by the frame reset, and the accessors the application
 * queries between events. Each method is proved to perform the corresponding
 * transition of InputModel on the snapshot the arrays hold, and the class
 * invariant includes the per-button invariant InputModel.Coherent.
 */
module Input {

  import opened Wrappers
  import opened Geometry
  import opened InputIds
  import opened Drag
  import M = InputModel
  import P = InputProperties

  /** A new array of `n` false flags. */
  method NewFlags(n: nat) returns (a: array<bool>)
    ensures fresh(a) && a.Length == n && a[..] == seq(n, _ => false)
  {
    a := new bool[n](_ => false);
  }

  /** A new array of `n` empty slots. */
  method NewOptions<T>(n: nat) returns (a: array<Option<T>>)
    ensures fresh(a) && a.Length == n && a[..] == seq(n, _ => None)
  {
    a := new Option<T>[n](_ => None);
  }

  /** Sets every element of `a` to false. */
  method ClearFlags(a: array<bool>)
    modifies a
    ensures a[..] == seq(a.Length, _ => false)
  {
    for i := 0 to a.Length
      invariant forall j | 0 <= j < i :: !a[j]
    {
      a[i] := false;
    }
  }

  /** Empties every element of `a`. */
  method ClearOptions<T>(a: array<Option<T>>)
    modifies a
    ensures a[..] == seq(a.Length, _ => None)
  {
    for i := 0 to a.Length
      invariant forall j | 0 <= j < i :: a[j].None?
    {
      a[i] := None;
    }
  }

  /**
   * Runs the drag detector of every held button against the pointer at
   * `position`; the drags of released buttons are left alone.
   */
  method MoveDrags(drags: array<Option<DragState>>, isDown: array<bool>,
                   wentDown: array<Option<Position>>, position: Position)
    requires isDown.Length == drags.Length && wentDown.Length == drags.Length
    modifies drags
    ensures forall j | 0 <= j < drags.Length ::
      drags[j] == if isDown[j] then DragOnMove(old(drags[j]), wentDown[j], position) else old(drags[j])
  {
    for i := 0 to drags.Length
      invariant forall j | 0 <= j < i ::
        drags[j] == if isDown[j] then DragOnMove(old(drags[j]), wentDown[j], position) else old(drags[j])
      invariant forall j | i <= j < drags.Length :: drags[j] == old(drags[j])
    {
      if isDown[i] {
        drags[i] := DragOnMove(drags[i], wentDown[i], position);
      }
    }
  }

  class InputState {
    var windowSize: Size
    var dpiFactor: real

    const keyIsDown: array<bool>
    const keyJustDown: array<bool>
    const keyJustUp: array<bool>

    var mousePosition: Position
    const mouseButtonIsDown: array<bool>
    const mouseButtonJustDown: array<Option<Position>>
    const mouseButtonJustUp: array<Option<Position>>

    const mouseButtonJustClicked: array<Option<Position>>

    const mouseButtonWentDownPosition: array<Option<Position>>
    const mouseButtonWentUpPosition: array<Option<Position>>

    const mouseDragInProgress: array<Option<DragState>>
    const mouseDragJustFinished: array<Option<DragState>>

    /** The objects the state is made of. */
    ghost function Repr(): set<object>
    {
      {this, keyIsDown, keyJustDown, keyJustUp, mouseButtonIsDown,
       mouseButtonJustDown, mouseButtonJustUp, mouseButtonJustClicked,
       mouseButtonWentDownPosition, mouseButtonWentUpPosition,
       mouseDragInProgress, mouseDragJustFinished}
    }

    /** The value the arrays and fields currently hold. */
    ghost function Snapshot(): M.Snapshot
      reads Repr()
    {
      M.Snapshot(
        windowSize, dpiFactor,
        keyIsDown[..], keyJustDown[..], keyJustUp[..],
        mousePosition,
        mouseButtonIsDown[..],
        mouseButtonJustDown[..], mouseButtonJustUp[..], mouseButtonJustClicked[..],
        mouseButtonWentDownPosition[..], mouseButtonWentUpPosition[..],
        mouseDragInProgress[..], mouseDragJustFinished[..])
    }

    /**
     * The arrays have their fixed capacities, arrays of the same type are
     * distinct, and the held snapshot satisfies the per-button invariant.
     */
    ghost predicate Valid()
      reads Repr()
    {
      keyIsDown.Length == KEYBOARD_BUTTON_COUNT &&
      keyJustDown.Length == KEYBOARD_BUTTON_COUNT &&
      keyJustUp.Length == KEYBOARD_BUTTON_COUNT &&
      mouseButtonIsDown.Length == MOUSE_BUTTON_COUNT &&
      mouseButtonJustDown.Length == MOUSE_BUTTON_COUNT &&
      mouseButtonJustUp.Length == MOUSE_BUTTON_COUNT &&
      mouseButtonJustClicked.Length == MOUSE_BUTTON_COUNT &&
      mouseButtonWentDownPosition.Length == MOUSE_BUTTON_COUNT &&
      mouseButtonWentUpPosition.Length == MOUSE_BUTTON_COUNT &&
      mouseDragInProgress.Length == MOUSE_BUTTON_COUNT &&
      mouseDragJustFinished.Length == MOUSE_BUTTON_COUNT &&
      keyIsDown != keyJustDown && keyIsDown != keyJustUp && keyJustDown != keyJustUp &&
      mouseButtonJustDown != mouseButtonJustUp &&
      mouseButtonJustDown != mouseButtonJustClicked &&
      mouseButtonJustDown != mouseButtonWentDownPosition &&
      mouseButtonJustDown != mouseButtonWentUpPosition &&
      mouseButtonJustUp != mouseButtonJustClicked &&
      mouseButtonJustUp != mouseButtonWentDownPosition &&
      mouseButtonJustUp != mouseButtonWentUpPosition &&
      mouseButtonJustClicked != mouseButtonWentDownPosition &&
      mouseButtonJustClicked != mouseButtonWentUpPosition &&
      mouseButtonWentDownPosition != mouseButtonWentUpPosition &&
      mouseDragInProgress != mouseDragJustFinished &&
      M.Coherent(Snapshot())
    }

    /** A new input state for a window of the given size and scale factor. */
    constructor (windowSize: Size, dpiFactor: real)
      ensures Valid() && fresh(Repr() - {this})
      ensures Snapshot() == M.Initial(windowSize, dpiFactor)
    {
      var kd := NewFlags(KEYBOARD_BUTTON_COUNT);
      var kjd := NewFlags(KEYBOARD_BUTTON_COUNT);
      var kju := NewFlags(KEYBOARD_BUTTON_COUNT);
      var bd := NewFlags(MOUSE_BUTTON_COUNT);
      var bjd := NewOptions(MOUSE_BUTTON_COUNT);
      var bju := NewOptions(MOUSE_BUTTON_COUNT);
      var bjc := NewOptions(MOUSE_BUTTON_COUNT);
      var bwd := NewOptions(MOUSE_BUTTON_COUNT);
      var bwu := NewOptions(MOUSE_BUTTON_COUNT);
      var dip := NewOptions(MOUSE_BUTTON_COUNT);
      var djf := NewOptions(MOUSE_BUTTON_COUNT);
      this.windowSize := windowSize;
      this.dpiFactor := dpiFactor;
      keyIsDown, keyJustDown, keyJustUp := kd, kjd, kju;
      mousePosition := ORIGIN;
      mouseButtonIsDown, mouseButtonJustDown, mouseButtonJustUp := bd, bjd, bju;
      mouseButtonJustClicked := bjc;
      mouseButtonWentDownPosition, mouseButtonWentUpPosition := bwd, bwu;
      mouseDragInProgress, mouseDragJustFinished := dip, djf;
    }

    //
    // Accessors
    //

    function WindowSize(): (r: Size)
      reads this
      ensures r == Snapshot().windowSize
    {
      windowSize
    }

    function DpiFactor(): (r: real)
      reads this
      ensures r == Snapshot().dpiFactor
    {
      dpiFactor
    }

    function IsKeyDown(key: KeyCode): (r: bool)
      reads Repr()
      requires Valid()
      ensures r <==> key < KEYBOARD_BUTTON_COUNT && Snapshot().keyIsDown[key]
    {
      match KeyboardButtonToIndex(key)
      case Some(index) => keyIsDown[index]
      case None => false
    }

    function IsKeyJustDown(key: KeyCode): (r: bool)
      reads Repr()
      requires Valid()
      ensures r <==> key < KEYBOARD_BUTTON_COUNT && Snapshot().keyJustDown[key]
    {
      match KeyboardButtonToIndex(key)
      case Some(index) => keyJustDown[index]
      case None => false
    }

    function IsKeyJustUp(key: KeyCode): (r: bool)
      reads Repr()
      requires Valid()
      ensures r <==> key < KEYBOARD_BUTTON_COUNT && Snapshot().keyJustUp[key]
    {
      match KeyboardButtonToIndex(key)
      case Some(index) => keyJustUp[index]
      case None => false
    }

    function MousePosition(): (r: Position)
      reads this
      ensures r == Snapshot().mousePosition
    {
      mousePosition
    }

    function IsMouseDown(button: MouseButton): (r: bool)
      reads Repr()
      requires Valid()
      ensures r <==> MouseButtonToIndex(button).Some? &&
                     Snapshot().mouseButtonIsDown[MouseButtonToIndex(button).value]
    {
      match MouseButtonToIndex(button)
      case Some(index) => mouseButtonIsDown[index]
      case None => false
    }

    function MouseButtonWentDownPosition(button: MouseButton): (r: Option<Position>)
      reads Repr()
      requires Valid()
      ensures MouseButtonToIndex(button).None? ==> r.None?
      ensures MouseButtonToIndex(button).Some? ==>
        r == Snapshot().mouseButtonWentDownPosition[MouseButtonToIndex(button).value]
    {
      match MouseButtonToIndex(button)
      case Some(index) => mouseButtonWentDownPosition[index]
      case None => None
    }

    function MouseButtonWentUpPosition(button: MouseButton): (r: Option<Position>)
      reads Repr()
      requires Valid()
      ensures MouseButtonToIndex(button).None? ==> r.None?
      ensures MouseButtonToIndex(button).Some? ==>
        r == Snapshot().mouseButtonWentUpPosition[MouseButtonToIndex(button).value]
    {
      match MouseButtonToIndex(button)
      case Some(index) => mouseButtonWentUpPosition[index]
      case None => None
    }

    /** Where the button went down this frame; it is always the recorded press position. */
    function MouseJustDownPosition(button: MouseButton): (r: Option<Position>)
      reads Repr()
      requires Valid()
      ensures MouseButtonToIndex(button).None? ==> r.None?
      ensures MouseButtonToIndex(button).Some? ==>
        r == Snapshot().mouseButtonJustDown[MouseButtonToIndex(button).value]
      ensures r.Some? ==> MouseButtonWentDownPosition(button) == r
    {
      match MouseButtonToIndex(button)
      case Some(index) =>
        assert M.ButtonCoherent(Snapshot(), index);
        mouseButtonJustDown[index]
      case None => None
    }

    function IsMouseJustDown(button: MouseButton): (r: bool)
      reads Repr()
      requires Valid()
      ensures r <==> MouseJustDownPosition(button).Some?
    {
      match MouseButtonToIndex(button)
      case Some(index) => mouseButtonJustDown[index].Some?
      case None => false
    }

    /** Where the button went up this frame; it is always the recorded release position. */
    function MouseJustUpPosition(button: MouseButton): (r: Option<Position>)
      reads Repr()
      requires Valid()
      ensures MouseButtonToIndex(button).None? ==> r.None?
      ensures MouseButtonToIndex(button).Some? ==>
        r == Snapshot().mouseButtonJustUp[MouseButtonToIndex(button).value]
      ensures r.Some? ==> MouseButtonWentUpPosition(button) == r
    {
      match MouseButtonToIndex(button)
      case Some(index) =>
        assert M.ButtonCoherent(Snapshot(), index);
        mouseButtonJustUp[index]
      case None => None
    }

    function IsMouseJustUp(button: MouseButton): (r: bool)
      reads Repr()
      requires Valid()
      ensures r <==> MouseJustUpPosition(button).Some?
    {
      match MouseButtonToIndex(button)
      case Some(index) => mouseButtonJustUp[index].Some?
      case None => false
    }

    /** Where the button was clicked this frame; a click always has a recorded release. */
    function MouseButtonJustClickedPosition(button: MouseButton): (r: Option<Position>)
      reads Repr()
      requires Valid()
      ensures MouseButtonToIndex(button).None? ==> r.None?
      ensures MouseButtonToIndex(button).Some? ==>
        r == Snapshot().mouseButtonJustClicked[MouseButtonToIndex(button).value]
      ensures r.Some? ==> MouseButtonWentUpPosition(button).Some?
    {
      match MouseButtonToIndex(button)
      case Some(index) =>
        assert M.ButtonCoherent(Snapshot(), index);
        mouseButtonJustClicked[index]
      case None => None
    }

    function IsMouseButtonJustClicked(button: MouseButton): (r: bool)
      reads Repr()
      requires Valid()
      ensures r <==> MouseButtonJustClickedPosition(button).Some?
    {
      match MouseButtonToIndex(button)
      case Some(index) => mouseButtonJustClicked[index].Some?
      case None => false
    }

    /**
     * The running drag of the button: only a held button with a recorded press
     * position has one, and its total displacement leads from its start to its end.
     */
    function MouseDragInProgress(button: MouseButton): (r: Option<DragState>)
      reads Repr()
      requires Valid()
      ensures MouseButtonToIndex(button).None? ==> r.None?
      ensures MouseButtonToIndex(button).Some? ==>
        r == Snapshot().mouseDragInProgress[MouseButtonToIndex(button).value]
      ensures r.Some? ==>
        IsMouseDown(button) && MouseButtonWentDownPosition(button).Some? && Balanced(r.value)
    {
      match MouseButtonToIndex(button)
      case Some(index) =>
        assert M.ButtonCoherent(Snapshot(), index);
        mouseDragInProgress[index]
      case None => None
    }

    function IsMouseDragInProgress(button: MouseButton): (r: bool)
      reads Repr()
      requires Valid()
      ensures r <==> MouseDragInProgress(button).Some?
    {
      match MouseButtonToIndex(button)
      case Some(index) => mouseDragInProgress[index].Some?
      case None => false
    }

    /** The drag the button finished this frame; its total displacement leads from its start to its end. */
    function MouseDragJustFinished(button: MouseButton): (r: Option<DragState>)
      reads Repr()
      requires Valid()
      ensures MouseButtonToIndex(button).None? ==> r.None?
      ensures MouseButtonToIndex(button).Some? ==>
        r == Snapshot().mouseDragJustFinished[MouseButtonToIndex(button).value]
      ensures r.Some? ==> Balanced(r.value)
    {
      match MouseButtonToIndex(button)
      case Some(index) =>
        assert M.ButtonCoherent(Snapshot(), index);
        mouseDragJustFinished[index]
      case None => None
    }

    function IsMouseDragJustFinished(button: MouseButton): (r: bool)
      reads Repr()
      requires Valid()
      ensures r <==> MouseDragJustFinished(button).Some?
    {
      match MouseButtonToIndex(button)
      case Some(index) => mouseDragJustFinished[index].Some?
      case None => false
    }

    //
    // Handlers for significant events
    //

    /** The frame reset: clears every one-shot field and the last delta of running drags. */
    method EndFrame()
      requires Valid()
      modifies keyJustDown, keyJustUp, mouseButtonJustDown, mouseButtonJustUp,
               mouseButtonJustClicked, mouseDragJustFinished, mouseDragInProgress
      ensures Valid()
      ensures Snapshot() == M.EndFrame(old(Snapshot()))
    {
      ClearFlags(keyJustDown);
      ClearFlags(keyJustUp);
      ClearOptions(mouseButtonJustDown);
      ClearOptions(mouseButtonJustUp);
      ClearOptions(mouseButtonJustClicked);
      ClearOptions(mouseDragJustFinished);
      for i := 0 to mouseDragInProgress.Length
        modifies mouseDragInProgress
        invariant forall j | 0 <= j < i ::
          mouseDragInProgress[j] == ClearPreviousDelta(old(mouseDragInProgress[j]))
        invariant forall j | i <= j < mouseDragInProgress.Length ::
          mouseDragInProgress[j] == old(mouseDragInProgress[j])
      {
        match mouseDragInProgress[i] {
          case Some(v) => mouseDragInProgress[i] := Some(v.(previousFrameDelta := ORIGIN));
          case None =>
        }
      }
      assert Snapshot() == M.EndFrame(old(Snapshot()));
      P.EndFrameKeepsCoherent(old(Snapshot()));
    }

    method HandleHidpiFactorChanged(dpiFactor: real)
      requires Valid()
      modifies this
      ensures Valid()
      ensures Snapshot() == M.HandleHidpiFactorChanged(old(Snapshot()), dpiFactor)
    {
      this.dpiFactor := dpiFactor;
      P.HandleEventKeepsCoherent(old(Snapshot()), M.HiDpiFactorChanged(dpiFactor));
    }

    method HandleWindowSizeChanged(windowSize: Size)
      requires Valid()
      modifies this
      ensures Valid()
      ensures Snapshot() == M.HandleWindowSizeChanged(old(Snapshot()), windowSize)
    {
      this.windowSize := windowSize;
      P.HandleEventKeepsCoherent(old(Snapshot()), M.Resized(windowSize));
    }

    method HandleKeyboardEvent(keyboardButton: KeyCode, buttonState: ElementState)
      requires Valid()
      modifies keyIsDown, keyJustDown, keyJustUp
      ensures Valid()
      ensures Snapshot() == M.HandleKeyboardEvent(old(Snapshot()), keyboardButton, buttonState)
    {
      match KeyboardButtonToIndex(keyboardButton) {
        case Some(kc) =>
          if buttonState == Pressed {
            if !keyIsDown[kc] {
              keyJustDown[kc] := true;
            }
            keyIsDown[kc] := true;
          } else {
            if keyIsDown[kc] {
              keyJustUp[kc] := true;
            }
            keyIsDown[kc] := false;
          }
        case None =>
      }
      P.KeyboardKeepsCoherent(old(Snapshot()), keyboardButton, buttonState);
    }

    method HandleMouseButtonEvent(button: MouseButton, buttonEvent: ElementState)
      requires Valid()
      modifies mouseButtonIsDown, mouseButtonJustDown, mouseButtonJustUp, mouseButtonJustClicked,
               mouseButtonWentDownPosition, mouseButtonWentUpPosition,
               mouseDragInProgress, mouseDragJustFinished
      ensures Valid()
      ensures Snapshot() == M.HandleMouseButtonEvent(old(Snapshot()), button, buttonEvent)
    {
      match MouseButtonToIndex(button) {
        case Some(buttonIndex) =>
          match buttonEvent {
            case Pressed => PressButton(buttonIndex);
            case Released => ReleaseButton(buttonIndex);
          }
        case None =>
      }
      P.MouseButtonKeepsCoherent(old(Snapshot()), button, buttonEvent);
    }

    /** The press branch of HandleMouseButtonEvent, on slot `buttonIndex`. */
    method PressButton(buttonIndex: nat)
      requires Valid() && buttonIndex < MOUSE_BUTTON_COUNT
      modifies mouseButtonIsDown, mouseButtonJustDown, mouseButtonWentDownPosition
      ensures Snapshot() == M.HandleMouseButtonEvent(old(Snapshot()), IndexToMouseButton(buttonIndex), Pressed)
    {
      ghost var before := Snapshot();
      mouseButtonJustDown[buttonIndex] := Some(mousePosition);
      mouseButtonIsDown[buttonIndex] := true;
      mouseButtonWentDownPosition[buttonIndex] := Some(mousePosition);
      assert mouseButtonJustDown[..] == before.mouseButtonJustDown[buttonIndex := Some(mousePosition)];
      assert mouseButtonIsDown[..] == before.mouseButtonIsDown[buttonIndex := true];
      assert mouseButtonWentDownPosition[..] ==
        before.mouseButtonWentDownPosition[buttonIndex := Some(mousePosition)];
    }

    /** The release branch of HandleMouseButtonEvent, on slot `buttonIndex`. */
    method ReleaseButton(buttonIndex: nat)
      requires Valid() && buttonIndex < MOUSE_BUTTON_COUNT
      modifies mouseButtonIsDown, mouseButtonJustUp, mouseButtonJustClicked,
               mouseButtonWentUpPosition, mouseDragInProgress, mouseDragJustFinished
      ensures Snapshot() == M.HandleMouseButtonEvent(old(Snapshot()), IndexToMouseButton(buttonIndex), Released)
    {
      ghost var before := Snapshot();
      mouseButtonJustUp[buttonIndex] := Some(mousePosition);
      mouseButtonIsDown[buttonIndex] := false;
      mouseButtonWentUpPosition[buttonIndex] := Some(mousePosition);
      match mouseDragInProgress[buttonIndex] {
        case Some(inProgress) =>
          mouseDragJustFinished[buttonIndex] := Some(AdvanceDrag(inProgress, mousePosition));
        case None =>
          mouseButtonJustClicked[buttonIndex] := Some(mousePosition);
      }
      mouseDragInProgress[buttonIndex] := None;
      assert mouseButtonJustUp[..] == before.mouseButtonJustUp[buttonIndex := Some(mousePosition)];
      assert mouseButtonIsDown[..] == before.mouseButtonIsDown[buttonIndex := false];
      assert mouseButtonWentUpPosition[..] ==
        before.mouseButtonWentUpPosition[buttonIndex := Some(mousePosition)];
      assert mouseDragInProgress[..] == before.mouseDragInProgress[buttonIndex := None];
    }

    method HandleMouseMoveEvent(position: Position)
      requires Valid()
      modifies this, mouseDragInProgress
      ensures Valid()
      ensures Snapshot() == M.HandleMouseMoveEvent(old(Snapshot()), position)
    {
      mousePosition := position;
      MoveDrags(mouseDragInProgress, mouseButtonIsDown, mouseButtonWentDownPosition, position);
      ghost var expected := M.HandleMouseMoveEvent(old(Snapshot()), position);
      assert mouseDragInProgress[..] == expected.mouseDragInProgress;
      assert Snapshot() == expected;
      P.MouseMoveKeepsCoherent(old(Snapshot()), position);
    }

    /**
     * Dispatches one window event to its handler. A close request changes no
     * input state; it is reported through `terminateRequested` so that the
     * caller can ask for the process to end.
     */
    method HandleEvent(event: M.Event) returns (terminateRequested: bool)
      requires Valid()
      modifies Repr()
      ensures Valid()
      ensures terminateRequested <==> event.CloseRequested?
      ensures Snapshot() == M.HandleEvent(old(Snapshot()), event)
    {
      var isCloseRequested := false;
      match event {
        case CloseRequested =>
          isCloseRequested := true;
        case HiDpiFactorChanged(hidpiFactor) =>
          HandleHidpiFactorChanged(hidpiFactor);
        case Resized(windowSize) =>
          HandleWindowSizeChanged(windowSize);
        case KeyboardInput(virtualKeycode, state) =>
          if virtualKeycode.Some? {
            HandleKeyboardEvent(virtualKeycode.value, state);
          }
        case MouseInput(state, button) =>
          HandleMouseButtonEvent(button, state);
        case CursorMoved(position) =>
          HandleMouseMoveEvent(position);
        case Ignored =>
      }
      terminateRequested := isCloseRequested;
    }
  }
}
