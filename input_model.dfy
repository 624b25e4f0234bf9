/**
 * The input snapshot as a value, and each event handler and the frame reset as
 * a function from the snapshot before to the snapshot after. The InputState
 * class performs these transitions in place on its arrays; its methods are
 * proved to agree with the functions here, and the properties of the
 * transitions are proved here once.
 */
module InputModel {

  import opened Wrappers
  import opened Geometry
  import opened InputIds
  import opened Drag

  /**
   * Everything the input state holds: the window's size and scale factor, three
   * flags per key slot, the pointer position and eight fields per button slot.
   */
  datatype Snapshot = Snapshot(
    windowSize: Size,
    dpiFactor: real,
    keyIsDown: seq<bool>,
    keyJustDown: seq<bool>,
    keyJustUp: seq<bool>,
    mousePosition: Position,
    mouseButtonIsDown: seq<bool>,
    mouseButtonJustDown: seq<Option<Position>>,
    mouseButtonJustUp: seq<Option<Position>>,
    mouseButtonJustClicked: seq<Option<Position>>,
    mouseButtonWentDownPosition: seq<Option<Position>>,
    mouseButtonWentUpPosition: seq<Option<Position>>,
    mouseDragInProgress: seq<Option<DragState>>,
    mouseDragJustFinished: seq<Option<DragState>>)

  /** Every key table has one entry per key slot and every button table one per button slot. */
  predicate WellSized(s: Snapshot)
  {
    |s.keyIsDown| == KEYBOARD_BUTTON_COUNT &&
    |s.keyJustDown| == KEYBOARD_BUTTON_COUNT &&
    |s.keyJustUp| == KEYBOARD_BUTTON_COUNT &&
    |s.mouseButtonIsDown| == MOUSE_BUTTON_COUNT &&
    |s.mouseButtonJustDown| == MOUSE_BUTTON_COUNT &&
    |s.mouseButtonJustUp| == MOUSE_BUTTON_COUNT &&
    |s.mouseButtonJustClicked| == MOUSE_BUTTON_COUNT &&
    |s.mouseButtonWentDownPosition| == MOUSE_BUTTON_COUNT &&
    |s.mouseButtonWentUpPosition| == MOUSE_BUTTON_COUNT &&
    |s.mouseDragInProgress| == MOUSE_BUTTON_COUNT &&
    |s.mouseDragJustFinished| == MOUSE_BUTTON_COUNT
  }

  /**
   * What holds of one button slot in every state the handlers can reach: a
   * running drag belongs to a held button whose press position is known, every
   * drag (running or just finished) is balanced, and a "just down" / "just up"
   * position is the recorded press / release position.
   */
  predicate ButtonCoherent(s: Snapshot, i: nat)
    requires WellSized(s) && i < MOUSE_BUTTON_COUNT
  {
    (s.mouseDragInProgress[i].Some? ==>
       s.mouseButtonIsDown[i] &&
       s.mouseButtonWentDownPosition[i].Some? &&
       Balanced(s.mouseDragInProgress[i].value)) &&
    (s.mouseDragJustFinished[i].Some? ==> Balanced(s.mouseDragJustFinished[i].value)) &&
    (s.mouseButtonJustDown[i].Some? ==> s.mouseButtonWentDownPosition[i] == s.mouseButtonJustDown[i]) &&
    (s.mouseButtonJustUp[i].Some? ==> s.mouseButtonWentUpPosition[i] == s.mouseButtonJustUp[i]) &&
    (s.mouseButtonJustClicked[i].Some? ==> s.mouseButtonWentUpPosition[i].Some?)
  }

  predicate Coherent(s: Snapshot)
  {
    WellSized(s) && forall i: nat | i < MOUSE_BUTTON_COUNT :: ButtonCoherent(s, i)
  }

  /** The fields of button slot `i` are the same in `s` and `r`. */
  predicate SameButtonSlot(s: Snapshot, r: Snapshot, i: nat)
    requires WellSized(s) && WellSized(r) && i < MOUSE_BUTTON_COUNT
  {
    r.mouseButtonIsDown[i] == s.mouseButtonIsDown[i] &&
    r.mouseButtonJustDown[i] == s.mouseButtonJustDown[i] &&
    r.mouseButtonJustUp[i] == s.mouseButtonJustUp[i] &&
    r.mouseButtonJustClicked[i] == s.mouseButtonJustClicked[i] &&
    r.mouseButtonWentDownPosition[i] == s.mouseButtonWentDownPosition[i] &&
    r.mouseButtonWentUpPosition[i] == s.mouseButtonWentUpPosition[i] &&
    r.mouseDragInProgress[i] == s.mouseDragInProgress[i] &&
    r.mouseDragJustFinished[i] == s.mouseDragJustFinished[i]
  }

  /** `r` differs from `s` at most in button slot `i`. */
  predicate OnlyButtonSlotChanged(s: Snapshot, r: Snapshot, i: nat)
    requires WellSized(s) && WellSized(r) && i < MOUSE_BUTTON_COUNT
  {
    r.windowSize == s.windowSize && r.dpiFactor == s.dpiFactor &&
    r.keyIsDown == s.keyIsDown && r.keyJustDown == s.keyJustDown && r.keyJustUp == s.keyJustUp &&
    r.mousePosition == s.mousePosition &&
    forall j: nat | j < MOUSE_BUTTON_COUNT && j != i :: SameButtonSlot(s, r, j)
  }

  /** `r` differs from `s` at most in key slot `k`. */
  predicate OnlyKeySlotChanged(s: Snapshot, r: Snapshot, k: nat)
    requires WellSized(s) && WellSized(r) && k < KEYBOARD_BUTTON_COUNT
  {
    r == s.(keyIsDown := r.keyIsDown, keyJustDown := r.keyJustDown, keyJustUp := r.keyJustUp) &&
    forall j: nat | j < KEYBOARD_BUTTON_COUNT && j != k ::
      r.keyIsDown[j] == s.keyIsDown[j] &&
      r.keyJustDown[j] == s.keyJustDown[j] &&
      r.keyJustUp[j] == s.keyJustUp[j]
  }

  /** The state a new window starts with: nothing held, nothing pending, pointer at the origin. */
  function Initial(windowSize: Size, dpiFactor: real): (s: Snapshot)
    ensures Coherent(s)
    ensures s.windowSize == windowSize && s.dpiFactor == dpiFactor && s.mousePosition == ORIGIN
    ensures forall k: nat | k < KEYBOARD_BUTTON_COUNT ::
      !s.keyIsDown[k] && !s.keyJustDown[k] && !s.keyJustUp[k]
    ensures forall i: nat | i < MOUSE_BUTTON_COUNT ::
      !s.mouseButtonIsDown[i] &&
      s.mouseButtonJustDown[i].None? && s.mouseButtonJustUp[i].None? &&
      s.mouseButtonJustClicked[i].None? &&
      s.mouseButtonWentDownPosition[i].None? && s.mouseButtonWentUpPosition[i].None? &&
      s.mouseDragInProgress[i].None? && s.mouseDragJustFinished[i].None?
  {
    Snapshot(
      windowSize, dpiFactor,
      seq(KEYBOARD_BUTTON_COUNT, _ => false),
      seq(KEYBOARD_BUTTON_COUNT, _ => false),
      seq(KEYBOARD_BUTTON_COUNT, _ => false),
      ORIGIN,
      seq(MOUSE_BUTTON_COUNT, _ => false),
      seq(MOUSE_BUTTON_COUNT, _ => None),
      seq(MOUSE_BUTTON_COUNT, _ => None),
      seq(MOUSE_BUTTON_COUNT, _ => None),
      seq(MOUSE_BUTTON_COUNT, _ => None),
      seq(MOUSE_BUTTON_COUNT, _ => None),
      seq(MOUSE_BUTTON_COUNT, _ => None),
      seq(MOUSE_BUTTON_COUNT, _ => None))
  }

  /**
   * The frame boundary: every one-shot field of every key and button is
   * cleared and running drags forget their last delta; everything persistent
   * is kept.
   */
  function EndFrame(s: Snapshot): (r: Snapshot)
    requires WellSized(s)
    ensures WellSized(r)
    ensures forall k: nat | k < KEYBOARD_BUTTON_COUNT :: !r.keyJustDown[k] && !r.keyJustUp[k]
    ensures forall i: nat | i < MOUSE_BUTTON_COUNT ::
      r.mouseButtonJustDown[i].None? && r.mouseButtonJustUp[i].None? &&
      r.mouseButtonJustClicked[i].None? && r.mouseDragJustFinished[i].None?
    ensures forall i: nat | i < MOUSE_BUTTON_COUNT ::
      r.mouseDragInProgress[i] == ClearPreviousDelta(s.mouseDragInProgress[i])
    ensures r.windowSize == s.windowSize && r.dpiFactor == s.dpiFactor
    ensures r.keyIsDown == s.keyIsDown && r.mousePosition == s.mousePosition
    ensures r.mouseButtonIsDown == s.mouseButtonIsDown
    ensures r.mouseButtonWentDownPosition == s.mouseButtonWentDownPosition
    ensures r.mouseButtonWentUpPosition == s.mouseButtonWentUpPosition
  {
    s.(keyJustDown := seq(KEYBOARD_BUTTON_COUNT, _ => false),
       keyJustUp := seq(KEYBOARD_BUTTON_COUNT, _ => false),
       mouseButtonJustDown := seq(MOUSE_BUTTON_COUNT, _ => None),
       mouseButtonJustUp := seq(MOUSE_BUTTON_COUNT, _ => None),
       mouseButtonJustClicked := seq(MOUSE_BUTTON_COUNT, _ => None),
       mouseDragJustFinished := seq(MOUSE_BUTTON_COUNT, _ => None),
       mouseDragInProgress := seq(MOUSE_BUTTON_COUNT, i requires 0 <= i < MOUSE_BUTTON_COUNT =>
         ClearPreviousDelta(s.mouseDragInProgress[i])))
  }

  function HandleHidpiFactorChanged(s: Snapshot, dpiFactor: real): (r: Snapshot)
    ensures r.dpiFactor == dpiFactor
    ensures r.(dpiFactor := s.dpiFactor) == s
  {
    s.(dpiFactor := dpiFactor)
  }

  function HandleWindowSizeChanged(s: Snapshot, windowSize: Size): (r: Snapshot)
    ensures r.windowSize == windowSize
    ensures r.(windowSize := s.windowSize) == s
  {
    s.(windowSize := windowSize)
  }

  /**
   * A key press or release. A press of a key that was up marks it just down; a
   * release of a key that was down marks it just up; a repeated press or
   * release changes no one-shot flag. Keys without a slot change nothing.
   */
  function HandleKeyboardEvent(s: Snapshot, key: KeyCode, state: ElementState): (r: Snapshot)
    requires WellSized(s)
    ensures WellSized(r)
    ensures key >= KEYBOARD_BUTTON_COUNT ==> r == s
    ensures key < KEYBOARD_BUTTON_COUNT ==> OnlyKeySlotChanged(s, r, key)
    ensures key < KEYBOARD_BUTTON_COUNT && state == Pressed ==>
      r.keyIsDown[key] &&
      r.keyJustDown[key] == (s.keyJustDown[key] || !s.keyIsDown[key]) &&
      r.keyJustUp[key] == s.keyJustUp[key]
    ensures key < KEYBOARD_BUTTON_COUNT && state == Released ==>
      !r.keyIsDown[key] &&
      r.keyJustUp[key] == (s.keyJustUp[key] || s.keyIsDown[key]) &&
      r.keyJustDown[key] == s.keyJustDown[key]
  {
    match KeyboardButtonToIndex(key)
    case None => s
    case Some(kc) =>
      if state == Pressed then
        s.(keyJustDown := if !s.keyIsDown[kc] then s.keyJustDown[kc := true] else s.keyJustDown,
           keyIsDown := s.keyIsDown[kc := true])
      else
        s.(keyJustUp := if s.keyIsDown[kc] then s.keyJustUp[kc := true] else s.keyJustUp,
           keyIsDown := s.keyIsDown[kc := false])
  }

  /**
   * A button press or release at the current pointer position. A press records
   * the position as "just down" and as the press position. A release records it
   * as "just up" and as the release position, then either finishes the running
   * drag (advanced one last time to the release position) or, when there is
   * none, registers a click; no drag runs afterwards. Only the button's own
   * slot changes, and a button without a slot changes nothing.
   */
  function HandleMouseButtonEvent(s: Snapshot, button: MouseButton, state: ElementState): (r: Snapshot)
    requires WellSized(s)
    ensures WellSized(r)
    ensures MouseButtonToIndex(button).None? ==> r == s
    ensures MouseButtonToIndex(button).Some? ==>
      var i, p := MouseButtonToIndex(button).value, s.mousePosition;
      OnlyButtonSlotChanged(s, r, i) &&
      (state == Pressed ==>
         r.mouseButtonIsDown[i] &&
         r.mouseButtonJustDown[i] == Some(p) &&
         r.mouseButtonWentDownPosition[i] == Some(p) &&
         r.mouseButtonJustUp[i] == s.mouseButtonJustUp[i] &&
         r.mouseButtonJustClicked[i] == s.mouseButtonJustClicked[i] &&
         r.mouseButtonWentUpPosition[i] == s.mouseButtonWentUpPosition[i] &&
         r.mouseDragInProgress[i] == s.mouseDragInProgress[i] &&
         r.mouseDragJustFinished[i] == s.mouseDragJustFinished[i]) &&
      (state == Released ==>
         !r.mouseButtonIsDown[i] &&
         r.mouseButtonJustUp[i] == Some(p) &&
         r.mouseButtonWentUpPosition[i] == Some(p) &&
         r.mouseDragInProgress[i].None? &&
         r.mouseButtonJustDown[i] == s.mouseButtonJustDown[i] &&
         r.mouseButtonWentDownPosition[i] == s.mouseButtonWentDownPosition[i] &&
         (s.mouseDragInProgress[i].Some? ==>
            r.mouseDragJustFinished[i] == Some(AdvanceDrag(s.mouseDragInProgress[i].value, p)) &&
            r.mouseButtonJustClicked[i] == s.mouseButtonJustClicked[i]) &&
         (s.mouseDragInProgress[i].None? ==>
            r.mouseButtonJustClicked[i] == Some(p) &&
            r.mouseDragJustFinished[i] == s.mouseDragJustFinished[i]))
  {
    match MouseButtonToIndex(button)
    case None => s
    case Some(i) =>
      var p := s.mousePosition;
      match state
      case Pressed =>
        s.(mouseButtonJustDown := s.mouseButtonJustDown[i := Some(p)],
           mouseButtonIsDown := s.mouseButtonIsDown[i := true],
           mouseButtonWentDownPosition := s.mouseButtonWentDownPosition[i := Some(p)])
      case Released =>
        var released := s.(mouseButtonJustUp := s.mouseButtonJustUp[i := Some(p)],
                           mouseButtonIsDown := s.mouseButtonIsDown[i := false],
                           mouseButtonWentUpPosition := s.mouseButtonWentUpPosition[i := Some(p)]);
        var resolved := match s.mouseDragInProgress[i]
          case Some(inProgress) =>
            released.(mouseDragJustFinished := s.mouseDragJustFinished[i := Some(AdvanceDrag(inProgress, p))])
          case None =>
            released.(mouseButtonJustClicked := s.mouseButtonJustClicked[i := Some(p)]);
        resolved.(mouseDragInProgress := s.mouseDragInProgress[i := None])
  }

  /**
   * Pointer motion: the pointer position becomes `position`, and the drag
   * detector of every held button sees it; released buttons keep their state.
   */
  function HandleMouseMoveEvent(s: Snapshot, position: Position): (r: Snapshot)
    requires WellSized(s)
    ensures WellSized(r)
    ensures r.mousePosition == position
    ensures r.(mousePosition := s.mousePosition, mouseDragInProgress := s.mouseDragInProgress) == s
    ensures forall i: nat | i < MOUSE_BUTTON_COUNT && !s.mouseButtonIsDown[i] ::
      r.mouseDragInProgress[i] == s.mouseDragInProgress[i]
    ensures forall i: nat | i < MOUSE_BUTTON_COUNT && s.mouseButtonIsDown[i] ::
      r.mouseDragInProgress[i] ==
        DragOnMove(s.mouseDragInProgress[i], s.mouseButtonWentDownPosition[i], position)
  {
    s.(mousePosition := position,
       mouseDragInProgress := seq(MOUSE_BUTTON_COUNT, i requires 0 <= i < MOUSE_BUTTON_COUNT =>
         if s.mouseButtonIsDown[i] then
           DragOnMove(s.mouseDragInProgress[i], s.mouseButtonWentDownPosition[i], position)
         else
           s.mouseDragInProgress[i]))
  }

  /**
   * The window events the input state reacts to. A keyboard event may lack a
   * virtual key code; every event kind the input state does not handle is
   * `Ignored`.
   */
  datatype Event =
    | CloseRequested
    | HiDpiFactorChanged(hidpiFactor: real)
    | Resized(windowSize: Size)
    | KeyboardInput(virtualKeycode: Option<KeyCode>, state: ElementState)
    | MouseInput(state: ElementState, button: MouseButton)
    | CursorMoved(position: Position)
    | Ignored

  /**
   * Dispatch of one window event to its handler. A close request changes no
   * input state (the request to terminate is reported by the caller), and
   * neither does a keyboard event without a virtual key code.
   */
  function HandleEvent(s: Snapshot, event: Event): (r: Snapshot)
    requires WellSized(s)
    ensures WellSized(r)
    ensures event.CloseRequested? || event.Ignored? ==> r == s
    ensures event.KeyboardInput? && event.virtualKeycode.None? ==> r == s
    ensures event.HiDpiFactorChanged? ==> r == HandleHidpiFactorChanged(s, event.hidpiFactor)
    ensures event.Resized? ==> r == HandleWindowSizeChanged(s, event.windowSize)
    ensures event.KeyboardInput? && event.virtualKeycode.Some? ==>
      r == HandleKeyboardEvent(s, event.virtualKeycode.value, event.state)
    ensures event.MouseInput? ==> r == HandleMouseButtonEvent(s, event.button, event.state)
    ensures event.CursorMoved? ==> r == HandleMouseMoveEvent(s, event.position)
  {
    match event
    case CloseRequested => s
    case HiDpiFactorChanged(factor) => HandleHidpiFactorChanged(s, factor)
    case Resized(size) => HandleWindowSizeChanged(s, size)
    case KeyboardInput(vk, state) =>
      (match vk
       case Some(key) => HandleKeyboardEvent(s, key, state)
       case None => s)
    case MouseInput(state, button) => HandleMouseButtonEvent(s, button, state)
    case CursorMoved(position) => HandleMouseMoveEvent(s, position)
    case Ignored => s
  }

  /** Events of one frame, ingested in arrival order. */
  function HandleEvents(s: Snapshot, events: seq<Event>): (r: Snapshot)
    requires WellSized(s)
    ensures WellSized(r)
    decreases |events|
  {
    if events == [] then s else HandleEvents(HandleEvent(s, events[0]), events[1..])
  }
}
