# Input state of the skulpin application shell, in Dafny

This project models `InputState` from `src/app/input_state.rs`. `InputState`
turns the stream of window events into a snapshot that the application
queries once per frame. It keeps:

- persistent "is down" flags for 255 key slots and 7 pointer-button slots;
- one-shot fields ("just down", "just up", "just clicked", "drag just
  finished") that the frame reset clears;
- for each button, a drag detector. A drag starts once the pointer, while
  the button is held, is strictly more than 2.0 logical units from where the
  button went down. A running drag tracks its last delta and its total
  displacement.

Modules, leaf first:

- `Wrappers` (`wrappers.dfy`): `Option`.
- `Geometry` (`geometry.dfy`): logical `Position` and `Size` over `real`,
  `Add`, `Subtract`, and the drag-distance test.
- `InputIds` (`input_ids.dfy`): the slot counts, `MouseButton`, `KeyCode`,
  `ElementState`, and the total, bounds-checked maps from identifiers to
  slots.
- `Drag` (`drag.dfy`): `DragState` and the per-button detector (start,
  advance, frame reset of the last delta).
- `InputModel` (`input_model.dfy`): the whole state as a value (`Snapshot`).
  Each handler and the frame reset is a function from the snapshot before to
  the snapshot after. `Coherent` is the per-button invariant every reachable
  state satisfies.
- `InputProperties` (`input_properties.dfy`): lemmas that relate several
  transitions.
- `Input` (`input_state.dfy`): the class `InputState`. Like the original
  struct, it keeps one fixed-capacity array per field. Its handlers update
  the arrays in place. Each handler is proved to carry out the matching
  `InputModel` transition on the snapshot the arrays hold. Its class
  invariant `Valid()` covers the capacities, the distinctness of the arrays
  and `InputModel.Coherent`.

- The button handler takes no position argument. It records the stored
  pointer position (`src/app/input_state.rs:291`, `:297`, `:313`).
- As in the original struct, the button state is a set of parallel arrays,
  one per field.

## Model

| member | source | states |
|---|---|---|
| `Geometry.Add` | src/app/input_state.rs:490-495 | the component-wise sum; subtracting either summand gives back the other |
| `Geometry.AddSubtracted` | src/app/input_state.rs:497-502 | `Subtract(p0, p1)` is the displacement that, added to `p1`, reaches `p0`; it is zero exactly when the points are equal |
| `Geometry.Subtract` | src/app/input_state.rs:497-502 | the displacement from `p1` to `p0`: added to `p1` it reaches `p0`, and it is zero exactly when the points are equal |
| `Geometry.SquaredDistance` | src/app/input_state.rs:504-509 | the squared straight-line distance is never negative |
| `Geometry.DragDistanceMet` | src/app/input_state.rs:336-338 | the drag test: the squared distance is strictly above 4.0, whichever way it is measured; it never holds for two equal points (it equals the original's root test by `Geometry.DragDistanceMatchesRoot`) |
| `Geometry.DragDistanceMatchesRoot` | src/app/input_state.rs:336-338 | for the non-negative root `d` of the squared distance, the squared test against 4.0 holds exactly when `d > 2.0`, the original's comparison with `MIN_DRAG_DISTANCE` |
| `Geometry.NoDragWithoutMotion` | src/app/input_state.rs:17 | a pointer that has not moved never meets the drag distance |
| `InputIds.MouseButtonToIndex` | src/app/input_state.rs:466-479 | Left, Right and Middle map to slots 0, 1 and 2; an extra button numbered `x` maps to slot `x + 3`; every result is below 7; extra buttons numbered 4 or more have no slot and every other button has one |
| `InputIds.IndexToMouseButton` | src/app/input_state.rs:466-479 | every slot below 7 is the slot of some button (the inverse map round-trips) |
| `InputIds.MouseButtonIndexInjective` | src/app/input_state.rs:466-479 | two buttons with the same slot are the same button |
| `InputIds.KeyboardButtonToIndex` | src/app/input_state.rs:481-488 | a key has a slot exactly when its code is below 255, and that slot is the code itself |
| `Drag.StartDrag` | src/app/input_state.rs:339-346 | a new drag begins at the press position, ends at the pointer, and has equal last and total deltas; its total leads from begin to end |
| `Drag.AdvanceDrag` | src/app/input_state.rs:357-366 | keeps the begin position; the end becomes the pointer; the total grows by the new delta; the result is balanced; for a balanced drag the delta is the motion since its previous end |
| `Drag.DragOnMove` | src/app/input_state.rs:332-368 | a drag exists afterwards exactly when one was running, or when the press position is known and the pointer is past the threshold; a running drag is advanced to the pointer by `AdvanceDrag`, so it keeps its begin and its last delta is the motion not yet counted in its total; a new one starts at the press position with both deltas equal to pointer minus press position |
| `Drag.ClearPreviousDelta` | src/app/input_state.rs:244-248 | zeroes only the last delta of a running drag and keeps begin, end and total |
| `Drag.AdvanceDragAgain` | src/app/input_state.rs:357-366 | a second update to the same pointer position has a zero delta and leaves the total unchanged |
| `Drag.AdvanceAlongKeepsBegin` | src/app/input_state.rs:357-366 | over any series of motion updates a balanced drag keeps its begin, stays balanced, ends at the last point, and its total is the last point minus the begin |
| `InputModel.Initial` | src/app/input_state.rs:51-68 | the new state has the given size and scale factor, the pointer at the origin, no key or button down and every optional slot empty; it satisfies the per-button invariant |
| `InputModel.EndFrame` | src/app/input_state.rs:219-249 | clears every key and button one-shot field; running drags only lose their last delta; down flags, press and release positions, pointer position, size and scale factor are kept |
| `InputModel.HandleHidpiFactorChanged` | src/app/input_state.rs:251-253 | only the scale factor changes |
| `InputModel.HandleWindowSizeChanged` | src/app/input_state.rs:255-257 | only the window size changes |
| `InputModel.HandleKeyboardEvent` | src/app/input_state.rs:259-278 | a key without a slot changes nothing; otherwise only its slot changes: a press sets it down and sets "just down" exactly when it was up; a release sets it up and sets "just up" exactly when it was down |
| `InputModel.HandleMouseButtonEvent` | src/app/input_state.rs:280-321 | a button without a slot changes nothing; otherwise only its slot changes. A press records the pointer as "just down" and as the press position. A release records it as "just up" and as the release position and clears the running drag. With a drag running, the drag is finished (advanced to the pointer) and no click is recorded; without one, a click at the pointer is recorded and the finished drag is untouched |
| `InputModel.HandleMouseMoveEvent` | src/app/input_state.rs:323-371 | the pointer moves; the drag detector of each held button sees the new position; released buttons and every other field are untouched |
| `InputModel.HandleEvent` | src/app/input_state.rs:373-461 | each event kind reaches its handler; a close request, an ignored event and a keyboard event without a virtual key code change nothing |
| `InputProperties.EndFrameIdempotent` | src/app/input_state.rs:219-249 | ending a frame twice equals ending it once |
| `InputProperties.EndFrameKeepsCoherent` | src/app/input_state.rs:219-249 | the frame reset keeps the per-button invariant |
| `InputProperties.KeyboardKeepsCoherent` | src/app/input_state.rs:259-278 | key events keep the per-button invariant |
| `InputProperties.MouseButtonKeepsCoherent` | src/app/input_state.rs:280-321 | button events keep the per-button invariant: running drags belong to held buttons and stay balanced, and "just down" and "just up" agree with the recorded positions |
| `InputProperties.MouseMoveKeepsCoherent` | src/app/input_state.rs:323-371 | motion keeps the per-button invariant: every drag's begin plus total equals its end after each move |
| `InputProperties.HandleEventKeepsCoherent` | src/app/input_state.rs:373-461 | every window event keeps the per-button invariant |
| `InputProperties.HandleEventsKeepsCoherent` | src/app/input_state.rs:373-461 | any run of events, with or without the frame reset after it, keeps the per-button invariant |
| `InputProperties.ReleaseClicksOrFinishesDrag` | src/app/input_state.rs:296-317 | a release on a slot with clear one-shot fields sets exactly one of "just clicked" and "drag just finished": the second exactly when a drag was running; no drag runs afterwards |
| `InputProperties.DragBeginStable` | src/app/input_state.rs:357-366 | a running drag that survives any event, or the frame reset, keeps its begin position |
| `InputProperties.KeyPressThenEndFrame` | src/app/input_state.rs:264-270 | pressing a key that is up makes it down and just down; after the frame reset it is still down and no longer just down |
| `InputProperties.OutOfRangeKeyIgnored` | src/app/input_state.rs:481-488 | a key code of 255 or more changes nothing |
| `InputProperties.OutOfRangeButtonIgnored` | src/app/input_state.rs:466-479 | an extra button whose slot would be 7 or more changes nothing |
| `InputProperties.PressReleaseIsClick` | src/app/input_state.rs:290-317 | press then release with no motion between them gives a click at the pointer and no finished drag |
| `InputProperties.SmallMoveStartsNoDrag` | src/app/input_state.rs:333-355 | after a press, motion that stays within the threshold starts no drag |
| `InputProperties.LeftDragTrace` | src/app/input_state.rs:296-366 | press at (5, 5), then a move to (5, 5.5): no drag. A move to (20, 20) starts a drag from (5, 5). The release there finishes it with total (15, 15) and last delta zero, and records no click |
| `Input.ClearFlags` | src/app/input_state.rs:220-226 | every flag of the array is false afterwards |
| `Input.ClearOptions` | src/app/input_state.rs:228-242 | every slot of the array is empty afterwards |
| `Input.InputState.constructor` | src/app/input_state.rs:51-68 | the new object is valid and holds `InputModel.Initial` for the given size and scale factor |
| `Input.InputState.WindowSize` | src/app/input_state.rs:73-75 | returns the stored window size |
| `Input.InputState.DpiFactor` | src/app/input_state.rs:77-79 | returns the stored scale factor |
| `Input.InputState.IsKeyDown` | src/app/input_state.rs:81-87 | true exactly for a key code below 255 whose slot is down; false for every other code |
| `Input.InputState.IsKeyJustDown` | src/app/input_state.rs:89-95 | true exactly for a key code below 255 whose slot went down this frame |
| `Input.InputState.IsKeyJustUp` | src/app/input_state.rs:97-103 | true exactly for a key code below 255 whose slot went up this frame |
| `Input.InputState.MousePosition` | src/app/input_state.rs:105-107 | returns the stored pointer position |
| `Input.InputState.IsMouseDown` | src/app/input_state.rs:109-115 | true exactly for a button with a slot that is down |
| `Input.InputState.IsMouseJustDown` | src/app/input_state.rs:117-123 | agrees with whether `MouseJustDownPosition` is present |
| `Input.InputState.MouseJustDownPosition` | src/app/input_state.rs:125-131 | the button slot's "just down" position, none for a button without a slot; when present it equals the press position |
| `Input.InputState.IsMouseJustUp` | src/app/input_state.rs:133-139 | agrees with whether `MouseJustUpPosition` is present |
| `Input.InputState.MouseJustUpPosition` | src/app/input_state.rs:141-147 | the slot's "just up" position, none for a button without a slot; when present it equals the release position |
| `Input.InputState.IsMouseButtonJustClicked` | src/app/input_state.rs:149-155 | agrees with whether `MouseButtonJustClickedPosition` is present |
| `Input.InputState.MouseButtonJustClickedPosition` | src/app/input_state.rs:157-166 | the slot's click position, none for a button without a slot; a click always has a recorded release |
| `Input.InputState.MouseButtonWentDownPosition` | src/app/input_state.rs:168-174 | the slot's press position, none for a button without a slot |
| `Input.InputState.MouseButtonWentUpPosition` | src/app/input_state.rs:176-182 | the slot's release position, none for a button without a slot |
| `Input.InputState.IsMouseDragInProgress` | src/app/input_state.rs:184-190 | agrees with whether `MouseDragInProgress` is present |
| `Input.InputState.MouseDragInProgress` | src/app/input_state.rs:192-198 | the slot's running drag, none for a button without a slot; a running drag belongs to a held button with a known press position and is balanced |
| `Input.InputState.IsMouseDragJustFinished` | src/app/input_state.rs:200-206 | agrees with whether `MouseDragJustFinished` is present |
| `Input.InputState.MouseDragJustFinished` | src/app/input_state.rs:208-214 | the slot's finished drag, none for a button without a slot; a finished drag is balanced |
| `Input.InputState.EndFrame` | src/app/input_state.rs:219-249 | clears the arrays in place and leaves exactly `InputModel.EndFrame` of the previous snapshot; stays valid |
| `Input.InputState.HandleHidpiFactorChanged` | src/app/input_state.rs:251-253 | the new snapshot is `InputModel.HandleHidpiFactorChanged` of the old one |
| `Input.InputState.HandleWindowSizeChanged` | src/app/input_state.rs:255-257 | the new snapshot is `InputModel.HandleWindowSizeChanged` of the old one |
| `Input.InputState.HandleKeyboardEvent` | src/app/input_state.rs:259-278 | updates the key arrays in place to `InputModel.HandleKeyboardEvent` of the old snapshot; stays valid |
| `Input.InputState.HandleMouseButtonEvent` | src/app/input_state.rs:280-321 | updates the button arrays in place to `InputModel.HandleMouseButtonEvent` of the old snapshot; stays valid |
| `Input.InputState.PressButton` | src/app/input_state.rs:290-295 | the press branch of the button handler on one slot: the snapshot becomes the press transition of that slot's button |
| `Input.InputState.ReleaseButton` | src/app/input_state.rs:296-318 | the release branch on one slot: the snapshot becomes the release transition of that slot's button |
| `Input.MoveDrags` | src/app/input_state.rs:327-370 | after the loop over the slots, each held button's drag is the detector's answer for its old drag, its press position and the new pointer; released buttons' drags are unchanged |
| `Input.InputState.HandleMouseMoveEvent` | src/app/input_state.rs:323-371 | sets the pointer, then updates the drag of each held button in a loop over the 7 slots; the result is `InputModel.HandleMouseMoveEvent` of the old snapshot |
| `Input.InputState.HandleEvent` | src/app/input_state.rs:373-461 | dispatches to the handlers; the snapshot becomes `InputModel.HandleEvent` of the old one; the termination flag is set exactly for a close request |

## Left out

- Platform types. The windowing library's event, key-code, button, position
  and size types are replaced by local types. A virtual key code is its
  numeric discriminant, and an extra button carries an 8-bit number.
  Event kinds that the input state does not handle collapse into `Ignored`.
- Window queries. The window queries in `new` (`src/app/input_state.rs:51-54`)
  become constructor parameters.
- Termination request. The call to the application control object on a close
  request (`src/app/input_state.rs:457-460`) is the `terminateRequested`
  result of `Input.InputState.HandleEvent`.
- The `trace!` logging in the dispatch.
- The event-loop window target parameter, which the original never uses.
- Floating point. Positions, sizes and the scale factor are `real`, so the
  double-precision rounding of the original is not modelled. In particular,
  "begin plus total equals end" (`Drag.Balanced`) holds exactly here. With
  doubles it holds only up to rounding.
- Geometry.SquaredDistance: `distance` itself (`src/app/input_state.rs:504-509`)
  takes a square root, which has no `real` counterpart here. The model compares
  the squared distance with 4.0, and `Geometry.DragDistanceMatchesRoot` proves
  that this agrees with comparing the root with 2.0.
- The `assert!` at `src/app/input_state.rs:286` is not a separate step.
  `InputIds.MouseButtonToIndex` proves that every slot it returns is below 7,
  so the assertion cannot fail.
- src/renderer/device.rs and src/renderer/skia_support.rs are not part of
  this model. They select a graphics device and bridge to the 2D renderer
  through foreign calls, and hold no input state.
