/**
 * Identifiers of keys and pointer buttons, and the total, bounds-checked maps
 * from them to slots of the fixed-capacity state arrays.
 */
module InputIds {

  import opened Wrappers

  const KEYBOARD_BUTTON_COUNT: nat := 255
  const MOUSE_BUTTON_COUNT: nat := 7

  /** A platform virtual key code, given by its numeric discriminant. */
  type KeyCode = nat

  type U8 = x: int | 0 <= x < 256

  /** Pointer buttons: the three named ones and extra device buttons by number. */
  datatype MouseButton = Left | Right | Middle | Other(id: U8)

  datatype ElementState = Pressed | Released

  /**
   * Left, Right and Middle take slots 0, 1 and 2; extra button `x` takes slot
   * `x + 3`. Buttons whose slot would be 7 or more have none.
   */
  function MouseButtonToIndex(button: MouseButton): (r: Option<nat>)
    ensures r.Some? ==> r.value < MOUSE_BUTTON_COUNT
    ensures r.None? <==> button.Other? && button.id + 3 >= MOUSE_BUTTON_COUNT
    ensures button == Left ==> r == Some(0)
    ensures button == Right ==> r == Some(1)
    ensures button == Middle ==> r == Some(2)
    ensures button.Other? && r.Some? ==> r.value == button.id + 3
  {
    var index := match button
      case Left => 0
      case Right => 1
      case Middle => 2
      case Other(x) => x + 3;
    if index >= MOUSE_BUTTON_COUNT then None else Some(index)
  }

  /** The button that owns slot `i`: the inverse of MouseButtonToIndex on its range. */
  function IndexToMouseButton(i: nat): (button: MouseButton)
    requires i < MOUSE_BUTTON_COUNT
    ensures MouseButtonToIndex(button) == Some(i)
  {
    if i == 0 then Left
    else if i == 1 then Right
    else if i == 2 then Middle
    else Other(i - 3)
  }

  /** Two distinct buttons never share a slot. */
  lemma MouseButtonIndexInjective(a: MouseButton, b: MouseButton)
    requires MouseButtonToIndex(a).Some? && MouseButtonToIndex(a) == MouseButtonToIndex(b)
    ensures a == b
  {
  }

  /** Key codes below the capacity map to themselves; the others have no slot. */
  function KeyboardButtonToIndex(key: KeyCode): (r: Option<nat>)
    ensures r.Some? <==> key < KEYBOARD_BUTTON_COUNT
    ensures r.Some? ==> r.value == key
  {
    if key >= KEYBOARD_BUTTON_COUNT then None else Some(key)
  }
}
