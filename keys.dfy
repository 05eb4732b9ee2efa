/** Key codes of the host keyboard events the controller reacts to. */
module Keys {
  import opened FocusTree
  import opened Traversal

  const KEYBOARD_ALT := 0x12
  const KEYBOARD_CTRL := 0x11
  const KEYBOARD_META := 0x5b
  const KEYBOARD_SHIFT := 0x10
  const KEYBOARD_LEFT := 0x25
  const KEYBOARD_UP := 0x26
  const KEYBOARD_RIGHT := 0x27
  const KEYBOARD_DOWN := 0x28
  const KEYBOARD_ENTER := 0xd

  predicate IsArrowKey(code: int) {
    code in {KEYBOARD_LEFT, KEYBOARD_UP, KEYBOARD_RIGHT, KEYBOARD_DOWN}
  }

  /** The direction alias of an arrow key code; no direction for any other code. */
  function DirectionFromKey(code: int): (r: Option<Direction>)
    ensures r.Some? <==> IsArrowKey(code)
    ensures r == Some(Left) <==> code == 0x25
    ensures r == Some(Up) <==> code == 0x26
    ensures r == Some(Right) <==> code == 0x27
    ensures r == Some(Down) <==> code == 0x28
  {
    if code == KEYBOARD_LEFT then Some(Left)
    else if code == KEYBOARD_UP then Some(Up)
    else if code == KEYBOARD_RIGHT then Some(Right)
    else if code == KEYBOARD_DOWN then Some(Down)
    else None
  }
}
