/** The input one frame of the game sees: which keys are down now and were
    down last frame, the state of the two mouse buttons now and last frame,
    which on-screen buttons the cursor hovers, the cursor position, the pixel
    samples of the drag since last frame, whether the window is active, the
    timing test of the grid's update, and the random draws of a randomise. */
module Frames {
  import opened LifeRules

  datatype Key = Escape | Space | Delete | F5 | Right | Left | Enter

  /** The on-screen buttons of the two scenes that own a grid. */
  datatype ButtonId =
    | BackButton | PlayButton | PauseButton | ClearButton | RandomButton
    | FasterButton | SlowerButton | ResetButton | NextButton | PrevButton | SandboxButton

  /** The scenes a scene can ask the scene manager to fade to. */
  datatype SceneId = Title | Sim

  datatype Option<T> = None | Some(value: T)

  datatype Frame = Frame(
    keys: set<Key>,
    lastKeys: set<Key>,
    left: bool,
    lastLeft: bool,
    right: bool,
    lastRight: bool,
    hovered: set<ButtonId>,
    mouse: Point,
    /** The positions lastpos + dir * i, i = 0, 1, ... below the drag distance, as whole pixels. */
    samples: seq<Point>,
    windowActive: bool,
    /** Whether the grid's timing test lets a generation run this frame. */
    tickDue: bool,
    /** coin(y, x): whether the random draw for interior cell (y, x) makes it live. */
    coin: (int, int) -> bool)

  /** A key went down this frame. */
  predicate WasPressed(f: Frame, k: Key) {
    k in f.keys && k !in f.lastKeys
  }

  /** The left mouse button went down this frame. */
  predicate LeftPressed(f: Frame) {
    f.left && !f.lastLeft
  }

  /** The left mouse button is down and was down last frame. */
  predicate LeftHeld(f: Frame) {
    f.left && f.lastLeft
  }

  predicate RightPressed(f: Frame) {
    f.right && !f.lastRight
  }

  predicate RightHeld(f: Frame) {
    f.right && f.lastRight
  }

  /** Button b was let go of this frame: the cursor is over it and the left
      button was released. Whether b is disabled plays no part. */
  predicate ClickUp(f: Frame, b: ButtonId) {
    b in f.hovered && !f.left && f.lastLeft
  }

  /** A button's action fires on its key or on a click that ends over it. */
  predicate Fires(f: Frame, k: Key, b: ButtonId) {
    WasPressed(f, k) || ClickUp(f, b)
  }

  /** The play state after a frame's toggle: a Space press or a click on play
      resumes a paused grid; otherwise a Space press or a click on pause
      pauses a playing one. */
  function Toggled(paused: bool, f: Frame): (p: bool)
    ensures WasPressed(f, Space) ==> p == !paused
    ensures p != paused <==> (paused && Fires(f, Space, PlayButton)) || (!paused && Fires(f, Space, PauseButton))
  {
    if Fires(f, Space, PlayButton) && paused then false
    else if Fires(f, Space, PauseButton) && !paused then true
    else paused
  }

  /** The play and pause buttons are drawn over the same rectangle, so the
      cursor hovers both or neither; then any click that ends there, like a
      Space press, flips the play state. */
  lemma SharedControlToggles(paused: bool, f: Frame)
    requires PlayButton in f.hovered <==> PauseButton in f.hovered
    ensures ClickUp(f, PlayButton) || ClickUp(f, PauseButton) || WasPressed(f, Space) ==> Toggled(paused, f) == !paused
  {
  }
}
