/**
 The answers the panel gives to the pan responder's two capture questions:
 may this touch start a drag, and may this movement become one.
 */
module Capture {

  function Abs(x: real): real { if x < 0.0 then -x else x }

  /** A touch is captured at its start exactly when dragging is enabled. */
  function StartShouldSet(disableDragging: bool): bool
  {
    !disableDragging
  }

  /**
   A movement is captured when dragging is enabled and it leaves a dead
   zone of one unit; once the panel is at or past the fully-open bound
   (`y <= -height`) only a movement towards closing (`dy > 1`) is captured.
   Equivalently: a positive movement past the dead zone is always captured,
   a negative one only while the panel is short of the open bound.
   */
  function MoveShouldSet(disableDragging: bool, y: real, height: real, dy: real): (r: bool)
    ensures r <==> !disableDragging && (dy > 1.0 || (dy < -1.0 && y > -height))
    ensures y <= -height && dy <= 1.0 ==> !r
  {
    if disableDragging then false
    else if y <= -height then dy > 1.0
    else Abs(dy) > 1.0
  }
}
