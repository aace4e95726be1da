/** The pure state updates used by the pointer handlers. */
module Cursor {
  import opened LiveTypes

  /** The client point translated into the surface's coordinates, given the
      origin of the surface's bounding box. */
  function SurfacePoint(clientX: int, clientY: int, originX: int, originY: int): (p: Point)
    ensures p.x + originX == clientX && p.y + originY == clientY
  {
    Point(clientX - originX, clientY - originY)
  }

  /** The spread update `{ ...state, isPressed }` taken only in Reaction mode;
      every other mode is returned as it is. */
  function WithPressed(s: CursorState, pressed: bool): (t: CursorState)
    ensures t.Reaction? <==> s.Reaction?
    ensures s.Reaction? ==> t.reaction == s.reaction && t.isPressed == pressed
    ensures !s.Reaction? ==> t == s
  {
    if s.Reaction? then s.(isPressed := pressed) else s
  }
}
