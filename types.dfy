/** Values shared by the live-collaboration surface: the local interaction mode,
    points on the surface, reactions on the timeline and the broadcast payload. */
module LiveTypes {

  datatype Option<+T> = None | Some(value: T)

  /** A point relative to the interaction surface's top-left corner. */
  datatype Point = Point(x: int, y: int)

  /** The local interaction mode: exactly one variant is active at a time. */
  datatype CursorState =
    | Hidden
    | Chat(previousMessage: Option<string>, message: string)
    | ReactionSelector
    | Reaction(reaction: string, isPressed: bool)

  /** One emoji burst shown on the surface, local or received from the room. */
  datatype ReactionInstance = ReactionInstance(point: Point, value: string, timestamp: int)

  /** The ephemeral event broadcast to, and received from, the other participants. */
  datatype ReactionEvent = ReactionEvent(x: int, y: int, value: string)
}
