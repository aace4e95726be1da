/** The Live component's non-rendering state and its handlers: the pointer and
    keyboard handlers, the prune and emit intervals, the inbound-event listener,
    the reaction picker's callback and the context-menu dispatcher. */
module LiveComponent {
  import opened LiveTypes
  import opened Timeline
  import opened Cursor

  class Live {
    /** The local interaction mode (`cursorState`). */
    var mode: CursorState
    /** This participant's presence, updated field by field. */
    var cursor: Option<Point>
    var message: Option<string>
    /** The reactions on screen, in the order they were added. */
    var reactions: seq<ReactionInstance>
    /** Every reaction broadcast to the room so far. */
    var broadcasts: seq<ReactionEvent>
    /** How often the external undo and redo commands were invoked. */
    var undoCount: nat
    var redoCount: nat

    /** A fresh component: Hidden mode, empty timeline; the initial presence
        is whatever the room starts this participant with. */
    constructor (initialCursor: Option<Point>, initialMessage: Option<string>)
      ensures mode == Hidden && cursor == initialCursor && message == initialMessage
      ensures reactions == [] && broadcasts == []
      ensures undoCount == 0 && redoCount == 0
    {
      mode := Hidden;
      cursor, message := initialCursor, initialMessage;
      reactions, broadcasts := [], [];
      undoCount, redoCount := 0, 0;
    }

    /** The 1000 ms interval: drop the reactions older than the visibility window. */
    method PruneTick(now: int)
      modifies this`reactions
      ensures reactions == Prune(old(reactions), now)
      ensures forall r :: r in reactions <==> r in old(reactions) && IsVisible(r, now)
      ensures IsSubsequence(reactions, old(reactions))
    {
      PruneIsSubsequence(reactions, now);
      reactions := Prune(reactions, now);
    }

    /** The 100 ms interval: while the pointer is held in Reaction mode over the
        surface, add one reaction at the cursor and broadcast it. */
    method EmitTick(now: int)
      modifies this`reactions, this`broadcasts
      ensures Feed(reactions, broadcasts) == EmitStep(Feed(old(reactions), old(broadcasts)), mode, cursor, now)
      ensures Emitting(mode, cursor) ==>
                && reactions == old(reactions) + [ReactionInstance(cursor.value, mode.reaction, now)]
                && broadcasts == old(broadcasts) + [ReactionEvent(cursor.value.x, cursor.value.y, mode.reaction)]
      ensures !Emitting(mode, cursor) ==> reactions == old(reactions) && broadcasts == old(broadcasts)
    {
      var fed := EmitStep(Feed(reactions, broadcasts), mode, cursor, now);
      reactions, broadcasts := fed.reactions, fed.broadcasts;
    }

    /** A reaction event received from the room is shown locally, stamped with
        the local time, whatever the current mode. */
    method OnReactionEvent(event: ReactionEvent, now: int)
      modifies this`reactions
      ensures reactions == old(reactions) + [ReactionInstance(Point(event.x, event.y), event.value, now)]
      ensures mode == old(mode) && cursor == old(cursor) && message == old(message)
      ensures broadcasts == old(broadcasts)
    {
      reactions := reactions + [ReactionInstance(Point(event.x, event.y), event.value, now)];
    }

    /** Pointer move: track the cursor, except while the reaction picker is open
        and a cursor is already shown. */
    method HandlePointerMove(clientX: int, clientY: int, originX: int, originY: int)
      modifies this`cursor
      ensures mode == old(mode) && message == old(message)
      ensures old(cursor).None? || !mode.ReactionSelector? ==>
                cursor == Some(SurfacePoint(clientX, clientY, originX, originY))
      ensures old(cursor).Some? && mode.ReactionSelector? ==> cursor == old(cursor)
    {
      if cursor.None? || !mode.ReactionSelector? {
        cursor := Some(SurfacePoint(clientX, clientY, originX, originY));
      }
    }

    /** Pointer leaves the surface: hide everything, from any mode. */
    method HandlePointerLeave()
      modifies this`mode, this`cursor, this`message
      ensures mode == Hidden && cursor == None && message == None
    {
      mode := Hidden;
      cursor, message := None, None;
    }

    /** Pointer down: move the cursor to the pointer and, in Reaction mode, start pressing. */
    method HandlePointerDown(clientX: int, clientY: int, originX: int, originY: int)
      modifies this`cursor, this`mode
      ensures cursor == Some(SurfacePoint(clientX, clientY, originX, originY))
      ensures message == old(message)
      ensures old(mode).Reaction? ==> mode == Reaction(old(mode).reaction, true)
      ensures !old(mode).Reaction? ==> mode == old(mode)
    {
      cursor := Some(SurfacePoint(clientX, clientY, originX, originY));
      mode := WithPressed(mode, true);
    }

    /** Pointer up: in Reaction mode, stop pressing; the presence is not touched. */
    method HandlePointerUp()
      modifies this`mode
      ensures cursor == old(cursor) && message == old(message)
      ensures old(mode).Reaction? ==> mode == Reaction(old(mode).reaction, false)
      ensures !old(mode).Reaction? ==> mode == old(mode)
    {
      mode := WithPressed(mode, false);
    }

    /** Global key-up shortcuts: `/` opens chat, `Escape` hides and blanks the
        message, `e` opens the reaction picker; other keys do nothing. */
    method OnKeyUp(key: string)
      modifies this`mode, this`message
      ensures cursor == old(cursor)
      ensures key == "/" ==> mode == Chat(None, "") && message == old(message)
      ensures key == "Escape" ==> mode == Hidden && message == Some("")
      ensures key == "e" ==> mode == ReactionSelector && message == old(message)
      ensures key != "/" && key != "Escape" && key != "e" ==>
                mode == old(mode) && message == old(message)
    {
      if key == "/" {
        mode := Chat(None, "");
      } else if key == "Escape" {
        message := Some("");
        mode := Hidden;
      } else if key == "e" {
        mode := ReactionSelector;
      }
    }

    /** Global key-down: only `/` has its default action suppressed, so that it
        never reaches a text field; no state changes. */
    method OnKeyDown(key: string) returns (preventDefault: bool)
      ensures preventDefault <==> key == "/"
    {
      preventDefault := key == "/";
    }

    /** The reaction picker's callback: enter Reaction mode, not pressed. */
    method SetReactions(reaction: string)
      modifies this`mode
      ensures mode == Reaction(reaction, false)
    {
      mode := Reaction(reaction, false);
    }

    /** The context menu: `Chat` and `Reactions` switch mode as `/` and `e` do,
        `Undo` and `Redo` invoke the external commands, anything else is ignored. */
    method HandleContextMenuClick(key: string)
      modifies this`mode, this`undoCount, this`redoCount
      ensures cursor == old(cursor) && message == old(message)
      ensures key == "Chat" ==>
                mode == Chat(None, "") && undoCount == old(undoCount) && redoCount == old(redoCount)
      ensures key == "Undo" ==>
                mode == old(mode) && undoCount == old(undoCount) + 1 && redoCount == old(redoCount)
      ensures key == "Redo" ==>
                mode == old(mode) && undoCount == old(undoCount) && redoCount == old(redoCount) + 1
      ensures key == "Reactions" ==>
                mode == ReactionSelector && undoCount == old(undoCount) && redoCount == old(redoCount)
      ensures key != "Chat" && key != "Undo" && key != "Redo" && key != "Reactions" ==>
                mode == old(mode) && undoCount == old(undoCount) && redoCount == old(redoCount)
    {
      match key
      case "Chat" => mode := Chat(None, "");
      case "Undo" => undoCount := undoCount + 1;
      case "Redo" => redoCount := redoCount + 1;
      case "Reactions" => mode := ReactionSelector;
      case _ =>
    }
  }

  /** Pointer down then up at a point, in unpressed Reaction mode: the cursor
      moves to the point, the press is recorded, and the release restores the
      mode while leaving the cursor where it was. */
  method PressAndRelease(live: Live, value: string)
    requires live.mode == Reaction(value, false)
    modifies live`mode, live`cursor
    ensures live.mode == Reaction(value, false)
    ensures live.cursor == Some(Point(10, 20))
  {
    live.HandlePointerDown(10, 20, 0, 0);
    assert live.mode == Reaction(value, true);
    live.HandlePointerUp();
  }
}
