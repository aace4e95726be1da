# Live presence and reaction state machine

A model of the non-rendering logic of the `Live` component of a collaborative
canvas (`components/Live.tsx`). The component tracks the local participant's
interaction mode (`CursorState`: Hidden, Chat, ReactionSelector or Reaction)
and presence (`cursor`, `message`). It also keeps a timeline of emoji
reactions that are pruned after 4000 ms, fed by a 100 ms emit interval while
the pointer is held in Reaction mode, and fed by reaction events broadcast by
other participants. It dispatches the context-menu commands `Chat`, `Undo`,
`Redo` and `Reactions`.

Layout:

- `types.dfy` (module `LiveTypes`): the values (points, `CursorState`, reaction instances, the broadcast payload).
- `timeline.dfy` (module `Timeline`): the prune filter and the emit tick as functions, with lemmas about them. The lemmas cover exact filtering, order, batching of prune ticks, the 4000/5000 ms visibility bounds and emission while held.
- `cursor.dfy` (module `Cursor`): the surface-relative point and the `isPressed` spread update.
- `live.dfy` (module `LiveComponent`): class `Live`. Its fields are the mode, the presence, the reaction list, a log of broadcasts and undo/redo counters. It has one method per handler, and each method states the whole new state.

The rest of the system enters the model as parameters:
- The clock (`Date.now()`) is a `now` parameter.
- The pointer's client position and the surface's bounding-box origin are integer parameters.
- A broadcast is appended to the `broadcasts` log.
- The external `undo`/`redo` callbacks are counters.
- A presence update assigns only the fields it names, matching the partial-merge semantics of `updateMyPresence`.

## Model

| member | source | states |
|---|---|---|
| Timeline.Prune | components/Live.tsx:37-39 | the prune step never grows the list, and a reaction is kept exactly when it was in the list and its timestamp is later than `now - 4000` |
| Timeline.PruneSelectsVisible | components/Live.tsx:38 | pruning is exactly the filter: the result sits in the input at increasing positions, and a position is selected if and only if its reaction is still visible |
| Timeline.PruneIsSubsequence | components/Live.tsx:38 | the pruned list is a subsequence of the old one (no reordering, no additions) |
| Timeline.PruneTwice | components/Live.tsx:37-39 | two prune ticks equal one prune tick at the later time |
| Timeline.PruneAppend | components/Live.tsx:38-50 | pruning distributes over appending, so reactions appended later stay behind older ones after a prune |
| Timeline.PruneAllIsLatest | components/Live.tsx:37-39 | any series of prune ticks removes exactly what the latest tick alone removes |
| Timeline.VisibleThroughWindow | components/Live.tsx:37-39 | a reaction survives every prune tick that fires less than 4000 ms after its timestamp |
| Timeline.GoneAfterWindowAndPeriod | components/Live.tsx:37-39 | if the prune tick fired within the last 1000 ms, no reaction 5000 ms old or older remains |
| Timeline.EmitStep | components/Live.tsx:42-56 | in pressed Reaction mode with a cursor, one firing appends exactly one reaction `{cursor, value, now}` and one broadcast whose `{x, y, value}` are that reaction's point and value; otherwise the reactions and broadcasts are returned unchanged; the old contents always stay in front |
| Timeline.HeldPointerEmitsEveryTick | components/Live.tsx:41-58 | in pressed Reaction mode with a cursor, n emit ticks append exactly n reactions, each at the cursor with the chosen value and its tick's time, and n broadcasts of `{x, y, value}`, after the old contents |
| Timeline.IdleEmitsNothing | components/Live.tsx:41-58 | outside pressed Reaction mode, or without a cursor, emit ticks change neither the reactions nor the broadcasts |
| Timeline.OneSecondHeld | components/Live.tsx:41-58 | holding the pointer for 1000 ms adds exactly ten reactions at the cursor with the chosen value, timed within that second, and ten equal broadcasts |
| Cursor.SurfacePoint | components/Live.tsx:76-77 | the surface point plus the bounding-box origin is the client point |
| Cursor.WithPressed | components/Live.tsx:91-100 | the `isPressed` update keeps the Reaction variant and its value and sets only `isPressed`; any other mode is returned unchanged |
| LiveComponent.Live.constructor | components/Live.tsx:30-34 | the component starts in Hidden mode with an empty timeline and the given presence |
| LiveComponent.Live.PruneTick | components/Live.tsx:37-39 | the reaction list becomes its visible subsequence at `now` |
| LiveComponent.Live.EmitTick | components/Live.tsx:41-58 | in pressed Reaction mode with a cursor, one reaction `{cursor, value, now}` and one broadcast `{x, y, value}` are appended; otherwise neither list changes |
| LiveComponent.Live.OnReactionEvent | components/Live.tsx:60-71 | an inbound event appends exactly one reaction `{(x, y), value, now}`; the mode, the presence and the broadcasts are unchanged |
| LiveComponent.Live.HandlePointerMove | components/Live.tsx:73-80 | the mode never changes; the cursor becomes the surface-relative point exactly when there was no cursor or the mode is not ReactionSelector, and is otherwise untouched |
| LiveComponent.Live.HandlePointerLeave | components/Live.tsx:82-85 | from any state: Hidden mode, cursor and message both null |
| LiveComponent.Live.HandlePointerDown | components/Live.tsx:87-95 | the cursor always becomes the surface-relative point; Reaction mode becomes pressed with the same value; any other mode is unchanged |
| LiveComponent.Live.HandlePointerUp | components/Live.tsx:97-101 | Reaction mode becomes unpressed with the same value; any other mode is unchanged; the presence is not touched |
| LiveComponent.Live.OnKeyUp | components/Live.tsx:104-119 | `/` gives Chat with no previous message and an empty message; `Escape` gives Hidden and sets the presence message to the empty string; `e` gives ReactionSelector; any other key changes nothing; the cursor never changes |
| LiveComponent.Live.OnKeyDown | components/Live.tsx:121-125 | the default action is suppressed exactly for `/`, and no state changes |
| LiveComponent.Live.SetReactions | components/Live.tsx:136-138 | the picker's choice gives Reaction mode with that value, not pressed |
| LiveComponent.Live.HandleContextMenuClick | components/Live.tsx:140-163 | `Chat` and `Reactions` give the same modes as `/` and `e`; `Undo` and `Redo` each add one to their own counter only; any other key changes nothing; the presence never changes |
| LiveComponent.PressAndRelease | components/Live.tsx:87-101 | pointer down at (10, 20) and then pointer up in unpressed Reaction mode leave the mode as it was and the cursor at (10, 20) |

## Left out

- Rendering (components/Live.tsx:165-223): flying reactions, cursor chat, the reaction picker, live cursors and the context-menu UI are pure display.
- The real-time transport (`useOthers`, `useMyPresence`, `useBroadcastEvent`, `useEventListener`). Presence is two local fields with partial updates. A broadcast is an entry appended to a log. An inbound event is a method call. `useOthers` feeds only rendering.
- Timer scheduling (`useInterval`) and the registration and removal of window listeners. Each tick and each event is one method call, with the time as a parameter.
- DOM geometry and `preventDefault`: the client point and the bounding-box origin are parameters. Key-down returns whether the default is suppressed. The unconditional `preventDefault` in pointer move has no state effect and is not modelled.
- Timeline.Prune: one clock reading `now` serves the whole prune step. The filter at components/Live.tsx:38 calls `Date.now()` once per element, and the emit step and the inbound-event handler read `Date.now()` inside the `setReaction` updater (components/Live.tsx:48, 68), which runs when the update is processed, not at the tick. These readings differ by milliseconds and never decrease, so a single reading per step changes at most the tick at which a reaction on the 4000 ms boundary is dropped. PruneTwice and PruneAllIsLatest rely on this single threshold.
- The initial presence is set by the room configuration, which is not part of this model. The constructor takes it as a parameter.
- Floating-point pointer coordinates: coordinates are integers.
- The undo and redo implementations are external callbacks, counted as invocations.
- LiveComponent.Live.HandlePointerMove: the condition is checked against the current cursor and mode. It does not model the source's hook capture: the handler has empty dependencies (components/Live.tsx:80), so it reads the `cursor` and `cursorState` of the first render. That first render's mode is always Hidden (components/Live.tsx:31-33), so in the program the condition at components/Live.tsx:75 is always true: pointer move always updates the cursor, and the suppression while the reaction picker is open never takes effect. The model follows the intended behaviour, not this one.
- LiveComponent.Live.HandlePointerDown: the condition reads the current mode, not the mode captured when the handler was created (components/Live.tsx:92). The same holds for HandlePointerUp (components/Live.tsx:99).
- LiveComponent.Live.OnKeyUp: `Escape` sets the message to the empty string (components/Live.tsx:112) and leaves the cursor as it is. It does not clear the presence to null.
