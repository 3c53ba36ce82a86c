# Collaborative canvas server: operation log and room registry

This project models the server-side state engine of a real-time collaborative
drawing service and proves properties of it in Dafny. The engine has two
in-memory, sequential parts.

- **Operation log (`DrawingState`, one per room).** An append-only sequence of
  stroke operations. Each operation has a room-local id and an `undone` flag.
  Undo and redo act on one global stack. Undo hides the most recently appended
  entry that is still visible. Redo re-shows the *oldest* hidden entry. What
  clients see, the active strokes, is the payload of every entry that is not
  undone, in log order. `clear` empties the log and restarts ids at 1.
- **Room registry (`RoomManager`).** A map from room id to a room. A room holds
  its users, keyed by connection id in insertion order, and one operation log.
  Some accessors create rooms lazily. `removeUser` deletes a room when it leaves
  the room without users. Colours come from an 8-entry palette. The palette is
  indexed by one counter shared by every room.

Every operation is a pure function. It returns the new state together with what
the JavaScript method returns. Where JavaScript hands back a live object (the op
from `undo`/`redo`, the room from `addUser`, the log from
`getRoomDrawingState`), the model returns its value.

Files:

- `options.dfy` holds `Option`, which stands in for `null` results.
- `insertion_map.dfy` models the JavaScript `Map` that holds a room's users. Its
  keys are distinct and it iterates in first-insertion order. `set` on a key
  that is already present overwrites the value in place.
- `decimal.dfy` models the template literal `${n}` used for default user names,
  together with its inverse.
- `drawing_state.dfy` and `drawing_state_properties.dfy` model the operation log
  and prove its properties.
- `rooms.dfy` and `rooms_properties.dfy` model the room registry and prove its
  properties.

Modelling choices:

- The stroke payload is a type parameter `S`, because the server never looks
  inside it.
- The creation timestamp (`Date.now()`) is a parameter `now` of `AddStroke`.
- Cursor positions are `Point(x: real, y: real)`, because the server stores
  whatever the client sends. The initial cursor is the origin.
- A username is falsy exactly when it is the empty string.
- `Valid` is the invariant of a log: the ids are `1..n` in log order and the
  counter is `n + 1`. A fresh log and a cleared log satisfy it, and every
  operation preserves it. It implies that ids strictly increase and stay below
  the counter.
- `Wf` is the invariant of the registry. Each room is filed under its own id,
  each user under its own id, and each log is `Valid`. Every registry operation
  preserves it.
- A registry may hold a room with no users. `getRoomDrawingState`, which the
  stroke, undo, redo and clear handlers call, creates a room for any id, and
  only `removeUser` ever deletes one. So "every room has a user" is not an
  invariant, and the model does not claim it.
- Append, undo and redo do not always form a round trip, even when nothing is
  appended between the undo and the redo. Redo re-shows the oldest hidden
  entry, so the round trip also needs no older entry to be hidden.
  `InterleavedAppendBreaksRoundTrip` gives such an input.
  `UndoRedoRoundTripIff` proves that, when some entry is visible, redo after
  undo restores the log exactly when the hidden entries form a suffix.

## Model

| member | source | states |
|---|---|---|
| DrawingState.AddStroke | server/drawing-state.js:7-17 | The returned op carries the old counter as its id, the stroke, `undone = false` and the given time. The counter goes up by exactly one. The log grows by exactly one entry, appended at the end, and earlier entries are unchanged. A valid log stays valid. |
| DrawingState.LatestVisible | server/drawing-state.js:20-26 | The backward scan of undo finds the highest index below `n` whose entry is visible, and every later entry below `n` is hidden. When it finds nothing, every entry below `n` is hidden. |
| DrawingState.EarliestHidden | server/drawing-state.js:30-36 | The forward scan of redo finds the lowest index from `from` whose entry is hidden, and every earlier entry from `from` is visible. When it finds nothing, no entry from `from` on is hidden. |
| DrawingState.Undo | server/drawing-state.js:19-27 | Undo returns None exactly when every entry is already undone, and then the log is unchanged. Otherwise it flips the highest-index visible entry to undone and returns that entry. Every later entry was already undone. Length, order, ids, data and the counter are unchanged, and so is every other entry's flag. A valid log stays valid. |
| DrawingState.Redo | server/drawing-state.js:29-37 | Redo returns None exactly when no entry is undone, and then the log is unchanged. Otherwise it flips the lowest-index undone entry back to visible and returns that entry. Every earlier entry was visible. Nothing else changes. A valid log stays valid. |
| DrawingState.Active | server/drawing-state.js:39-43 | The visible projection is never longer than the log. It is empty exactly when every entry is undone. When nothing is undone, it is the payload of every entry, in order. |
| DrawingState.Clear | server/drawing-state.js:45-48 | After clear, the log is empty, nothing is visible, and the log is valid, so the counter is back at 1. It equals the log a new `DrawingState` starts with. |
| DrawingState.ValidIdsOrdered | server/drawing-state.js:7-16 | In a valid log, ids strictly increase in log order and every id lies in [1, nextOpId). |
| DrawingStateProperties.ActiveConcat | server/drawing-state.js:39-43 | The visible projection of two logs joined is the projection of the first followed by the projection of the second. |
| DrawingStateProperties.ActiveIsFilter | server/drawing-state.js:39-43 | The k-th active stroke is the payload of the k-th visible entry. Visible positions are listed in increasing order, and every visible position is listed. So the active strokes are exactly `filter(!undone)` mapped to data. |
| DrawingStateProperties.VisibleIndicesSound | server/drawing-state.js:39-43 | There are as many active strokes as visible entries, and the k-th active stroke is the payload of the k-th visible entry. |
| DrawingStateProperties.VisibleIndicesSorted | server/drawing-state.js:39-43 | The visible positions are in range and strictly increasing, so `filter` keeps log order. |
| DrawingStateProperties.VisibleIndicesComplete | server/drawing-state.js:39-43 | Every entry that is not undone is among the visible positions, so `filter` drops nothing visible. |
| DrawingStateProperties.AddStrokeShowsStroke | server/drawing-state.js:7-16 | After an append, the active strokes are the previous active strokes followed by the new stroke. |
| DrawingStateProperties.UndoHidesLastVisible | server/drawing-state.js:19-27 | A successful undo returns the op of the last active stroke and removes exactly that stroke from the end of the active list. An undo that returns None happens only when no stroke is active. |
| DrawingStateProperties.RedoReshowsOldestHidden | server/drawing-state.js:29-37 | A successful redo re-inserts the oldest hidden stroke into the active list at its log index i, with the active strokes before and after it unchanged. A redo that returns None happens only when every entry is visible. |
| DrawingStateProperties.ClearResets | server/drawing-state.js:45-48 | After clear, no stroke is active, and the next append gets id 1. |
| DrawingStateProperties.AddAll | server/drawing-state.js:7-16 | Successive appends return consecutive ids, starting at the counter, with no gaps. The counter and the log length each grow by one per append. |
| DrawingStateProperties.AddAllShowsStrokes | server/drawing-state.js:7-16 | Successive appends leave the earlier history untouched and add their strokes, in call order, to the end of the active list. |
| DrawingStateProperties.AddAllValid | server/drawing-state.js:7-16 | Any run of appends keeps a valid log valid. |
| DrawingStateProperties.IdsFromOne | server/drawing-state.js:2-17 | On a fresh log, the ids returned by successive appends are 1, 2, 3, … with no gaps, and the resulting log is valid. `Clear` returns exactly the fresh log, so this also holds after `clear`. |
| DrawingStateProperties.SnapshotConsistent | server/drawing-state.js:50-55 | `getState` loses nothing. The log rebuilt from the snapshot's history and counter is the original log, and filtering the history gives the active strokes. |
| DrawingState.GetState | server/drawing-state.js:50-55 | The snapshot's history is as long as the log. For a valid log its ids are exactly 1..n in order and its counter is n + 1, the next id to hand out. |
| DrawingStateProperties.StackShapePreserved | server/drawing-state.js:7-37 | Suppose the hidden entries form a suffix of the log. Then undo and redo keep that shape. An append keeps it exactly when nothing is hidden. |
| DrawingStateProperties.UndoThenRedo | server/drawing-state.js:19-37 | Suppose the hidden entries form a suffix and some entry is visible. Then redo after undo restores the log exactly and returns the same operation, visible again. |
| DrawingStateProperties.RoundTripNeedsStackShape | server/drawing-state.js:19-37 | If some entry is visible and redo after undo gives back the log, the hidden entries already formed a suffix. The redo must have re-shown the entry the undo hid, so no older entry was hidden. |
| DrawingStateProperties.UndoRedoRoundTripIff | server/drawing-state.js:19-37 | For a log with some visible entry, redo after undo restores the log exactly when the hidden entries form a suffix. |
| DrawingStateProperties.RedoThenUndo | server/drawing-state.js:19-37 | Suppose the hidden entries form a suffix and some entry is hidden. Then undo after redo restores the log exactly. |
| DrawingStateProperties.NothingUndoneRoundTrip | server/drawing-state.js:19-37 | If no entry is undone, undo followed by redo restores the log exactly. This includes the empty log. |
| DrawingStateProperties.InterleavedAppendBreaksRoundTrip | server/drawing-state.js:7-37 | Append a and b, undo b, then append c. The visible strokes are [a, c]. An undo now hides c (id 3), but the very next redo re-shows b (id 2), and the visible strokes become [a, b]. So append-undo-redo of c is not a round trip even though nothing is appended between that undo and that redo. |
| InsertionMap.Has | server/rooms.js:52 | `has` holds exactly when some entry carries the key. |
| InsertionMap.Get | server/rooms.js:52-53 | `get` finds nothing exactly when no entry has the key, and finds something exactly when `has` holds. Otherwise it returns the value stored under the key. |
| InsertionMap.Set | server/rooms.js:36 | After `set`, `get` of the key gives the new value and every other key gives what it gave before. A key that was present keeps its position. A new key is appended last. |
| InsertionMap.Delete | server/rooms.js:43 | After `delete`, the key is absent and every other key gives what it gave before. A present key's entry is cut out and the size drops by one. An absent key leaves the map unchanged. |
| InsertionMap.SetThenDelete | server/rooms.js:36-43 | Inserting a key that is absent and then deleting it gives back exactly the original map, order included. |
| InsertionMap.Values | server/rooms.js:59 | `Array.from(values())` has one element per key. Its i-th element is what `get` returns for the i-th key in insertion order. |
| Decimal.FromNat | server/rooms.js:31 | The rendering of a number is a non-empty string of digits with no leading zero. Only zero renders as "0". |
| Decimal.ToNatFromNat | server/rooms.js:31 | Parsing the rendering of n gives n back. |
| Rooms.GetRoom | server/rooms.js:13-22 | When the id is already present, getRoom returns the stored room and changes nothing. Otherwise it files a room with that id, no users and a fresh log. Either way the id is then present. No other room changes, and neither does the colour counter. |
| Rooms.AddUser | server/rooms.js:24-38 | The user gets id = socketId, a cursor at (0, 0) and colour `palette[colorIndex mod 8]`. The username is the given one, or "User" followed by (room size before the call + 1) when the given one is empty. The counter goes up by one whatever the room. The user is stored under socketId. Other users of the room, its log and all other rooms are unchanged. A missing room is created first. A user already present keeps their place in the key order. A new user's key is appended last. |
| Rooms.RemoveUser | server/rooms.js:40-48 | An absent room means nothing changes. Otherwise the room survives exactly when a user other than socketId is in it. A surviving room has lost socketId and kept its other users and its log. Other rooms and the counter are unchanged. The remaining users keep their order: the list is either unchanged or the original with one entry cut out. |
| Rooms.UpdateUserCursor | server/rooms.js:50-55 | The call never creates or deletes a room. When the room or the user is absent, nothing changes. Otherwise only the named user's cursor changes. The order of the users, every other user and the log are unchanged. |
| Rooms.GetRoomUsers | server/rooms.js:57-60 | An absent room gives an empty list. An existing room gives one user per key, in insertion order, each being the user stored under that key. |
| Rooms.GetRoomDrawingState | server/rooms.js:62-65 | The call returns the log of the room filed under the id. The registry is unchanged when the room exists. Otherwise the room is created with no users, and the log returned is fresh. |
| RoomsProperties.InitWf | server/rooms.js:4-11 | The registry as constructed has no rooms and satisfies the invariant. |
| RoomsProperties.GetRoomIdempotent | server/rooms.js:13-22 | A second `getRoom` for the same id returns the same room and the same registry. |
| RoomsProperties.DrawingStateStable | server/rooms.js:62-65 | Asking twice for a room's log gives the same log and the same registry. |
| RoomsProperties.RemoveUserIdempotent | server/rooms.js:40-48 | Removing the same user twice equals removing it once. So a repeated disconnect is a no-op. |
| RoomsProperties.JoinThenLeaveAlone | server/rooms.js:13-48 | Take a room with no user other than socketId. After `addUser` then `removeUser` for socketId, the room is absent and lists no users. Asking for its log then gives a fresh, empty one, whatever history it had before. |
| RoomsProperties.JoinThenLeaveShared | server/rooms.js:24-48 | If another user is in the room, join-then-leave keeps the room, its log and that other user unchanged. |
| RoomsProperties.ListedUsers | server/rooms.js:57-60 | Under the invariant, a user is in `getRoomUsers` exactly when it is the user filed under its own id in that room. |
| RoomsProperties.NewcomerListedLast | server/rooms.js:24-60 | A user not yet in the room appears at the end of the room's list after `addUser`. Everyone already there keeps their place. |
| RoomsProperties.JoinAll | server/rooms.js:24-27 | In any run of `addUser` calls, in any rooms, the counter runs on by one per call. The i-th user's colour is the one for the starting counter + i. |
| RoomsProperties.PaletteDistinct | server/rooms.js:6-9 | The palette holds eight pairwise different colours. |
| RoomsProperties.ColorCollision | server/rooms.js:6-27 | Two counter values give the same colour exactly when they agree modulo 8. |
| RoomsProperties.EightJoinsDistinctColors | server/rooms.js:6-27 | Any eight consecutive joins get eight different colours, whatever rooms they go to. |
| RoomsProperties.WindowColorsDistinct | server/rooms.js:24-27 | Suppose users' colours come from consecutive counter values. Then any two of them less than eight apart have different colours. |
| RoomsProperties.DefaultNameInjective | server/rooms.js:31 | Default names for different room sizes are different strings. |

## Left out

- server/server.js is the socket.io gateway. It joins sockets to rooms, emits events and broadcasts to rooms. It adds no state logic beyond calling the registry and the log. It also calls `undo`/`redo` for a room and broadcasts only when the result is non-null. Broadcast fan-out depends on transport semantics that are not modelled.
- The client files (canvas.js, main.js, websocket.js) are rendering, input, UI and network code. The client's local undo, which drops its last stroke, is client behaviour and not server state.
- Timestamps: `Date.now()` is not modelled. The caller passes the time to `AddStroke`, which stores it and never interprets it.
- The stroke payload (points, colour, width, tool, author) is the opaque type `S`.
- Object aliasing: JavaScript returns live objects from `undo`, `redo`, `addUser`, `getRoomDrawingState` and `getState`, and later mutations show through them. The model returns values. A caller that mutates the returned log stores it back into the registry itself, and no operation here does that.
- Rooms.AddUser: a username that is `undefined` or `null` is falsy in JavaScript. The model has strings only, so it treats just the empty string as falsy.
- Number width: `nextOpId` and `colorIndex` are JavaScript numbers, exact only up to 2^53. The model uses unbounded integers and does not model the loss of precision beyond that.
- Cursor contents: the server stores any cursor object the client sends. The model restricts cursors to a pair of reals.
