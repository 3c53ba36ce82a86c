/**
 The room registry of the canvas server (`RoomManager`).

 Rooms are keyed by a client-chosen id and created lazily by the accessors that
 go through `getRoom`. Each room holds its users in an insertion-ordered map
 keyed by connection id, and one operation log. A room is deleted only by
 `removeUser`, exactly when that call leaves it without users. Colours come
 from an eight-entry palette indexed by one counter shared by all rooms.

 Operations are pure: each returns the new registry together with what the
 JavaScript method returns.
 */
module Rooms {
  import opened Options
  import InsertionMap
  import Decimal
  import DrawingState

  type RoomId = string
  type SocketId = string

  /** A cursor position; the server stores whatever the client sends. */
  datatype Point = Point(x: real, y: real)

  const Origin: Point := Point(0.0, 0.0)

  datatype User = User(id: SocketId, username: string, color: string, cursor: Point)

  type Users = InsertionMap.IMap<SocketId, User>

  datatype Room<S> = Room(id: RoomId, users: Users, drawing: DrawingState.Log<S>)

  datatype Manager<S> = Manager(rooms: map<RoomId, Room<S>>, colorIndex: nat)

  const Palette: seq<string> := [
    "#FF6B6B", "#4ECDC4", "#45B7D1", "#FFA07A",
    "#98D8C8", "#F7DC6F", "#BB8FCE", "#85C1E2"
  ]

  /** The registry as constructed: no rooms, colour counter at 0. */
  function Init<S>(): Manager<S> {
    Manager(map[], 0)
  }

  function EmptyRoom<S>(roomId: RoomId): Room<S> {
    Room(roomId, [], DrawingState.Fresh())
  }

  /** The users of a room, or none when the room is absent. */
  function UsersOf<S>(mgr: Manager<S>, roomId: RoomId): Users {
    if roomId in mgr.rooms then mgr.rooms[roomId].users else []
  }

  /** The colour handed out when the shared counter stands at `index`. */
  function ColorFor(index: nat): string {
    Palette[index % |Palette|]
  }

  /** The name given to a user who supplies none, when the room already has `size` users. */
  function DefaultName(size: nat): string {
    "User" + Decimal.FromNat(size + 1)
  }

  // ---------------------------------------------------------------------------
  // Invariants
  // ---------------------------------------------------------------------------

  /** A room is filed under its own id, every user under its own id, and its log is valid. */
  ghost predicate RoomWf<S>(roomId: RoomId, room: Room<S>) {
    && room.id == roomId
    && DrawingState.Valid(room.drawing)
    && forall e :: e in room.users ==> e.1.id == e.0
  }

  ghost predicate Wf<S>(mgr: Manager<S>) {
    forall rid :: rid in mgr.rooms ==> RoomWf(rid, mgr.rooms[rid])
  }

  /** Every room other than `roomId` is present in both or neither, and identical. */
  ghost predicate SameElsewhere<S>(before: map<RoomId, Room<S>>, after: map<RoomId, Room<S>>, roomId: RoomId) {
    forall rid :: rid != roomId ==>
      && (rid in after <==> rid in before)
      && (rid in before ==> after[rid] == before[rid])
  }

  /** Users other than `socketId` are unchanged. */
  ghost predicate SameOtherUsers(before: Users, after: Users, socketId: SocketId) {
    forall k :: k != socketId ==> InsertionMap.Get(after, k) == InsertionMap.Get(before, k)
  }

  // ---------------------------------------------------------------------------
  // Operations
  // ---------------------------------------------------------------------------

  /** `getRoom`: the room filed under `roomId`, created empty when absent. */
  function GetRoom<S>(mgr: Manager<S>, roomId: RoomId): (r: (Manager<S>, Room<S>))
    ensures roomId in r.0.rooms && r.0.rooms[roomId] == r.1
    ensures roomId in mgr.rooms ==> r.0 == mgr
    ensures roomId !in mgr.rooms ==>
              && r.1.id == roomId && r.1.users == []
              && r.1.drawing == DrawingState.Fresh()
    ensures r.0.rooms.Keys == mgr.rooms.Keys + {roomId}
    ensures r.0.colorIndex == mgr.colorIndex
    ensures SameElsewhere(mgr.rooms, r.0.rooms, roomId)
    ensures Wf(mgr) ==> Wf(r.0)
  {
    if roomId in mgr.rooms then (mgr, mgr.rooms[roomId])
    else
      var room := EmptyRoom(roomId);
      (mgr.(rooms := mgr.rooms[roomId := room]), room)
  }

  /**
   `addUser`: make sure the room exists, take the next palette colour from the
   shared counter, and file a user with a cursor at the origin under `socketId`.
   Returns the registry, the room as it now is, and the user.
   */
  function AddUser<S>(mgr: Manager<S>, roomId: RoomId, socketId: SocketId, username: string)
    : (r: (Manager<S>, Room<S>, User))
    ensures var (m, room, user) := r;
            && user.id == socketId
            && user.cursor == Origin
            && user.color == Palette[mgr.colorIndex % 8]
            && (username != "" ==> user.username == username)
            && (username == "" ==> user.username == "User" + Decimal.FromNat(|UsersOf(mgr, roomId)| + 1))
    ensures var (m, room, user) := r;
            && m.colorIndex == mgr.colorIndex + 1
            && roomId in m.rooms && m.rooms[roomId] == room
            && InsertionMap.Get(room.users, socketId) == Some(user)
            && SameOtherUsers(UsersOf(mgr, roomId), room.users, socketId)
            && (InsertionMap.Has(UsersOf(mgr, roomId), socketId) ==>
                  InsertionMap.Keys(room.users) == InsertionMap.Keys(UsersOf(mgr, roomId)))
            && (!InsertionMap.Has(UsersOf(mgr, roomId), socketId) ==>
                  InsertionMap.Keys(room.users) == InsertionMap.Keys(UsersOf(mgr, roomId)) + [socketId])
            && room.drawing == (if roomId in mgr.rooms then mgr.rooms[roomId].drawing else DrawingState.Fresh())
            && SameElsewhere(mgr.rooms, m.rooms, roomId)
    ensures Wf(mgr) ==> Wf(r.0)
  {
    var (m, room) := GetRoom(mgr, roomId);
    var name := if username == "" then DefaultName(|room.users|) else username;
    var user := User(socketId, name, ColorFor(mgr.colorIndex), Origin);
    var room' := room.(users := InsertionMap.Set(room.users, socketId, user));
    (Manager(m.rooms[roomId := room'], m.colorIndex + 1), room', user)
  }

  /**
   `removeUser`: drop the user, and the room with it when no other user is left.
   Absent rooms are left alone.
   */
  function RemoveUser<S>(mgr: Manager<S>, roomId: RoomId, socketId: SocketId): (r: Manager<S>)
    ensures r.colorIndex == mgr.colorIndex
    ensures SameElsewhere(mgr.rooms, r.rooms, roomId)
    ensures roomId !in mgr.rooms ==> r == mgr
    ensures roomId in r.rooms <==>
              roomId in mgr.rooms
              && exists k :: InsertionMap.Has(mgr.rooms[roomId].users, k) && k != socketId
    ensures roomId in r.rooms ==>
              var before := mgr.rooms[roomId];
              var after := r.rooms[roomId];
              && after.id == before.id
              && after.drawing == before.drawing
              && !InsertionMap.Has(after.users, socketId)
              && SameOtherUsers(before.users, after.users, socketId)
              && (after.users == before.users
                  || exists i :: 0 <= i < |before.users| && after.users == before.users[..i] + before.users[i + 1..])
    ensures Wf(mgr) ==> Wf(r)
  {
    if roomId !in mgr.rooms then mgr
    else
      var room := mgr.rooms[roomId];
      var users := InsertionMap.Delete(room.users, socketId);
      if |users| == 0 then
        mgr.(rooms := mgr.rooms - {roomId})
      else
        assert InsertionMap.Has(room.users, users[0].0) by {
          assert InsertionMap.Get(users, users[0].0).Some?;
        }
        mgr.(rooms := mgr.rooms[roomId := room.(users := users)])
  }

  /** `updateUserCursor`: move one user's cursor; a no-op when the room or the user is absent. */
  function UpdateUserCursor<S>(mgr: Manager<S>, roomId: RoomId, socketId: SocketId, cursor: Point)
    : (r: Manager<S>)
    ensures r.colorIndex == mgr.colorIndex
    ensures r.rooms.Keys == mgr.rooms.Keys
    ensures SameElsewhere(mgr.rooms, r.rooms, roomId)
    ensures roomId !in mgr.rooms || !InsertionMap.Has(mgr.rooms[roomId].users, socketId) ==> r == mgr
    ensures roomId in mgr.rooms && InsertionMap.Has(mgr.rooms[roomId].users, socketId) ==>
              var before := mgr.rooms[roomId];
              var after := r.rooms[roomId];
              && after.id == before.id
              && after.drawing == before.drawing
              && InsertionMap.Keys(after.users) == InsertionMap.Keys(before.users)
              && InsertionMap.Get(after.users, socketId)
                 == Some(InsertionMap.Get(before.users, socketId).value.(cursor := cursor))
              && SameOtherUsers(before.users, after.users, socketId)
    ensures Wf(mgr) ==> Wf(r)
  {
    if roomId in mgr.rooms && InsertionMap.Has(mgr.rooms[roomId].users, socketId) then
      var room := mgr.rooms[roomId];
      var user := InsertionMap.Get(room.users, socketId).value;
      var users := InsertionMap.Set(room.users, socketId, user.(cursor := cursor));
      mgr.(rooms := mgr.rooms[roomId := room.(users := users)])
    else
      mgr
  }

  /** `getRoomUsers`: the room's users in join order; empty, and nothing created, for an absent room. */
  function GetRoomUsers<S>(mgr: Manager<S>, roomId: RoomId): (r: seq<User>)
    ensures roomId !in mgr.rooms ==> r == []
    ensures roomId in mgr.rooms ==>
              var users := mgr.rooms[roomId].users;
              && |r| == |users|
              && forall i :: 0 <= i < |r| ==>
                   InsertionMap.Get(users, InsertionMap.Keys(users)[i]) == Some(r[i])
  {
    if roomId in mgr.rooms then InsertionMap.Values(mgr.rooms[roomId].users) else []
  }

  /** `getRoomDrawingState`: the log of the room, created empty when absent. */
  function GetRoomDrawingState<S>(mgr: Manager<S>, roomId: RoomId): (r: (Manager<S>, DrawingState.Log<S>))
    ensures roomId in r.0.rooms && r.0.rooms[roomId].drawing == r.1
    ensures roomId in mgr.rooms ==> r.0 == mgr && r.1 == mgr.rooms[roomId].drawing
    ensures roomId !in mgr.rooms ==> r.1 == DrawingState.Fresh() && r.0.rooms[roomId].users == []
    ensures SameElsewhere(mgr.rooms, r.0.rooms, roomId) && r.0.colorIndex == mgr.colorIndex
    ensures Wf(mgr) ==> Wf(r.0)
  {
    var (m, room) := GetRoom(mgr, roomId);
    (m, room.drawing)
  }
}
