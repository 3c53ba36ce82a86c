/**
 Properties of the room registry that relate several calls: lazy creation is
 idempotent, a room's life ends with its last user, colours cycle through the
 palette in call order regardless of room, and disconnects may repeat.
 */
module RoomsProperties {
  import opened Options
  import InsertionMap
  import Decimal
  import DrawingState
  import opened Rooms

  /** The registry as constructed satisfies the invariant. */
  lemma InitWf<S>()
    ensures Wf(Init<S>()) && Init<S>().rooms == map[]
  {
  }

  /** A second `getRoom` for the same id changes nothing and returns the same room. */
  lemma GetRoomIdempotent<S>(mgr: Manager<S>, roomId: RoomId)
    ensures var (m, room) := GetRoom(mgr, roomId);
            GetRoom(m, roomId) == (m, room)
  {
  }

  /** Asking twice for a room's log gives the same log and the same registry. */
  lemma DrawingStateStable<S>(mgr: Manager<S>, roomId: RoomId)
    ensures var (m, log) := GetRoomDrawingState(mgr, roomId);
            GetRoomDrawingState(m, roomId) == (m, log)
  {
  }

  /** Removing a user who is not in the room keeps the user map as it is. */
  lemma DeleteAbsent(users: Users, socketId: SocketId)
    requires !InsertionMap.Has(users, socketId)
    ensures InsertionMap.Delete(users, socketId) == users
  {
  }

  /** A repeated disconnect is a no-op: removing the same user twice equals removing once. */
  lemma RemoveUserIdempotent<S>(mgr: Manager<S>, roomId: RoomId, socketId: SocketId)
    ensures var once := RemoveUser(mgr, roomId, socketId);
            RemoveUser(once, roomId, socketId) == once
  {
    var once := RemoveUser(mgr, roomId, socketId);
    if roomId in once.rooms {
      var room := once.rooms[roomId];
      DeleteAbsent(room.users, socketId);
      assert exists k :: InsertionMap.Has(room.users, k) && k != socketId by {
        var k :| InsertionMap.Has(mgr.rooms[roomId].users, k) && k != socketId;
        assert InsertionMap.Get(room.users, k) == InsertionMap.Get(mgr.rooms[roomId].users, k);
      }
      assert once.rooms[roomId := room] == once.rooms;
    }
  }

  /**
   A user who joins a room with nobody else in it and then leaves takes the room
   with them: it is absent afterwards, lists no users, and asking for its log
   yields a fresh, empty one, whatever history it had.
   */
  lemma JoinThenLeaveAlone<S>(mgr: Manager<S>, roomId: RoomId, socketId: SocketId, username: string)
    requires forall k :: InsertionMap.Has(UsersOf(mgr, roomId), k) ==> k == socketId
    ensures var m := RemoveUser(AddUser(mgr, roomId, socketId, username).0, roomId, socketId);
            && roomId !in m.rooms
            && GetRoomUsers(m, roomId) == []
            && GetRoomDrawingState(m, roomId).1 == DrawingState.Fresh()
            && DrawingState.ActiveStrokes(GetRoomDrawingState(m, roomId).1) == []
  {
    var room := AddUser(mgr, roomId, socketId, username).1;
    forall k | k != socketId
      ensures !InsertionMap.Has(room.users, k)
    {
      assert InsertionMap.Get(room.users, k) == InsertionMap.Get(UsersOf(mgr, roomId), k);
    }
  }

  /** When someone else is still in the room, leaving keeps the room and its history. */
  lemma JoinThenLeaveShared<S>(mgr: Manager<S>, roomId: RoomId, socketId: SocketId, username: string, other: SocketId)
    requires other != socketId && InsertionMap.Has(UsersOf(mgr, roomId), other)
    ensures var m := RemoveUser(AddUser(mgr, roomId, socketId, username).0, roomId, socketId);
            && roomId in m.rooms && roomId in mgr.rooms
            && m.rooms[roomId].drawing == mgr.rooms[roomId].drawing
            && InsertionMap.Get(m.rooms[roomId].users, other) == InsertionMap.Get(mgr.rooms[roomId].users, other)
  {
    var (m1, room, user) := AddUser(mgr, roomId, socketId, username);
    assert InsertionMap.Get(room.users, other) == InsertionMap.Get(UsersOf(mgr, roomId), other);
  }

  /** With the invariant, a user is listed for a room exactly when it is filed under its own id there. */
  lemma ListedUsers<S>(mgr: Manager<S>, roomId: RoomId, u: User)
    requires Wf(mgr)
    ensures u in GetRoomUsers(mgr, roomId) <==> InsertionMap.Get(UsersOf(mgr, roomId), u.id) == Some(u)
  {
    var listed := GetRoomUsers(mgr, roomId);
    if roomId in mgr.rooms {
      var users := mgr.rooms[roomId].users;
      if u in listed {
        var i :| 0 <= i < |listed| && listed[i] == u;
        assert users[i] in users;
      }
      if InsertionMap.Get(users, u.id) == Some(u) {
        var i :| 0 <= i < |users| && users[i].0 == u.id;
        assert listed[i] == u;
      }
    }
  }

  /** A newcomer is listed after everyone already in the room; the others keep their places. */
  lemma NewcomerListedLast<S>(mgr: Manager<S>, roomId: RoomId, socketId: SocketId, username: string)
    requires !InsertionMap.Has(UsersOf(mgr, roomId), socketId)
    ensures var (m, _, user) := AddUser(mgr, roomId, socketId, username);
            GetRoomUsers(m, roomId) == GetRoomUsers(mgr, roomId) + [user]
  {
    var (m, room, user) := AddUser(mgr, roomId, socketId, username);
    var before, after := UsersOf(mgr, roomId), room.users;
    assert InsertionMap.Keys(after) == InsertionMap.Keys(before) + [socketId] by {
      if roomId in mgr.rooms {
        assert room.users == InsertionMap.Set(before, socketId, user);
      } else {
        assert room.users == InsertionMap.Set([], socketId, user);
      }
    }
    var listed, listedBefore := GetRoomUsers(m, roomId), GetRoomUsers(mgr, roomId);
    assert listedBefore == InsertionMap.Values(before);
    forall i | 0 <= i < |listed|
      ensures listed[i] == (listedBefore + [user])[i]
    {
      var key := InsertionMap.Keys(after)[i];
      if i < |before| {
        assert key == InsertionMap.Keys(before)[i];
        assert key != socketId;
      }
    }
  }

  // ---------------------------------------------------------------------------
  // Colours
  // ---------------------------------------------------------------------------

  datatype Join = Join(roomId: RoomId, socketId: SocketId, username: string)

  /**
   A run of `addUser` calls, in any rooms, collecting the users created and the
   value the colour counter had at each call: the counter runs on from its
   starting value by one per call, and each user's colour is the one for the
   counter value at its call.
   */
  function JoinAll<S>(mgr: Manager<S>, joins: seq<Join>): (r: (Manager<S>, seq<User>, seq<nat>))
    ensures |r.1| == |joins| && |r.2| == |joins|
    ensures r.0.colorIndex == mgr.colorIndex + |joins|
    ensures forall i :: 0 <= i < |joins| ==> r.2[i] == mgr.colorIndex + i
    ensures forall i :: 0 <= i < |joins| ==> r.1[i].color == ColorFor(r.2[i])
    decreases |joins|
  {
    if joins == [] then (mgr, [], [])
    else
      var j := joins[0];
      var added := AddUser(mgr, j.roomId, j.socketId, j.username);
      var rest := JoinAll(added.0, joins[1..]);
      (rest.0, [added.2] + rest.1, [mgr.colorIndex] + rest.2)
  }

  /** The palette has eight different colours. */
  lemma PaletteDistinct()
    ensures |Palette| == 8
    ensures forall i, j :: 0 <= i < j < |Palette| ==> Palette[i] != Palette[j]
  {
  }

  /** Two joins get the same colour exactly when their counter values agree modulo 8. */
  lemma ColorCollision(a: nat, b: nat)
    ensures ColorFor(a) == ColorFor(b) <==> a % 8 == b % 8
  {
    PaletteDistinct();
    if a % 8 < b % 8 {
      assert Palette[a % 8] != Palette[b % 8];
    } else if b % 8 < a % 8 {
      assert Palette[b % 8] != Palette[a % 8];
    }
  }

  /** Any eight consecutive joins, in whatever rooms, receive eight different colours. */
  lemma EightJoinsDistinctColors<S>(mgr: Manager<S>, joins: seq<Join>)
    ensures var users := JoinAll(mgr, joins).1;
            forall i, j :: 0 <= i < j < |users| && j - i < 8 ==> users[i].color != users[j].color
  {
    var (_, users, counters) := JoinAll(mgr, joins);
    WindowColorsDistinct(users, counters);
  }

  /** Users whose colours come from consecutive counter values differ in colour within any window of eight. */
  lemma WindowColorsDistinct(users: seq<User>, counters: seq<nat>)
    requires |counters| == |users|
    requires forall i :: 0 < i < |counters| ==> counters[i] == counters[i - 1] + 1
    requires forall i :: 0 <= i < |users| ==> users[i].color == ColorFor(counters[i])
    ensures forall i, j :: 0 <= i < j < |users| && j - i < 8 ==> users[i].color != users[j].color
  {
    forall i, j | 0 <= i < j < |users| && j - i < 8
      ensures users[i].color != users[j].color
    {
      assert counters[j] == counters[i] + (j - i) by {
        var k := i;
        while k < j
          invariant i <= k <= j
          invariant counters[k] == counters[i] + (k - i)
        {
          k := k + 1;
        }
      }
      ColorCollision(counters[i], counters[j]);
    }
  }

  /** Default names are "User1", "User2", ...: different sizes give different names. */
  lemma DefaultNameInjective(a: nat, b: nat)
    ensures DefaultName(a) == DefaultName(b) <==> a == b
  {
    if DefaultName(a) == DefaultName(b) {
      var sa, sb := Decimal.FromNat(a + 1), Decimal.FromNat(b + 1);
      assert sa == DefaultName(a)[4..] && sb == DefaultName(b)[4..];
      Decimal.FromNatInjective(a + 1, b + 1);
    }
  }
}
