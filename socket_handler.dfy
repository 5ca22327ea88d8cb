/** The session coordinator (server/src/services/SocketHandler.ts) run in place: each handler
    calls the `Store.DataStore` methods in the order the source does and appends what it emits
    to an outbox. Each is proved to reach the transition of the same name in `Protocol`, where
    its properties are proved (`ProtocolProperties`). */
module Coordinator {
  import opened Entities
  import opened StoreState
  import opened Protocol
  import Store
  import ProtocolProperties

  /** Single emissions in a row extend the outbox by all of them, in turn. */
  lemma AppendedInTurn<T>(s: seq<T>, a: T, b: T)
    ensures s + [a] + [b] == s + [a, b]
  {
  }

  lemma AppendedThreeInTurn<T>(s: seq<T>, a: T, b: T, c: T)
    ensures s + [a] + [b] + [c] == s + [a, b, c]
  {
  }

  class SocketHandler {
    const store: Store.DataStore
    /** Every event emitted so far, in order, with its origin and addressees. */
    var outbox: seq<Emission>

    constructor (store: Store.DataStore)
      ensures this.store == store && outbox == []
    {
      this.store := store;
      outbox := [];
    }

    method Emit(conn: ConnId, scope: Scope, event: ServerEvent)
      modifies this
      ensures outbox == old(outbox) + [Emission(conn, scope, event)]
    {
      outbox := outbox + [Emission(conn, scope, event)];
    }

    /** The first step of `handleJoinRoom`: the user bound to the connection, re-bound to it,
        or a new one created for it. */
    method BindUser(conn: ConnId, username: string) returns (bound: Result<User>)
      requires store.Valid()
      modifies store
      ensures store.Valid()
      ensures Update(bound, store.State()) == Protocol.BindUser(old(store.State()), conn, username)
    {
      var found := GetUserBySocketId(store.State(), conn);
      if found.Some? {
        store.UpdateUserSocketId(found.value.id, conn);
        bound := Ok(found.value);
      } else {
        bound := store.CreateUser(username, conn);
      }
    }

    /** The second step of `handleJoinRoom`: the room of that name, or a new one. */
    method FindOrCreateRoom(roomName: string) returns (target: Result<Room>)
      requires store.Valid()
      modifies store
      ensures store.Valid()
      ensures Update(target, store.State()) == Protocol.FindOrCreateRoom(old(store.State()), roomName)
    {
      var byName := GetRoomByName(store.State(), roomName);
      if byName.Some? {
        target := Ok(byName.value);
      } else {
        target := store.CreateRoom(roomName);
      }
    }

    /** `handleJoinRoom`: an error thrown by a step is caught and reported to the originator,
        after whatever the steps before it changed. `joinRoom` throws only for a user or room
        that is missing, and both were just found or created. */
    method HandleJoinRoom(conn: ConnId, roomName: string, username: string)
      requires store.Valid()
      modifies this, store
      ensures store.Valid()
      ensures store.State() == Protocol.HandleJoinRoom(old(store.State()), conn, roomName, username).tables
      ensures outbox == old(outbox) + Protocol.HandleJoinRoom(old(store.State()), conn, roomName, username).out
    {
      ghost var t := store.State();
      var bound := BindUser(conn, username);
      ghost var t1 := store.State();
      if bound.Err? {
        Emit(conn, Originator, Error(bound.message));
      } else {
        var user := bound.value;
        var target := FindOrCreateRoom(roomName);
        ghost var t2 := store.State();
        assert Protocol.FindOrCreateRoom(Protocol.BindUser(t, conn, username).tables, roomName) == Update(target, t2);
        if target.Err? {
          Emit(conn, Originator, Error(target.message));
        } else {
          var room := target.value;
          var joined := store.JoinRoom(user.id, room.id);
          assert joined.Ok?;
          var now := store.State();
          assert JoinRoom(t2, user.id, room.id).tables == now;
          ProtocolProperties.JoinStep(t, conn, roomName, username, user, room);
          ghost var before := outbox;
          var joinedEvent := Emission(conn, Originator, RoomJoined(now.rooms[room.id], now.users[user.id]));
          var notice := Emission(conn, OthersInRoom(Some(room.id)), UserJoined(now.users[user.id]));
          var members := Emission(conn, WholeRoom(Some(room.id)), RoomUsers(UsersOf(now.users, now.rooms[room.id].users)));
          assert Protocol.HandleJoinRoom(t, conn, roomName, username) == Step(now, [joinedEvent, notice, members]);
          Emit(joinedEvent.origin, joinedEvent.scope, joinedEvent.event);
          Emit(notice.origin, notice.scope, notice.event);
          Emit(members.origin, members.scope, members.event);
          AppendedThreeInTurn(before, joinedEvent, notice, members);
        }
      }
    }

    method HandleSendMessage(conn: ConnId, content: string, roomId: Id)
      requires store.Valid()
      modifies this, store
      ensures store.Valid()
      ensures store.State() == Protocol.HandleSendMessage(old(store.State()), conn, content, roomId).tables
      ensures outbox == old(outbox) + Protocol.HandleSendMessage(old(store.State()), conn, content, roomId).out
    {
      var found := GetUserBySocketId(store.State(), conn);
      if found.None? || found.value.currentRoom != Some(roomId) {
        Emit(conn, Originator, Error("You are not in this room"));
      } else {
        var user := found.value;
        var sent := store.AddMessage(content, user.id, roomId);
        if sent.Err? {
          Emit(conn, Originator, Error(sent.message));
        } else {
          store.RemoveTypingUser(user.id, roomId);
          Emit(conn, OthersInRoom(Some(roomId)), TypingStop(user.username, user.id));
          Emit(conn, WholeRoom(Some(roomId)), MessageReceived(sent.value));
        }
      }
    }

    /** `handleLeaveRoom` as written: `user` is the store's record, read again after
        `leaveRoom` cleared its room, so the notifications go to `to(null)`. */
    method HandleLeaveRoom(conn: ConnId)
      requires store.Valid()
      modifies this, store
      ensures store.Valid()
      ensures store.State() == Protocol.HandleLeaveRoom(old(store.State()), conn).tables
      ensures outbox == old(outbox) + Protocol.HandleLeaveRoom(old(store.State()), conn).out
    {
      var found := GetUserBySocketId(store.State(), conn);
      if found.Some? && found.value.currentRoom.Some? {
        var user := found.value;
        var roomId := user.currentRoom.value;
        var room := GetRoom(store.State(), roomId);
        if room.Some? {
          ghost var t := store.State();
          ProtocolProperties.LeaveStep(t, conn, user);
          store.RemoveTypingUser(user.id, roomId);
          store.LeaveRoom(user.id, roomId);
          var remaining := RemoveAll(room.value.users, user.id);
          var now := store.State().users[user.id];
          AnnounceLeave(conn, now, remaining);
        }
      }
    }

    /** The notifications of a leave, addressed to the room the leaving user's record names
        once `leaveRoom` has run: the user, then the members left if there are any. */
    method AnnounceLeave(conn: ConnId, now: User, remaining: seq<Id>)
      modifies this
      ensures outbox == old(outbox) + Protocol.LeaveNotices(conn, now.currentRoom, now, store.State().users, remaining)
    {
      ghost var before := outbox;
      var left := Emission(conn, OthersInRoom(now.currentRoom), UserLeft(now));
      Emit(left.origin, left.scope, left.event);
      if |remaining| > 0 {
        var members := Emission(conn, WholeRoom(now.currentRoom), RoomUsers(UsersOf(store.State().users, remaining)));
        Emit(members.origin, members.scope, members.event);
        AppendedInTurn(before, left, members);
      } else {
        assert [left] + [] == [left];
      }
    }

    method HandleStartTyping(conn: ConnId, roomId: Id)
      requires store.Valid()
      modifies this, store
      ensures store.Valid()
      ensures store.State() == Protocol.HandleStartTyping(old(store.State()), conn, roomId).tables
      ensures outbox == old(outbox) + Protocol.HandleStartTyping(old(store.State()), conn, roomId).out
    {
      var found := GetUserBySocketId(store.State(), conn);
      if found.Some? && found.value.currentRoom == Some(roomId) {
        store.AddTypingUser(found.value.id, roomId);
        Emit(conn, OthersInRoom(Some(roomId)), TypingStart(found.value.username, found.value.id));
      }
    }

    method HandleStopTyping(conn: ConnId, roomId: Id)
      requires store.Valid()
      modifies this, store
      ensures store.Valid()
      ensures store.State() == Protocol.HandleStopTyping(old(store.State()), conn, roomId).tables
      ensures outbox == old(outbox) + Protocol.HandleStopTyping(old(store.State()), conn, roomId).out
    {
      var found := GetUserBySocketId(store.State(), conn);
      if found.Some? && found.value.currentRoom == Some(roomId) {
        store.RemoveTypingUser(found.value.id, roomId);
        Emit(conn, OthersInRoom(Some(roomId)), TypingStop(found.value.username, found.value.id));
      }
    }

    method HandleGetRooms(conn: ConnId)
      modifies this
      ensures store.State() == Protocol.HandleGetRooms(old(store.State()), conn).tables
      ensures outbox == old(outbox) + Protocol.HandleGetRooms(old(store.State()), conn).out
    {
      Emit(conn, Originator, RoomList(GetAllRooms(store.State())));
    }

    /** The notices `handleDisconnect` sends for a user still in a room, after clearing its
        typing entry. */
    method NotifyDeparture(conn: ConnId, user: User)
      requires store.Valid() && user.currentRoom.Some? && user.currentRoom.value in store.State().rooms
      modifies this, store
      ensures store.Valid()
      ensures store.State() == RemoveTypingUser(old(store.State()), user.id, user.currentRoom.value)
      ensures outbox == old(outbox) + DisconnectNotices(old(store.State()), conn, user)
    {
      ghost var t := store.State();
      var roomId := user.currentRoom.value;
      var room := store.State().rooms[roomId];
      store.RemoveTypingUser(user.id, roomId);
      ghost var before := outbox;
      var left := Emission(conn, OthersInRoom(Some(roomId)), UserLeft(user));
      Emit(left.origin, left.scope, left.event);
      if |room.users| > 1 {
        var members := Emission(conn, WholeRoom(Some(roomId)), RoomUsers(UsersOf(store.State().users, room.users)));
        assert DisconnectNotices(t, conn, user) == [left, members];
        Emit(members.origin, members.scope, members.event);
        AppendedInTurn(before, left, members);
      } else {
        assert DisconnectNotices(t, conn, user) == [left];
      }
    }

    /** `handleDisconnect`: the notices are emitted before `removeUser`, from the records as
        they stand then. */
    method HandleDisconnect(conn: ConnId)
      requires store.Valid()
      modifies this, store
      ensures store.Valid()
      ensures store.State() == Protocol.HandleDisconnect(old(store.State()), conn).tables
      ensures outbox == old(outbox) + Protocol.HandleDisconnect(old(store.State()), conn).out
    {
      var found := GetUserBySocketId(store.State(), conn);
      if found.Some? {
        var user := found.value;
        ghost var t := store.State();
        ProtocolProperties.DisconnectStep(t, conn, user);
        if user.currentRoom.Some? {
          var room := GetRoom(store.State(), user.currentRoom.value);
          if room.Some? {
            NotifyDeparture(conn, user);
          }
        }
        store.RemoveUser(user.id);
      }
    }
  }
}
