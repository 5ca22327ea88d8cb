/** What the session coordinator promises, proved about the handler transitions of `Protocol`:
    the exact outbox of each event, the cases that change nothing, and the invariants of the
    store that every handler keeps between two events. */
module ProtocolProperties {
  import opened Entities
  import opened StoreState
  import opened Protocol
  import StoreProperties
  import Text

  // ---------------------------------------------------------------------------
  // Helpers

  /** The typing table is no part of the settled invariants but for having no empty set. */
  lemma TypingKeepsSettled(t: Tables, u: Id, r: Id)
    requires Settled(t)
    ensures Settled(AddTypingUser(t, u, r)) && Settled(RemoveTypingUser(t, u, r))
  {
    StoreProperties.TypingSets(t, u, r);
    StoreProperties.TypingFrame(t, u, r);
    StoreProperties.SameMembersKeep(t, AddTypingUser(t, u, r));
    StoreProperties.SameMembersKeep(t, RemoveTypingUser(t, u, r));
  }

  lemma IdentitiesKeptSettled(t: Tables, t': Tables)
    requires Settled(t) && Valid(t') && Membership(t') && NoEmptyRooms(t') && StoreProperties.IdentitiesKept(t, t')
    ensures Settled(t')
  {
    StoreProperties.IdentitiesKeptNames(t, t');
  }

  // ---------------------------------------------------------------------------
  // join_room

  /** The state of a join after its first two steps, and what they promise. */
  lemma JoinSteps(t: Tables, conn: ConnId, roomName: string, username: string)
    requires Settled(t)
    ensures var bound := BindUser(t, conn, username);
      && (bound.result.Err? ==> bound.tables == t)
      && Settled(bound.tables)
      && (bound.result.Ok? ==>
            var target := FindOrCreateRoom(bound.tables, roomName);
            && (target.result.Err? ==> target.tables == bound.tables)
            && Valid(target.tables) && Membership(target.tables)
            && UniqueNames(target.tables) && SocketsUnique(target.tables)
            && (target.result.Ok? ==>
                  NoEmptyRoomsBut(target.tables, Some(target.result.value.id)) && target.result.value.id in target.tables.rooms)
            && bound.result.value.id in target.tables.users)
  {
    var found := GetUserBySocketId(t, conn);
    if found.Some? {
      StoreProperties.UpdateUserSocketIdKeeps(t, found.value.id, conn);
    } else {
      StoreProperties.CreateUserOutcome(t, username, conn);
      StoreProperties.CreateUserKeeps(t, username, conn, None);
    }
    var bound := BindUser(t, conn, username);
    if bound.result.Ok? {
      var t1 := bound.tables;
      var byName := GetRoomByName(t1, roomName);
      if byName.None? {
        StoreProperties.CreateRoomOutcome(t1, roomName);
        StoreProperties.CreateRoomKeeps(t1, roomName);
      }
    }
  }

  /** A join keeps the store settled, whichever step fails. */
  lemma JoinKeepsSettled(t: Tables, conn: ConnId, roomName: string, username: string)
    requires Settled(t)
    ensures Settled(HandleJoinRoom(t, conn, roomName, username).tables)
  {
    JoinSteps(t, conn, roomName, username);
    var bound := BindUser(t, conn, username);
    if bound.result.Ok? {
      var target := FindOrCreateRoom(bound.tables, roomName);
      if target.result.Ok? {
        var t2, u, r := target.tables, bound.result.value.id, target.result.value.id;
        StoreProperties.JoinRoomKeepsTables(t2, u, r);
        StoreProperties.IdentitiesKeptNames(t2, JoinRoom(t2, u, r).tables);
      }
    }
  }

  /** What a successful `joinRoom` leaves for the handler to emit. */
  lemma JoinedFacts(t: Tables, u: Id, r: Id)
    requires Valid(t) && u in t.users && r in t.rooms
    ensures var up := JoinRoom(t, u, r);
      && up.result.Ok?
      && up.tables.users.Keys == t.users.Keys
      && r in up.tables.rooms && up.tables.rooms[r].id == r
      && up.tables.users[u].socketId == t.users[u].socketId
      && up.tables.users[u].username == t.users[u].username && up.tables.rooms[r].name == t.rooms[r].name
      && up.tables.users[u].currentRoom == Some(r)
      && up.tables.rooms[r].users != [] && up.tables.rooms[r].users[|up.tables.rooms[r].users| - 1] == u
  {
    var previous := t.users[u].currentRoom;
    if previous.Some? {
      StoreProperties.LeaveRoomFrame(t, u, previous.value);
    }
    StoreProperties.JoinRoomIsPlaced(t, u, r);
  }

  /** The step a join takes once the user is bound and the room found or created. */
  lemma JoinStep(t: Tables, conn: ConnId, roomName: string, username: string, user: User, room: Room)
    requires Valid(t) && BindUser(t, conn, username).result == Ok(user)
    requires FindOrCreateRoom(BindUser(t, conn, username).tables, roomName).result == Ok(room)
    requires JoinRoom(FindOrCreateRoom(BindUser(t, conn, username).tables, roomName).tables, user.id, room.id).result.Ok?
    ensures var t' := JoinRoom(FindOrCreateRoom(BindUser(t, conn, username).tables, roomName).tables, user.id, room.id).tables;
      HandleJoinRoom(t, conn, roomName, username) ==
        Step(t', [Emission(conn, Originator, RoomJoined(t'.rooms[room.id], t'.users[user.id])),
                  Emission(conn, OthersInRoom(Some(room.id)), UserJoined(t'.users[user.id])),
                  Emission(conn, WholeRoom(Some(room.id)), RoomUsers(UsersOf(t'.users, t'.rooms[room.id].users)))])
  {
  }

  /** A join whose user or room step fails emits a single error to the originator and keeps
      what the steps before it did: nothing when binding the user fails, the user bound or
      created when the room step fails. */
  lemma JoinFails(t: Tables, conn: ConnId, roomName: string, username: string)
    requires Valid(t)
    requires var bound := BindUser(t, conn, username);
      bound.result.Err? || FindOrCreateRoom(bound.tables, roomName).result.Err?
    ensures var bound := BindUser(t, conn, username);
      var step := HandleJoinRoom(t, conn, roomName, username);
      && |step.out| == 1 && step.out[0].origin == conn && step.out[0].scope == Originator && step.out[0].event.Error?
      && step.tables == bound.tables
      && (bound.result.Err? ==> step.tables == t)
  {
    if GetUserBySocketId(t, conn).None? {
      StoreProperties.CreateUserOutcome(t, username, conn);
    }
    var bound := BindUser(t, conn, username);
    if bound.result.Ok? {
      var t1 := bound.tables;
      if GetRoomByName(t1, roomName).None? {
        StoreProperties.CreateRoomOutcome(t1, roomName);
      }
    }
  }

  /** Otherwise the join emits exactly `room_joined` to the originator, then `user_joined` to
      the others in the room joined, then `room_users` to that whole room; the joined user is
      bound to the connection, points to the room and is its last member, and the payloads are
      the records as the store now holds them. */
  lemma JoinSucceeds(t: Tables, conn: ConnId, roomName: string, username: string)
    requires Valid(t)
    requires var bound := BindUser(t, conn, username);
      bound.result.Ok? && FindOrCreateRoom(bound.tables, roomName).result.Ok?
    ensures var bound := BindUser(t, conn, username);
      var step := HandleJoinRoom(t, conn, roomName, username);
      var r := FindOrCreateRoom(bound.tables, roomName).result.value.id;
      var u := bound.result.value.id;
      && Valid(step.tables) && step.tables.users.Keys == bound.tables.users.Keys
      && r in step.tables.rooms && u in step.tables.users
      && step.out == [Emission(conn, Originator, RoomJoined(step.tables.rooms[r], step.tables.users[u])),
                      Emission(conn, OthersInRoom(Some(r)), UserJoined(step.tables.users[u])),
                      Emission(conn, WholeRoom(Some(r)), RoomUsers(UsersOf(step.tables.users, step.tables.rooms[r].users)))]
      && step.tables.rooms[r].id == r
      && step.tables.users[u].socketId == conn && step.tables.users[u].currentRoom == Some(r)
      && step.tables.rooms[r].users != [] && step.tables.rooms[r].users[|step.tables.rooms[r].users| - 1] == u
  {
    var bound := BindUser(t, conn, username);
    var target := FindOrCreateRoom(bound.tables, roomName);
    var user, room := bound.result.value, target.result.value;
    JoinedFacts(target.tables, user.id, room.id);
    StoreProperties.JoinRoomValid(target.tables, user.id, room.id);
    JoinStep(t, conn, roomName, username, user, room);
  }

  /** Who and where a successful join places: the user already bound to the connection, or
      else a new user under the sanitised name; the stored room whose name matches up to
      case, or else a new room under the sanitised name. */
  lemma JoinTargets(t: Tables, conn: ConnId, roomName: string, username: string)
    requires Valid(t)
    requires var bound := BindUser(t, conn, username);
      bound.result.Ok? && FindOrCreateRoom(bound.tables, roomName).result.Ok?
    ensures var found := GetUserBySocketId(t, conn);
      var bound := BindUser(t, conn, username);
      var byName := GetRoomByName(bound.tables, roomName);
      var room := FindOrCreateRoom(bound.tables, roomName).result.value;
      var t' := HandleJoinRoom(t, conn, roomName, username).tables;
      var u := bound.result.value.id;
      && u in t'.users && room.id in t'.rooms && t'.users[u].currentRoom == Some(room.id)
      && (found.Some? ==> u == found.value.id && t'.users.Keys == t.users.Keys)
      && (found.None? ==> u !in t.users && t'.users[u].username == Text.SanitizeInput(username))
      && (byName.Some? ==> room.id in bound.tables.rooms && Text.SameUpToCase(t'.rooms[room.id].name, roomName))
      && (byName.None? ==> room.id !in bound.tables.rooms && t'.rooms[room.id].name == Text.SanitizeInput(roomName))
  {
    var found := GetUserBySocketId(t, conn);
    var bound := BindUser(t, conn, username);
    var byName := GetRoomByName(bound.tables, roomName);
    var target := FindOrCreateRoom(bound.tables, roomName);
    var user, room := bound.result.value, target.result.value;
    var t' := HandleJoinRoom(t, conn, roomName, username).tables;
    JoinedFacts(target.tables, user.id, room.id);
    JoinStep(t, conn, roomName, username, user, room);
    assert t' == JoinRoom(target.tables, user.id, room.id).tables;
    assert user.id in bound.tables.users && target.tables.users == bound.tables.users;
    assert t'.users[user.id].username == bound.tables.users[user.id].username;
    assert t'.rooms[room.id].name == room.name;
    if found.Some? {
      assert bound.tables.users.Keys == t.users.Keys;
    } else {
      assert bound.tables.users[user.id] == user;
    }
  }

  /** Join is not atomic: a user created for a connection that had none stays bound to it
      whether or not the room step then fails. */
  lemma JoinKeepsCreatedUser(t: Tables, conn: ConnId, roomName: string, username: string)
    requires Valid(t) && GetUserBySocketId(t, conn).None? && CreateUser(t, username, conn).result.Ok?
    ensures var step := HandleJoinRoom(t, conn, roomName, username);
      && GetUserBySocketId(step.tables, conn).Some?
      && |step.tables.users| == |t.users| + 1
  {
    var bound := BindUser(t, conn, username);
    var user := bound.result.value;
    var step := HandleJoinRoom(t, conn, roomName, username);
    assert Valid(step.tables) && user.id in step.tables.users && step.tables.users[user.id].socketId == conn
        && |step.tables.users| == |t.users| + 1 by {
      StoreProperties.CreateUserOutcome(t, username, conn);
      assert bound == CreateUser(t, username, conn);
      if FindOrCreateRoom(bound.tables, roomName).result.Ok? {
        JoinSucceeds(t, conn, roomName, username);
      } else {
        JoinFails(t, conn, roomName, username);
      }
      assert |step.tables.users| == |bound.tables.users.Keys|;
    }
    StoreProperties.GetUserBySocketIdFinds(step.tables, conn);
  }

  // ---------------------------------------------------------------------------
  // send_message

  /** A send from a connection with no user, or whose user is in another room than the one
      named, emits only an error to the originator and changes nothing. */
  lemma SendUnauthorised(t: Tables, conn: ConnId, content: string, r: Id)
    requires GetUserBySocketId(t, conn).None? || GetUserBySocketId(t, conn).value.currentRoom != Some(r)
    ensures HandleSendMessage(t, conn, content, r) == Step(t, [ErrorTo(conn, "You are not in this room")])
  {
  }

  /** An authorised send that `addMessage` refuses emits only its error and changes nothing,
      the sender's typing entry included. */
  lemma SendRejected(t: Tables, conn: ConnId, content: string, r: Id, user: User)
    requires Valid(t) && GetUserBySocketId(t, conn) == Some(user) && user.currentRoom == Some(r)
    requires AddMessage(t, content, user.id, r).result.Err?
    ensures HandleSendMessage(t, conn, content, r) == Step(t, [ErrorTo(conn, AddMessage(t, content, user.id, r).result.message)])
  {
    StoreProperties.AddMessageOutcome(t, content, user.id, r);
  }

  lemma SendStep(t: Tables, conn: ConnId, content: string, r: Id, user: User)
    requires GetUserBySocketId(t, conn) == Some(user) && user.currentRoom == Some(r)
    requires AddMessage(t, content, user.id, r).result.Ok?
    ensures var sent := AddMessage(t, content, user.id, r);
      HandleSendMessage(t, conn, content, r) ==
        Step(RemoveTypingUser(sent.tables, user.id, r),
             [Emission(conn, OthersInRoom(Some(r)), TypingStop(user.username, user.id)),
              Emission(conn, WholeRoom(Some(r)), MessageReceived(sent.result.value))])
  {
  }

  /** An accepted send appends the message to the room and the table, takes the sender out of
      the room's typing set, and emits `typing_stop` to the others before `message_received`
      to the whole room. */
  lemma SendDelivered(t: Tables, conn: ConnId, content: string, r: Id, user: User)
    requires Valid(t) && GetUserBySocketId(t, conn) == Some(user) && user.currentRoom == Some(r)
    requires AddMessage(t, content, user.id, r).result.Ok?
    ensures var step := HandleSendMessage(t, conn, content, r);
      var m := AddMessage(t, content, user.id, r).result.value;
      && step.out == [Emission(conn, OthersInRoom(Some(r)), TypingStop(user.username, user.id)),
                      Emission(conn, WholeRoom(Some(r)), MessageReceived(m))]
      && m.content == Text.SanitizeInput(content) && m.userId == user.id && m.username == user.username && m.room == r
      && r in t.rooms && r in step.tables.rooms
      && step.tables.rooms[r].messages == t.rooms[r].messages + [m]
      && step.tables.messages == t.messages[m.id := m]
      && step.tables.users == t.users
      && GetTypingUsers(step.tables, r) == GetTypingUsers(t, r) - {user.id}
  {
    var sent := AddMessage(t, content, user.id, r);
    StoreProperties.AddMessageOutcome(t, content, user.id, r);
    StoreProperties.TypingSets(sent.tables, user.id, r);
    StoreProperties.TypingFrame(sent.tables, user.id, r);
    SendStep(t, conn, content, r, user);
  }

  lemma SentTablesSettled(t: Tables, content: string, u: Id, r: Id)
    requires Settled(t)
    ensures Settled(RemoveTypingUser(AddMessage(t, content, u, r).tables, u, r))
  {
    StoreProperties.AddMessageKeeps(t, content, u, r, None);
    TypingKeepsSettled(AddMessage(t, content, u, r).tables, u, r);
  }

  lemma SendKeepsSettled(t: Tables, conn: ConnId, content: string, r: Id)
    requires Settled(t)
    ensures Settled(HandleSendMessage(t, conn, content, r).tables)
  {
    var found := GetUserBySocketId(t, conn);
    if found.Some? && found.value.currentRoom == Some(r) {
      var user := found.value;
      if AddMessage(t, content, user.id, r).result.Ok? {
        SentTablesSettled(t, content, user.id, r);
        SendStep(t, conn, content, r, user);
      } else {
        SendRejected(t, conn, content, r, user);
      }
    }
  }

  // ---------------------------------------------------------------------------
  // leave_room

  /** Leave changes nothing and emits nothing without a bound user, without a current room or
      when that room no longer exists. */
  lemma LeaveNoOp(t: Tables, conn: ConnId)
    requires Valid(t)
    requires var found := GetUserBySocketId(t, conn);
      found.None? || found.value.currentRoom.None? || found.value.currentRoom.value !in t.rooms
    ensures HandleLeaveRoom(t, conn) == Step(t, [])
  {
  }

  /** The tables a leave ends with: the typing entry cleared, then `leaveRoom`. */
  lemma LeaveTables(t: Tables, u: Id, r: Id)
    requires Valid(t) && Membership(t) && u in t.users && t.users[u].currentRoom == Some(r)
    ensures r in t.rooms
    ensures var t' := LeaveRoom(RemoveTypingUser(t, u, r), u, r);
      var remaining := RemoveAll(t.rooms[r].users, u);
      && u in t'.users && t'.users[u].currentRoom.None?
      && (forall q | q in t'.rooms :: u !in t'.rooms[q].users)
      && GetTypingUsers(t', r) == GetTypingUsers(t, r) - {u}
      && (remaining != [] <==> r in t'.rooms)
      && (r in t'.rooms ==> t'.rooms[r].users == remaining)
  {
    var t1 := RemoveTypingUser(t, u, r);
    StoreProperties.TypingSets(t, u, r);
    StoreProperties.TypingFrame(t, u, r);
    StoreProperties.SameMembersKeep(t, t1);
    StoreProperties.LeaveRoomKeeps(t1, u, r, None);
    StoreProperties.LeaveRoomOutcome(t1, u, r);
  }

  /** Otherwise the user is out of the room, its pointer cleared and its typing entry gone;
      `user_left` is emitted, then `room_users` with the members left after the removal, the
      latter exactly when the room still exists. */
  lemma LeaveEffects(t: Tables, conn: ConnId)
    requires Valid(t) && Membership(t)
    requires var found := GetUserBySocketId(t, conn);
      found.Some? && found.value.currentRoom.Some?
    ensures var user := GetUserBySocketId(t, conn).value;
      var r := user.currentRoom.value;
      var step := HandleLeaveRoom(t, conn);
      var t' := step.tables;
      && r in t.rooms
      && user.id in t'.users && t'.users[user.id].currentRoom.None?
      && (forall q | q in t'.rooms :: user.id !in t'.rooms[q].users)
      && GetTypingUsers(t', r) == GetTypingUsers(t, r) - {user.id}
      && 1 <= |step.out| <= 2
      && step.out[0].event == UserLeft(t'.users[user.id])
      && (|step.out| == 2 <==> r in t'.rooms)
      && (|step.out| == 2 ==> step.out[1].event == RoomUsers(UsersOf(t'.users, t'.rooms[r].users)))
  {
    var user := GetUserBySocketId(t, conn).value;
    var r := user.currentRoom.value;
    LeaveTables(t, user.id, r);
    LeaveStep(t, conn, user);
  }

  /** The step a leave takes, in terms of the user bound to the connection. */
  lemma LeaveStep(t: Tables, conn: ConnId, user: User)
    requires Valid(t) && GetUserBySocketId(t, conn) == Some(user)
    requires user.currentRoom.Some? && user.currentRoom.value in t.rooms
    ensures var r := user.currentRoom.value;
      var t' := LeaveRoom(RemoveTypingUser(t, user.id, r), user.id, r);
      var remaining := RemoveAll(t.rooms[r].users, user.id);
      var now := t'.users[user.id];
      HandleLeaveRoom(t, conn) == Step(t', [Emission(conn, OthersInRoom(now.currentRoom), UserLeft(now))]
        + (if |remaining| > 0 then [Emission(conn, WholeRoom(now.currentRoom), RoomUsers(UsersOf(t'.users, remaining)))] else []))
  {
  }

  /** As written, every notification of a leave is addressed to `to(null)`, so none of the
      room's members learns of it. */
  lemma LeaveAddressedToNobody(t: Tables, conn: ConnId)
    requires Valid(t)
    ensures var out := HandleLeaveRoom(t, conn).out;
      forall i | 0 <= i < |out| :: out[i].scope == OthersInRoom(None) || out[i].scope == WholeRoom(None)
  {
    var found := GetUserBySocketId(t, conn);
    if found.Some? && found.value.currentRoom.Some? && found.value.currentRoom.value in t.rooms {
      var user := found.value;
      var r := user.currentRoom.value;
      StoreProperties.TypingSets(t, user.id, r);
      StoreProperties.TypingFrame(t, user.id, r);
      StoreProperties.LeaveRoomOutcome(RemoveTypingUser(t, user.id, r), user.id, r);
      LeaveStep(t, conn, user);
    }
  }

  lemma IntendedLeaveStep(t: Tables, conn: ConnId, user: User)
    requires Valid(t) && GetUserBySocketId(t, conn) == Some(user)
    requires user.currentRoom.Some? && user.currentRoom.value in t.rooms
    ensures var r := user.currentRoom.value;
      var t' := LeaveRoom(RemoveTypingUser(t, user.id, r), user.id, r);
      var remaining := RemoveAll(t.rooms[r].users, user.id);
      var now := t'.users[user.id];
      IntendedHandleLeaveRoom(t, conn) == Step(t', [Emission(conn, OthersInRoom(Some(r)), UserLeft(now))]
        + (if |remaining| > 0 then [Emission(conn, WholeRoom(Some(r)), RoomUsers(UsersOf(t'.users, remaining)))] else []))
  {
  }

  /** The intended leave changes the store alike and emits the same events, addressed to the
      room just left. */
  lemma IntendedLeaveReachesRoom(t: Tables, conn: ConnId)
    requires Valid(t)
    ensures var written := HandleLeaveRoom(t, conn);
      var intended := IntendedHandleLeaveRoom(t, conn);
      var found := GetUserBySocketId(t, conn);
      var room := if found.Some? then found.value.currentRoom else None;
      && intended.tables == written.tables
      && |intended.out| == |written.out|
      && (|written.out| > 0 ==> room.Some? && room.value in t.rooms)
      && forall i | 0 <= i < |written.out| ::
           && intended.out[i].event == written.out[i].event
           && intended.out[i].origin == written.out[i].origin
           && (intended.out[i].scope == OthersInRoom(room) || intended.out[i].scope == WholeRoom(room))
  {
    var found := GetUserBySocketId(t, conn);
    if found.Some? && found.value.currentRoom.Some? && found.value.currentRoom.value in t.rooms {
      var user := found.value;
      var r := user.currentRoom.value;
      var t' := LeaveRoom(RemoveTypingUser(t, user.id, r), user.id, r);
      var remaining := RemoveAll(t.rooms[r].users, user.id);
      var now := t'.users[user.id];
      LeaveStep(t, conn, user);
      IntendedLeaveStep(t, conn, user);
      LeaveNoticesReaddressed(conn, now.currentRoom, Some(r), now, t'.users, remaining);
    } else {
      assert HandleLeaveRoom(t, conn) == Step(t, []) == IntendedHandleLeaveRoom(t, conn);
    }
  }

  /** The same notices addressed to two rooms differ in their addresses only. */
  lemma LeaveNoticesReaddressed(conn: ConnId, a: Option<Id>, b: Option<Id>, now: User, users: map<Id, User>, remaining: seq<Id>)
    ensures var x := LeaveNotices(conn, a, now, users, remaining);
      var y := LeaveNotices(conn, b, now, users, remaining);
      && |x| == |y|
      && forall i | 0 <= i < |x| :: x[i].event == y[i].event && x[i].origin == y[i].origin
  {
  }

  lemma LeaveTablesSettled(t: Tables, u: Id, r: Id)
    requires Settled(t) && u in t.users && t.users[u].currentRoom == Some(r)
    ensures Settled(LeaveRoom(RemoveTypingUser(t, u, r), u, r))
  {
    var t1 := RemoveTypingUser(t, u, r);
    TypingKeepsSettled(t, u, r);
    StoreProperties.LeaveRoomKeeps(t1, u, r, None);
    IdentitiesKeptSettled(t1, LeaveRoom(t1, u, r));
  }

  lemma LeaveKeepsSettled(t: Tables, conn: ConnId)
    requires Settled(t)
    ensures Settled(HandleLeaveRoom(t, conn).tables)
  {
    var found := GetUserBySocketId(t, conn);
    if found.Some? && found.value.currentRoom.Some? && found.value.currentRoom.value in t.rooms {
      var user := found.value;
      LeaveTablesSettled(t, user.id, user.currentRoom.value);
      LeaveStep(t, conn, user);
    }
  }

  // ---------------------------------------------------------------------------
  // start_typing, stop_typing

  /** Typing events change nothing unless the user's room is the one named; on a match the
      room's typing set gains (or loses) the user and the one event goes to the others in the
      room, never to the originator. */
  lemma TypingEvents(t: Tables, conn: ConnId, r: Id)
    ensures var found := GetUserBySocketId(t, conn);
      var start := HandleStartTyping(t, conn, r);
      var stop := HandleStopTyping(t, conn, r);
      && (found.None? || found.value.currentRoom != Some(r) ==> start == Step(t, []) && stop == Step(t, []))
      && (found.Some? && found.value.currentRoom == Some(r) ==>
            && GetTypingUsers(start.tables, r) == GetTypingUsers(t, r) + {found.value.id}
            && GetTypingUsers(stop.tables, r) == GetTypingUsers(t, r) - {found.value.id}
            && start.out == [Emission(conn, OthersInRoom(Some(r)), TypingStart(found.value.username, found.value.id))]
            && stop.out == [Emission(conn, OthersInRoom(Some(r)), TypingStop(found.value.username, found.value.id))])
      && (forall e | e in start.out + stop.out :: e.scope == OthersInRoom(Some(r)))
  {
    var found := GetUserBySocketId(t, conn);
    if found.Some? {
      StoreProperties.TypingSets(t, found.value.id, r);
      StoreProperties.TypingFrame(t, found.value.id, r);
    }
  }

  lemma TypingKeepsSettledAll(t: Tables, conn: ConnId, r: Id)
    requires Settled(t)
    ensures Settled(HandleStartTyping(t, conn, r).tables) && Settled(HandleStopTyping(t, conn, r).tables)
  {
    var found := GetUserBySocketId(t, conn);
    if found.Some? {
      TypingKeepsSettled(t, found.value.id, r);
    }
  }

  // ---------------------------------------------------------------------------
  // get_rooms

  /** `get_rooms` changes nothing and answers the originator alone with every room, once each. */
  lemma GetRoomsListsAll(t: Tables, conn: ConnId)
    requires Valid(t)
    ensures var step := HandleGetRooms(t, conn);
      && step.tables == t && |step.out| == 1
      && step.out[0].origin == conn && step.out[0].scope == Originator && step.out[0].event.RoomList?
      && |step.out[0].event.rooms| == |t.rooms|
      && forall q | q in t.rooms :: t.rooms[q] in step.out[0].event.rooms
  {
    StoreProperties.RoomsListedOnce(t);
  }

  // ---------------------------------------------------------------------------
  // disconnect

  lemma DisconnectNoUser(t: Tables, conn: ConnId)
    requires GetUserBySocketId(t, conn).None?
    ensures HandleDisconnect(t, conn) == Step(t, [])
  {
  }

  /** The tables a disconnect ends with: the typing entry of the user's room cleared when it
      was in one, then `removeUser`. */
  function DisconnectTables(t: Tables, user: User): Tables {
    if user.currentRoom.Some? && user.currentRoom.value in t.rooms
    then RemoveUser(RemoveTypingUser(t, user.id, user.currentRoom.value), user.id)
    else RemoveUser(t, user.id)
  }

  lemma DisconnectStep(t: Tables, conn: ConnId, user: User)
    requires GetUserBySocketId(t, conn) == Some(user)
    ensures HandleDisconnect(t, conn).tables == DisconnectTables(t, user)
    ensures IntendedHandleDisconnect(t, conn).tables == DisconnectTables(t, user)
    ensures user.currentRoom.Some? && user.currentRoom.value in t.rooms ==>
      HandleDisconnect(t, conn).out == DisconnectNotices(t, conn, user)
    ensures !(user.currentRoom.Some? && user.currentRoom.value in t.rooms) ==>
      HandleDisconnect(t, conn).out == [] && IntendedHandleDisconnect(t, conn).out == []
  {
  }

  /** Removing a user bound to a connection, in a store whose connections are unique, leaves
      no user with that id or connection and no room listing it. */
  lemma RemovedEverywhere(t: Tables, user: User)
    requires Valid(t) && Membership(t) && SocketsUnique(t)
    requires user.id in t.users && t.users[user.id] == user
    ensures var t' := RemoveUser(t, user.id);
      && GetUser(t', user.id).None?
      && GetUserBySocketId(t', user.socketId).None?
      && (forall q | q in t'.rooms :: user.id !in t'.rooms[q].users)
  {
    var t' := RemoveUser(t, user.id);
    StoreProperties.RemoveUserErases(t, user.id);
    StoreProperties.RemoveUserValid(t, user.id);
    StoreProperties.GetUserBySocketIdFinds(t', user.socketId);
  }

  lemma DisconnectTablesFacts(t: Tables, user: User)
    requires Settled(t) && user.id in t.users && t.users[user.id] == user
    ensures var t' := DisconnectTables(t, user);
      && Settled(t')
      && GetUser(t', user.id).None?
      && GetUserBySocketId(t', user.socketId).None?
      && (forall q | q in t'.rooms :: user.id !in t'.rooms[q].users)
  {
    var t1 := if user.currentRoom.Some? && user.currentRoom.value in t.rooms
      then RemoveTypingUser(t, user.id, user.currentRoom.value) else t;
    if user.currentRoom.Some? {
      TypingKeepsSettled(t, user.id, user.currentRoom.value);
    }
    assert DisconnectTables(t, user) == RemoveUser(t1, user.id);
    RemovedEverywhere(t1, user);
    StoreProperties.RemoveUserKeeps(t1, user.id, None);
    IdentitiesKeptSettled(t1, RemoveUser(t1, user.id));
  }

  /** A disconnect removes the bound user entirely: no lookup by id or connection finds it and
      no room lists it. When it was in a room, `user_left` goes to the others there, followed
      by `room_users` exactly when the room had more than one member. */
  lemma DisconnectRemoves(t: Tables, conn: ConnId)
    requires Settled(t) && GetUserBySocketId(t, conn).Some?
    ensures var user := GetUserBySocketId(t, conn).value;
      var step := HandleDisconnect(t, conn);
      && GetUser(step.tables, user.id).None?
      && GetUserBySocketId(step.tables, conn).None?
      && (forall q | q in step.tables.rooms :: user.id !in step.tables.rooms[q].users)
      && (user.currentRoom.None? ==> step.out == [])
      && (user.currentRoom.Some? ==>
            var r := user.currentRoom.value;
            && r in t.rooms
            && 1 <= |step.out| <= 2
            && step.out[0] == Emission(conn, OthersInRoom(Some(r)), UserLeft(user))
            && (|step.out| == 2 <==> |t.rooms[r].users| > 1)
            && (|step.out| == 2 ==>
                  step.out[1] == Emission(conn, WholeRoom(Some(r)), RoomUsers(UsersOf(t.users, t.rooms[r].users))))
            && GetTypingUsers(step.tables, r) == GetTypingUsers(t, r) - {user.id})
  {
    var user := GetUserBySocketId(t, conn).value;
    DisconnectTablesFacts(t, user);
    DisconnectStep(t, conn, user);
    if user.currentRoom.Some? {
      DisconnectClearsTyping(t, user);
    }
  }

  /** The typing entry of the room a departing user was in loses that user, and only that
      user: `removeUser` leaves the typing table as the typing clear left it. */
  lemma DisconnectClearsTyping(t: Tables, user: User)
    requires Valid(t) && Membership(t) && user.id in t.users && t.users[user.id] == user
    requires user.currentRoom.Some?
    ensures var r := user.currentRoom.value;
      GetTypingUsers(DisconnectTables(t, user), r) == GetTypingUsers(t, r) - {user.id}
  {
    var r := user.currentRoom.value;
    assert r in t.rooms && user.id in t.rooms[r].users;
    var t1 := RemoveTypingUser(t, user.id, r);
    StoreProperties.TypingSets(t, user.id, r);
    StoreProperties.TypingFrame(t, user.id, r);
    StoreProperties.SameMembersKeep(t, t1);
    StoreProperties.RemoveUserCascade(t1, user.id);
    assert DisconnectTables(t, user) == RemoveUser(t1, user.id);
  }

  /** As written, the member list a disconnect sends still holds the departing user, whom the
      store no longer has. */
  lemma DisconnectListHoldsDeparted(t: Tables, conn: ConnId, user: User)
    requires Valid(t) && Membership(t) && GetUserBySocketId(t, conn) == Some(user)
    requires |HandleDisconnect(t, conn).out| == 2
    ensures var step := HandleDisconnect(t, conn);
      && step.out[1].event.RoomUsers?
      && user in step.out[1].event.users
      && user.id !in step.tables.users
  {
    DisconnectStep(t, conn, user);
    if user.currentRoom.Some? && user.currentRoom.value in t.rooms {
      var room := t.rooms[user.currentRoom.value];
      MemberListed(t.users, room.users, user.id);
    }
  }

  /** The record of every member of a list whose members are all known is in the list `UsersOf`
      builds. */
  lemma {:induction false} MemberListed(users: map<Id, User>, ids: seq<Id>, k: Id)
    requires k in ids && k in users
    ensures users[k] in UsersOf(users, ids)
  {
    if ids[0] != k {
      MemberListed(users, ids[1..], k);
    }
  }

  /** The tables `removeUser` starts from in a disconnect. */
  function DisconnectTablesBefore(t: Tables, user: User): Tables {
    if user.currentRoom.Some? && user.currentRoom.value in t.rooms
    then RemoveTypingUser(t, user.id, user.currentRoom.value) else t
  }

  lemma IntendedDisconnectStep(t: Tables, conn: ConnId, user: User)
    requires GetUserBySocketId(t, conn) == Some(user) && user.currentRoom.Some? && user.currentRoom.value in t.rooms
    ensures var r := user.currentRoom.value;
      var t' := DisconnectTables(t, user);
      var remaining := RemoveAll(t.rooms[r].users, user.id);
      IntendedHandleDisconnect(t, conn).out ==
        [Emission(conn, OthersInRoom(Some(r)), UserLeft(user))]
        + (if |remaining| > 0 then [Emission(conn, WholeRoom(Some(r)), RoomUsers(UsersOf(t'.users, remaining)))] else [])
  {
  }

  /** The intended disconnect changes the store alike and emits `user_left` alike, and it
      sends a member list exactly when the written one does. */
  lemma IntendedDisconnectAgrees(t: Tables, conn: ConnId, user: User)
    requires Valid(t) && Membership(t) && GetUserBySocketId(t, conn) == Some(user)
    ensures var written := HandleDisconnect(t, conn);
      var intended := IntendedHandleDisconnect(t, conn);
      && intended.tables == written.tables
      && |intended.out| == |written.out|
      && (|intended.out| > 0 ==> intended.out[0] == written.out[0])
  {
    DisconnectStep(t, conn, user);
    if user.currentRoom.Some? && user.currentRoom.value in t.rooms {
      IntendedDisconnectStep(t, conn, user);
      RemainingAfterRemoval(t, user);
    }
  }

  /** Any member list the intended disconnect sends is the room's membership afterwards,
      which no longer holds the departed user. */
  lemma IntendedDisconnectListsRemaining(t: Tables, conn: ConnId, user: User)
    requires Valid(t) && Membership(t) && GetUserBySocketId(t, conn) == Some(user)
    ensures var intended := IntendedHandleDisconnect(t, conn);
      |intended.out| == 2 ==>
        var r := user.currentRoom.value;
        && r in intended.tables.rooms
        && intended.out[1] == Emission(conn, WholeRoom(Some(r)),
                                       RoomUsers(UsersOf(intended.tables.users, intended.tables.rooms[r].users)))
        && user.id !in intended.tables.rooms[r].users
  {
    DisconnectStep(t, conn, user);
    if user.currentRoom.Some? && user.currentRoom.value in t.rooms {
      IntendedDisconnectStep(t, conn, user);
      RemainingAfterRemoval(t, user);
    }
  }

  /** The members a departing user leaves behind: someone exactly when the room had more than
      that user, and then the room's list after the removal. */
  lemma RemainingAfterRemoval(t: Tables, user: User)
    requires Valid(t) && Membership(t) && user.id in t.users && t.users[user.id] == user
    requires user.currentRoom.Some?
    ensures var r := user.currentRoom.value;
      var t' := DisconnectTables(t, user);
      var remaining := RemoveAll(t.rooms[r].users, user.id);
      && r in t.rooms
      && (|remaining| > 0 <==> |t.rooms[r].users| > 1)
      && (|remaining| > 0 ==> r in t'.rooms && t'.rooms[r].users == remaining)
  {
    var r := user.currentRoom.value;
    var remaining := RemoveAll(t.rooms[r].users, user.id);
    assert user.id in t.rooms[r].users;
    if |t.rooms[r].users| > 1 {
      StoreProperties.OthersRemain(t.rooms[r].users, user.id);
    } else {
      assert t.rooms[r].users == [user.id];
    }
    var t1 := DisconnectTablesBefore(t, user);
    assert t1.rooms == t.rooms && t1.users == t.users && Valid(t1) && Membership(t1) by {
      StoreProperties.TypingSets(t, user.id, r);
      StoreProperties.TypingFrame(t, user.id, r);
      StoreProperties.SameMembersKeep(t, t1);
    }
    assert DisconnectTables(t, user) == RemoveUser(t1, user.id);
    StoreProperties.RemoveUserCascade(t1, user.id);
  }

  lemma DisconnectKeepsSettled(t: Tables, conn: ConnId)
    requires Settled(t)
    ensures Settled(HandleDisconnect(t, conn).tables)
  {
    var found := GetUserBySocketId(t, conn);
    if found.Some? {
      DisconnectTablesFacts(t, found.value);
      DisconnectStep(t, conn, found.value);
    }
  }

  lemma GetRoomsKeepsSettled(t: Tables, conn: ConnId)
    requires Settled(t)
    ensures Settled(HandleGetRooms(t, conn).tables)
  {
  }
}
