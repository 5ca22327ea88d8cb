/** The session coordinator's handlers (server/src/services/SocketHandler.ts) as transitions:
    each takes the store's tables, the id of the connection the event came from and the
    event's payload, and gives the tables afterwards together with the events emitted, in
    order, each with the set of connections it is addressed to. `Coordinator.SocketHandler`
    runs the same steps in place against a `Store.DataStore` and is proved to reach these.

    Payloads are the records as they stand when they are emitted: the source emits the very
    objects the store holds, which the store keeps mutating. */
module Protocol {
  import opened Entities
  import opened StoreState
  import StoreProperties

  /** Who an event is addressed to: `socket.emit` reaches the originating connection only,
      `socket.to(room)` every connection joined to the room but the originator, `io.to(room)`
      every connection joined to the room. A room of `None` is `to(null)`, a room no
      connection ever joins. */
  datatype Scope = Originator | OthersInRoom(room: Option<Id>) | WholeRoom(room: Option<Id>)

  /** The server-to-client events (server/src/types/index.ts:34-44). */
  datatype ServerEvent =
    | RoomJoined(room: Room, user: User)
    | UserJoined(user: User)
    | UserLeft(user: User)
    | RoomUsers(users: seq<User>)
    | MessageReceived(message: Message)
    | TypingStart(username: string, userId: Id)
    | TypingStop(username: string, userId: Id)
    | RoomList(rooms: seq<Room>)
    | Error(reason: string)

  datatype Emission = Emission(origin: ConnId, scope: Scope, event: ServerEvent)

  /** The tables after a handler and what it emitted. */
  datatype Step = Step(tables: Tables, out: seq<Emission>)

  /** The user records behind a member list, as `room.users` holds them. An id missing from
      the table is skipped; the store's invariants rule that out. */
  function UsersOf(users: map<Id, User>, ids: seq<Id>): (r: seq<User>)
    ensures |r| <= |ids|
    ensures (forall k | k in ids :: k in users) ==> |r| == |ids| && forall i | 0 <= i < |ids| :: r[i] == users[ids[i]]
  {
    if ids == [] then []
    else (if ids[0] in users then [users[ids[0]]] else []) + UsersOf(users, ids[1..])
  }

  /** Every emission of a handler originates from the connection it serves. */
  predicate FromConn(out: seq<Emission>, conn: ConnId) {
    forall e | e in out :: e.origin == conn
  }

  function ErrorTo(conn: ConnId, message: string): Emission {
    Emission(conn, Originator, Error(message))
  }

  // ---------------------------------------------------------------------------
  // join_room

  /** The user bound to the connection, re-bound to it, or a new one created for it. */
  function BindUser(t: Tables, conn: ConnId, username: string): (r: Update<User>)
    requires Valid(t)
    ensures Valid(r.tables)
    ensures r.result.Ok? ==> r.result.value.id in r.tables.users && r.tables.users[r.result.value.id] == r.result.value
    ensures r.result.Ok? ==> r.result.value.socketId == conn
    ensures r.result.Err? ==> r.tables == t
    // a user already bound to the connection is reused, and no user is added
    ensures var found := GetUserBySocketId(t, conn);
      found.Some? ==> r.result == Ok(found.value) && r.tables.users.Keys == t.users.Keys && r.tables.rooms == t.rooms
    // otherwise a new user, in no room, carries the sanitised name
    ensures GetUserBySocketId(t, conn).None? && r.result.Ok? ==>
      && r.result.value.id !in t.users && r.tables.users.Keys == t.users.Keys + {r.result.value.id}
      && r.result.value.username == Text.SanitizeInput(username) && r.result.value.currentRoom.None?
  {
    match GetUserBySocketId(t, conn)
    case Some(user) =>
      StoreProperties.GetUserBySocketIdFinds(t, conn);
      StoreProperties.UpdateUserSocketIdKeeps(t, user.id, conn);
      Update(Ok(user), UpdateUserSocketId(t, user.id, conn))
    case None =>
      StoreProperties.CreateUserKeepsValid(t, username, conn);
      StoreProperties.CreateUserOutcome(t, username, conn);
      CreateUser(t, username, conn)
  }

  /** The room of that name (compared up to case, the name as given), or a new one. */
  function FindOrCreateRoom(t: Tables, roomName: string): (r: Update<Room>)
    requires Valid(t)
    ensures Valid(r.tables)
    ensures r.result.Ok? ==> r.result.value.id in r.tables.rooms && r.tables.rooms[r.result.value.id] == r.result.value
    ensures r.tables.users == t.users
    ensures r.result.Err? ==> r.tables == t
    // a room whose name matches up to case is reused, and nothing changes
    ensures GetRoomByName(t, roomName).Some? ==>
      r.result.Ok? && Text.SameUpToCase(r.result.value.name, roomName) && r.tables == t
    // otherwise a new, empty room carries the sanitised name
    ensures GetRoomByName(t, roomName).None? && r.result.Ok? ==>
      && r.result.value.id !in t.rooms && r.tables.rooms.Keys == t.rooms.Keys + {r.result.value.id}
      && r.result.value.name == Text.SanitizeInput(roomName) && r.result.value.users == []
  {
    match GetRoomByName(t, roomName)
    case Some(room) => Update(Ok(room), t)
    case None =>
      StoreProperties.CreateRoomValid(t, roomName);
      StoreProperties.CreateRoomOutcome(t, roomName);
      CreateRoom(t, roomName)
  }

  /** `handleJoinRoom`. A failure at any step emits only an error to the originator and keeps
      what the steps before it did: a user created for the connection survives a room name
      that `createRoom` refuses. */
  function HandleJoinRoom(t: Tables, conn: ConnId, roomName: string, username: string): (r: Step)
    requires Valid(t)
    ensures Valid(r.tables) && FromConn(r.out, conn)
    ensures |r.out| == 1 || |r.out| == 3
    ensures |r.out| == 1 ==> r.out[0].scope == Originator && r.out[0].event.Error?
    ensures |r.out| == 3 ==> r.out[0].scope == Originator && r.out[0].event.RoomJoined?
  {
    var bound := BindUser(t, conn, username);
    if bound.result.Err? then Step(bound.tables, [ErrorTo(conn, bound.result.message)])
    else
      var user := bound.result.value;
      var target := FindOrCreateRoom(bound.tables, roomName);
      if target.result.Err? then Step(target.tables, [ErrorTo(conn, target.result.message)])
      else
        var roomId := target.result.value.id;
        StoreProperties.JoinRoomValid(target.tables, user.id, roomId);
        var joined := JoinRoom(target.tables, user.id, roomId);
        // `joinRoom` cannot fail here: the user and the room were just found or stored
        if joined.result.Err? then Step(joined.tables, [ErrorTo(conn, "User or room not found")])
        else
          Step(joined.tables, JoinNotices(joined.tables, conn, user.id, roomId))
  }

  /** What a join emits once the user is in the room: `room_joined` to the originator,
      `user_joined` to the others in the room, and the member list to the whole room. */
  function JoinNotices(t: Tables, conn: ConnId, userId: Id, roomId: Id): (out: seq<Emission>)
    requires userId in t.users && roomId in t.rooms
    ensures FromConn(out, conn) && |out| == 3
    ensures out[0].scope == Originator && out[0].event.RoomJoined?
  {
    var room := t.rooms[roomId];
    var me := t.users[userId];
    [Emission(conn, Originator, RoomJoined(room, me)),
     Emission(conn, OthersInRoom(Some(roomId)), UserJoined(me)),
     Emission(conn, WholeRoom(Some(roomId)), RoomUsers(UsersOf(t.users, room.users)))]
  }

  // ---------------------------------------------------------------------------
  // send_message

  function HandleSendMessage(t: Tables, conn: ConnId, content: string, roomId: Id): (r: Step)
    ensures FromConn(r.out, conn)
    ensures |r.out| == 1 || |r.out| == 2
    ensures |r.out| == 1 ==> r.out[0].scope == Originator && r.out[0].event.Error?
    ensures |r.out| == 2 ==> r.out[1].scope == WholeRoom(Some(roomId)) && r.out[1].event.MessageReceived?
    ensures GetUserBySocketId(t, conn).None? ==> r.tables == t
  {
    var found := GetUserBySocketId(t, conn);
    if found.None? || found.value.currentRoom != Some(roomId) then
      Step(t, [ErrorTo(conn, "You are not in this room")])
    else
      var user := found.value;
      var sent := AddMessage(t, content, user.id, roomId);
      if sent.result.Err? then Step(sent.tables, [ErrorTo(conn, sent.result.message)])
      else
        Step(RemoveTypingUser(sent.tables, user.id, roomId),
             [Emission(conn, OthersInRoom(Some(roomId)), TypingStop(user.username, user.id)),
              Emission(conn, WholeRoom(Some(roomId)), MessageReceived(sent.result.value))])
  }

  // ---------------------------------------------------------------------------
  // leave_room

  /** `handleLeaveRoom` as written. `user` is the store's own record, so after `leaveRoom`
      its `currentRoom` is null and both notifications are addressed to `to(null)`; `room`
      is the store's record too, so the member list sent is the one after removal. */
  function HandleLeaveRoom(t: Tables, conn: ConnId): (r: Step)
    requires Valid(t)
    ensures FromConn(r.out, conn) && |r.out| <= 2
    ensures r.out == [] ==> r.tables == t
    ensures r.out != [] ==> GetUserBySocketId(t, conn).Some? && r.out[0].event.UserLeft?
  {
    var found := GetUserBySocketId(t, conn);
    if found.None? || found.value.currentRoom.None? then Step(t, [])
    else
      var user := found.value;
      var roomId := user.currentRoom.value;
      if roomId !in t.rooms then Step(t, [])
      else
        var t' := LeaveRoom(RemoveTypingUser(t, user.id, roomId), user.id, roomId);
        var remaining := RemoveAll(t.rooms[roomId].users, user.id);
        var now := t'.users[user.id];
        Step(t', LeaveNotices(conn, now.currentRoom, now, t'.users, remaining))
  }

  /** `handleLeaveRoom` as evidently intended: the notifications go to the room just left. */
  function IntendedHandleLeaveRoom(t: Tables, conn: ConnId): (r: Step)
    requires Valid(t)
    ensures FromConn(r.out, conn) && |r.out| <= 2
    ensures r.out == [] ==> r.tables == t
    ensures r.out != [] ==>
      && GetUserBySocketId(t, conn).Some? && r.out[0].event.UserLeft?
      && r.out[0].scope == OthersInRoom(GetUserBySocketId(t, conn).value.currentRoom)
  {
    var found := GetUserBySocketId(t, conn);
    if found.None? || found.value.currentRoom.None? then Step(t, [])
    else
      var user := found.value;
      var roomId := user.currentRoom.value;
      if roomId !in t.rooms then Step(t, [])
      else
        var t' := LeaveRoom(RemoveTypingUser(t, user.id, roomId), user.id, roomId);
        var remaining := RemoveAll(t.rooms[roomId].users, user.id);
        var now := t'.users[user.id];
        Step(t', LeaveNotices(conn, Some(roomId), now, t'.users, remaining))
  }

  /** What a leave emits, addressed to `room`: `user_left` to the others, then the records of
      the members left, if any, to the whole room. */
  function LeaveNotices(conn: ConnId, room: Option<Id>, now: User, users: map<Id, User>, remaining: seq<Id>): (out: seq<Emission>)
    ensures FromConn(out, conn) && 1 <= |out| <= 2 && out[0].event == UserLeft(now)
    ensures |out| == 2 <==> |remaining| > 0
    ensures forall i | 0 <= i < |out| :: out[i].scope == OthersInRoom(room) || out[i].scope == WholeRoom(room)
  {
    [Emission(conn, OthersInRoom(room), UserLeft(now))]
    + (if |remaining| > 0 then [Emission(conn, WholeRoom(room), RoomUsers(UsersOf(users, remaining)))] else [])
  }

  // ---------------------------------------------------------------------------
  // start_typing, stop_typing, get_rooms

  function HandleStartTyping(t: Tables, conn: ConnId, roomId: Id): (r: Step)
    ensures FromConn(r.out, conn) && |r.out| <= 1 && r.tables.(typing := t.typing) == t
    ensures r.out == [] ==> r.tables == t
    ensures r.out != [] ==> r.out[0].scope == OthersInRoom(Some(roomId)) && r.out[0].event.TypingStart?
  {
    var found := GetUserBySocketId(t, conn);
    if found.None? || found.value.currentRoom != Some(roomId) then Step(t, [])
    else
      var user := found.value;
      Step(AddTypingUser(t, user.id, roomId),
           [Emission(conn, OthersInRoom(Some(roomId)), TypingStart(user.username, user.id))])
  }

  function HandleStopTyping(t: Tables, conn: ConnId, roomId: Id): (r: Step)
    ensures FromConn(r.out, conn) && |r.out| <= 1 && r.tables.(typing := t.typing) == t
    ensures r.out == [] ==> r.tables == t
    ensures r.out != [] ==> r.out[0].scope == OthersInRoom(Some(roomId)) && r.out[0].event.TypingStop?
  {
    var found := GetUserBySocketId(t, conn);
    if found.None? || found.value.currentRoom != Some(roomId) then Step(t, [])
    else
      var user := found.value;
      Step(RemoveTypingUser(t, user.id, roomId),
           [Emission(conn, OthersInRoom(Some(roomId)), TypingStop(user.username, user.id))])
  }

  function HandleGetRooms(t: Tables, conn: ConnId): Step {
    Step(t, [Emission(conn, Originator, RoomList(GetAllRooms(t)))])
  }

  // ---------------------------------------------------------------------------
  // disconnect

  /** What `handleDisconnect` emits before removing the user: `room.users` is read before
      `removeUser`, so the list still holds the departing user. */
  function DisconnectNotices(t: Tables, conn: ConnId, user: User): (r: seq<Emission>)
    requires user.currentRoom.Some? && user.currentRoom.value in t.rooms
    ensures FromConn(r, conn) && 1 <= |r| <= 2
    ensures r[0] == Emission(conn, OthersInRoom(user.currentRoom), UserLeft(user))
    ensures |r| == 2 <==> |t.rooms[user.currentRoom.value].users| > 1
    ensures |r| == 2 ==> r[1] == Emission(conn, WholeRoom(user.currentRoom),
                                          RoomUsers(UsersOf(t.users, t.rooms[user.currentRoom.value].users)))
  {
    var roomId := user.currentRoom.value;
    var room := t.rooms[roomId];
    [Emission(conn, OthersInRoom(Some(roomId)), UserLeft(user))]
    + (if |room.users| > 1 then [Emission(conn, WholeRoom(Some(roomId)), RoomUsers(UsersOf(t.users, room.users)))] else [])
  }

  /** `handleDisconnect` as written. */
  function HandleDisconnect(t: Tables, conn: ConnId): (r: Step)
    ensures FromConn(r.out, conn) && |r.out| <= 2
    ensures GetUserBySocketId(t, conn).None? ==> r == Step(t, [])
    ensures GetUserBySocketId(t, conn).Some? ==> GetUserBySocketId(t, conn).value.id !in r.tables.users
  {
    match GetUserBySocketId(t, conn)
    case None => Step(t, [])
    case Some(user) =>
      if user.currentRoom.Some? && user.currentRoom.value in t.rooms then
        Step(RemoveUser(RemoveTypingUser(t, user.id, user.currentRoom.value), user.id), DisconnectNotices(t, conn, user))
      else
        Step(RemoveUser(t, user.id), [])
  }

  /** `handleDisconnect` as evidently intended: the member list sent is the one left after
      the user is removed, and is sent only when someone remains. */
  function IntendedHandleDisconnect(t: Tables, conn: ConnId): (r: Step)
    ensures FromConn(r.out, conn) && |r.out| <= 2
    ensures GetUserBySocketId(t, conn).None? ==> r == Step(t, [])
    ensures GetUserBySocketId(t, conn).Some? ==> GetUserBySocketId(t, conn).value.id !in r.tables.users
  {
    match GetUserBySocketId(t, conn)
    case None => Step(t, [])
    case Some(user) =>
      if user.currentRoom.Some? && user.currentRoom.value in t.rooms then
        var roomId := user.currentRoom.value;
        var t' := RemoveUser(RemoveTypingUser(t, user.id, roomId), user.id);
        var remaining := RemoveAll(t.rooms[roomId].users, user.id);
        Step(t', [Emission(conn, OthersInRoom(Some(roomId)), UserLeft(user))]
                 + (if |remaining| > 0 then [Emission(conn, WholeRoom(Some(roomId)), RoomUsers(UsersOf(t'.users, remaining)))] else []))
      else
        Step(RemoveUser(t, user.id), [])
  }
}
