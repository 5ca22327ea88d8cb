/** What the store's operations promise, proved about the transitions of `StoreState`:
    their outcomes, error cases and the invariants they keep. */
module StoreProperties {
  import opened Entities
  import opened StoreState
  import Text

  // ---------------------------------------------------------------------------
  // Helpers

  lemma {:induction false} RemoveAllNoDup(s: seq<Id>, x: Id)
    requires NoDup(s)
    ensures NoDup(RemoveAll(s, x))
  {
    if s != [] {
      assert NoDup(s[1..]);
      RemoveAllNoDup(s[1..], x);
      var rest := RemoveAll(s[1..], x);
      assert s[0] !in s[1..];
      assert s[0] !in rest;
    }
  }

  lemma AppendFreshNoDup(s: seq<Id>, x: Id)
    requires NoDup(s) && x !in s
    ensures NoDup(s + [x])
  {
    assert forall i | 0 <= i < |s| :: (s + [x])[i] == s[i];
  }

  /** A member list without duplicates that holds `x` and more keeps a member once `x` is filtered out. */
  lemma OthersRemain(s: seq<Id>, x: Id)
    requires NoDup(s) && x in s && s != [x]
    ensures RemoveAll(s, x) != []
  {
    var y := if s[0] != x then s[0] else s[1];
    assert y in s && y != x;
  }

  /** The records of a table agree on every field that names and sockets depend on. */
  ghost predicate IdentitiesKept(t: Tables, t': Tables) {
    && t'.users.Keys <= t.users.Keys
    && (forall k | k in t'.users :: t'.users[k].id == t.users[k].id
          && t'.users[k].username == t.users[k].username && t'.users[k].socketId == t.users[k].socketId)
    && t'.rooms.Keys <= t.rooms.Keys
    && (forall k | k in t'.rooms :: t'.rooms[k].id == t.rooms[k].id && t'.rooms[k].name == t.rooms[k].name)
  }

  lemma IdentitiesKeptNames(t: Tables, t': Tables)
    requires IdentitiesKept(t, t')
    ensures UniqueNames(t) ==> UniqueNames(t')
    ensures SocketsUnique(t) ==> SocketsUnique(t')
  {
  }

  /** The user pointers and member lists, all that membership depends on, are unchanged. */
  ghost predicate SameMembers(t: Tables, t': Tables) {
    && t'.users.Keys == t.users.Keys
    && (forall k | k in t.users :: t'.users[k].currentRoom == t.users[k].currentRoom)
    && t'.rooms.Keys == t.rooms.Keys
    && (forall k | k in t.rooms :: t'.rooms[k].users == t.rooms[k].users)
  }

  lemma SameMembersKeep(t: Tables, t': Tables)
    requires SameMembers(t, t') && Membership(t)
    ensures Membership(t')
  {
    forall q, v | q in t'.rooms && v in t'.rooms[q].users
      ensures v in t'.users && t'.users[v].currentRoom == Some(q)
    {
      assert v in t.rooms[q].users;
    }
    forall q | q in t'.rooms ensures NoDup(t'.rooms[q].users) {
      assert t'.rooms[q].users == t.rooms[q].users;
    }
  }

  /** A new user in no room, or a new room with no members, keeps membership. */
  lemma AddRoomlessUserKeeps(t: Tables, t': Tables, user: User)
    requires Membership(t) && user.id !in t.users && user.currentRoom.None?
    requires t'.users == t.users[user.id := user] && t'.rooms == t.rooms
    ensures Membership(t')
  {
    forall w | w in t'.users && t'.users[w].currentRoom.Some?
      ensures t'.users[w].currentRoom.value in t'.rooms && w in t'.rooms[t'.users[w].currentRoom.value].users
    {
      assert w in t.users && t'.users[w] == t.users[w];
    }
    forall q, v | q in t'.rooms && v in t'.rooms[q].users
      ensures v in t'.users && t'.users[v].currentRoom == Some(q)
    {
      assert v in t.rooms[q].users;
      assert v != user.id;
    }
  }

  lemma AddEmptyRoomKeeps(t: Tables, t': Tables, room: Room)
    requires Membership(t) && room.id !in t.rooms && room.users == []
    requires t'.rooms == t.rooms[room.id := room] && t'.users == t.users
    ensures Membership(t')
  {
    forall w | w in t'.users && t'.users[w].currentRoom.Some?
      ensures t'.users[w].currentRoom.value in t'.rooms && w in t'.rooms[t'.users[w].currentRoom.value].users
    {
      var q := t.users[w].currentRoom.value;
      assert q in t.rooms && q != room.id;
    }
    forall q, v | q in t'.rooms && v in t'.rooms[q].users
      ensures v in t'.users && t'.users[v].currentRoom == Some(q)
    {
      assert q != room.id;
      assert v in t.rooms[q].users;
    }
  }

  // ---------------------------------------------------------------------------
  // Membership consequences

  /** A user is listed in at most one room, and only in the one its pointer names. */
  lemma AtMostOneRoom(t: Tables, r1: Id, r2: Id, v: Id)
    requires Membership(t)
    requires r1 in t.rooms && r2 in t.rooms && v in t.rooms[r1].users && v in t.rooms[r2].users
    ensures r1 == r2 && v in t.users && t.users[v].currentRoom == Some(r1)
  {
    assert v in t.users && t.users[v].currentRoom == Some(r1);
    assert t.users[v].currentRoom == Some(r2);
  }

  /** A user without a room pointer is listed in no room. */
  lemma RoomlessIsListedNowhere(t: Tables, u: Id)
    requires Membership(t) && u in t.users && t.users[u].currentRoom.None?
    ensures forall q | q in t.rooms :: u !in t.rooms[q].users
  {
  }

  // ---------------------------------------------------------------------------
  // leaveRoom

  lemma LeaveRoomOutcome(t: Tables, u: Id, r: Id)
    ensures var t' := LeaveRoom(t, u, r);
      && (u !in t.users || r !in t.rooms ==> t' == t)
      && (u in t.users && r in t.rooms ==>
            var remaining := RemoveAll(t.rooms[r].users, u);
            && t'.users == t.users[u := t.users[u].(currentRoom := None)]
            && (remaining == [] <==> r !in t'.rooms)
            && (remaining == [] ==>
                  (t'.rooms == t.rooms - {r} && t'.messages == PurgeRoom(t.messages, r)
                   && forall k | k in t'.messages :: t'.messages[k].room != r))
            && (remaining != [] ==>
                  (t'.rooms == t.rooms[r := t.rooms[r].(users := remaining)] && t'.messages == t.messages)))
  {
  }

  /** What leaveRoom leaves alone: other rooms, other users, names and sockets. */
  lemma LeaveRoomFrame(t: Tables, u: Id, r: Id)
    ensures var t' := LeaveRoom(t, u, r);
      && IdentitiesKept(t, t')
      && (forall q | q in t'.rooms && q != r :: t'.rooms[q] == t.rooms[q])
      && (forall v | v in t'.users && v != u :: t'.users[v] == t.users[v])
      && (forall q | q in t.rooms && q != r :: q in t'.rooms)
  {
  }

  lemma LeaveRoomKeepsValid(t: Tables, u: Id, r: Id, except: Option<Id>)
    requires Valid(t)
    ensures var t' := LeaveRoom(t, u, r);
      Valid(t') && (NoEmptyRoomsBut(t, except) ==> NoEmptyRoomsBut(t', except))
  {
    if u in t.users && r in t.rooms {
      var t' := LeaveRoom(t, u, r);
      LeaveRoomShape(t, u, r);
      assert forall k | k in t'.messages :: k in t.messages && t'.messages[k] == t.messages[k] && t'.messages[k].room in t'.rooms;
    }
  }

  /** The tables a leave produces, described without the function: the user's pointer is
      cleared, the room keeps the members left and survives exactly when there are any, and
      every other room is kept. */
  ghost predicate LeftShape(t: Tables, t': Tables, u: Id, r: Id) {
    && u in t.users && r in t.rooms
    && t'.users == t.users[u := t.users[u].(currentRoom := None)]
    && t'.rooms.Keys <= t.rooms.Keys
    && (forall q | q in t.rooms && q != r :: q in t'.rooms && t'.rooms[q] == t.rooms[q])
    && (r in t'.rooms <==> RemoveAll(t.rooms[r].users, u) != [])
    && (r in t'.rooms ==> t'.rooms[r].users == RemoveAll(t.rooms[r].users, u))
  }

  lemma LeaveRoomShape(t: Tables, u: Id, r: Id)
    requires u in t.users && r in t.rooms
    ensures LeftShape(t, LeaveRoom(t, u, r), u, r)
  {
    LeaveRoomOutcome(t, u, r);
  }

  /** Every remaining pointer still names a room that lists its user. */
  lemma LeftKeepsPointers(t: Tables, t': Tables, u: Id, r: Id)
    requires Membership(t) && LeftShape(t, t', u, r)
    ensures forall w | w in t'.users && t'.users[w].currentRoom.Some? ::
      t'.users[w].currentRoom.value in t'.rooms && w in t'.rooms[t'.users[w].currentRoom.value].users
  {
    forall w | w in t'.users && t'.users[w].currentRoom.Some?
      ensures t'.users[w].currentRoom.value in t'.rooms && w in t'.rooms[t'.users[w].currentRoom.value].users
    {
      assert w != u && t'.users[w] == t.users[w];
      var q := t.users[w].currentRoom.value;
      assert q in t.rooms && w in t.rooms[q].users;
      if q == r {
        assert w in RemoveAll(t.rooms[r].users, u);
      }
    }
  }

  /** Every remaining member is still a user pointing at its room, provided the leaver was
      in that room or in none. */
  lemma LeftKeepsMembers(t: Tables, t': Tables, u: Id, r: Id)
    requires Membership(t) && LeftShape(t, t', u, r)
    requires t.users[u].currentRoom in {None, Some(r)}
    ensures forall q, v | q in t'.rooms && v in t'.rooms[q].users :: v in t'.users && t'.users[v].currentRoom == Some(q)
  {
    forall q, v | q in t'.rooms && v in t'.rooms[q].users
      ensures v in t'.users && t'.users[v].currentRoom == Some(q)
    {
      assert q in t.rooms;
      if q == r {
        assert v != u && v in t.rooms[r].users;
      } else {
        assert v in t.rooms[q].users;
        assert t.users[v].currentRoom == Some(q);
        assert v != u;
      }
    }
  }

  lemma LeftKeepsMembership(t: Tables, t': Tables, u: Id, r: Id)
    requires Membership(t) && LeftShape(t, t', u, r)
    requires t.users[u].currentRoom in {None, Some(r)}
    ensures Membership(t') && t'.users[u].currentRoom.None?
    ensures forall q | q in t'.rooms :: u !in t'.rooms[q].users
  {
    RemoveAllNoDup(t.rooms[r].users, u);
    LeftKeepsPointers(t, t', u, r);
    LeftKeepsMembers(t, t', u, r);
    forall q | q in t'.rooms ensures NoDup(t'.rooms[q].users) && u !in t'.rooms[q].users {
      if q != r {
        assert t'.rooms[q] == t.rooms[q];
      }
    }
  }

  lemma LeaveRoomKeepsMembership(t: Tables, u: Id, r: Id)
    requires Membership(t) && u in t.users && r in t.rooms
    requires t.users[u].currentRoom in {None, Some(r)}
    ensures var t' := LeaveRoom(t, u, r);
      && Membership(t')
      && t'.users[u].currentRoom.None?
      && (forall q | q in t'.rooms :: u !in t'.rooms[q].users)
  {
    LeaveRoomShape(t, u, r);
    LeftKeepsMembership(t, LeaveRoom(t, u, r), u, r);
  }

  /** Leaving the room the user is in (or leaving while in none) keeps every invariant,
      and afterwards the user is listed nowhere. */
  lemma LeaveRoomKeeps(t: Tables, u: Id, r: Id, except: Option<Id>)
    requires Valid(t) && Membership(t)
    requires u in t.users ==> t.users[u].currentRoom in {None, Some(r)}
    ensures var t' := LeaveRoom(t, u, r);
      && Valid(t') && Membership(t') && IdentitiesKept(t, t')
      && (NoEmptyRoomsBut(t, except) ==> NoEmptyRoomsBut(t', except))
      && (u in t.users && r in t.rooms ==> t'.users[u].currentRoom.None?)
      && (u in t.users && r in t.rooms ==> forall q | q in t'.rooms :: u !in t'.rooms[q].users)
      && (forall q | q in t'.rooms && q != r :: t'.rooms[q] == t.rooms[q])
      && (forall v | v in t'.users && v != u :: t'.users[v] == t.users[v])
  {
    LeaveRoomFrame(t, u, r);
    LeaveRoomKeepsValid(t, u, r, except);
    if u in t.users && r in t.rooms {
      LeaveRoomKeepsMembership(t, u, r);
    }
  }

  /** Leaving some other room than the user's own breaks the pointer/member agreement:
      the pointer is cleared though the user stays listed in its room. */
  lemma LeaveOtherRoomStrandsMember(t: Tables, u: Id, r: Id, own: Id)
    requires Membership(t) && u in t.users && r in t.rooms && t.users[u].currentRoom == Some(own) && own != r
    ensures var t' := LeaveRoom(t, u, r);
      own in t'.rooms && u in t'.rooms[own].users && t'.users[u].currentRoom.None? && !Membership(t')
  {
    var t' := LeaveRoom(t, u, r);
    assert own in t'.rooms && t'.rooms[own] == t.rooms[own];
  }

  // ---------------------------------------------------------------------------
  // createUser, updateUserSocketId, createRoom

  /** `createUser` fails, changing nothing, exactly when the sanitised name is shorter than 2,
      longer than 20 or taken up to case; otherwise it adds one fresh user in no room. */
  lemma CreateUserOutcome(t: Tables, username: string, socketId: ConnId)
    requires Valid(t)
    ensures var name := Text.SanitizeInput(username);
      var up := CreateUser(t, username, socketId);
      && (up.result.Ok? <==> MinNameLength <= Text.Utf16Length(name) <= MaxUsernameLength && !UsernameTaken(t.users, name))
      && (Text.Utf16Length(name) < MinNameLength ==> up.result == Err("Username must be at least 2 characters long"))
      && (up.result.Err? ==> up.tables == t)
      && (up.result.Ok? ==>
            var u := up.result.value;
            && u.id !in t.users && u.username == name && u.currentRoom.None? && u.socketId == socketId
            && up.tables.users == t.users[u.id := u]
            && |up.tables.users| == |t.users| + 1
            && up.tables.rooms == t.rooms && up.tables.messages == t.messages && up.tables.typing == t.typing)
  {
  }

  /** A user whose name no other user has up to case keeps usernames unique. */
  lemma AddUnclashedUserKeepsNames(t: Tables, user: User)
    requires UniqueNames(t) && user.id !in t.users && !UsernameTaken(t.users, user.username)
    ensures UniqueNames(EnrolUser(t, user))
  {
    var t' := EnrolUser(t, user);
    forall a, b | a in t'.users && b in t'.users && Text.SameUpToCase(t'.users[a].username, t'.users[b].username)
      ensures a == b
    {
      if a != user.id && b != user.id {
        assert Text.SameUpToCase(t.users[a].username, t.users[b].username);
      } else if a == user.id && b != user.id {
        assert Text.SameUpToCase(t.users[b].username, user.username);
      }
    }
  }

  lemma CreateUserKeepsNames(t: Tables, username: string, socketId: ConnId)
    requires Valid(t) && UniqueNames(t)
    ensures UniqueNames(CreateUser(t, username, socketId).tables)
  {
    var name := Text.SanitizeInput(username);
    if Text.Utf16Length(name) < MinNameLength || Text.Utf16Length(name) > MaxUsernameLength || UsernameTaken(t.users, name) {
      assert CreateUser(t, username, socketId).tables == t;
    } else {
      var user := User(t.nextId, name, None, socketId);
      assert CreateUser(t, username, socketId).tables == EnrolUser(t, user);
      AddUnclashedUserKeepsNames(t, user);
    }
  }

  lemma CreateUserKeepsMembership(t: Tables, username: string, socketId: ConnId)
    requires Valid(t) && Membership(t)
    ensures Membership(CreateUser(t, username, socketId).tables)
  {
    var up := CreateUser(t, username, socketId);
    if up.result.Ok? {
      AddRoomlessUserKeeps(t, up.tables, up.result.value);
    }
  }

  lemma CreateUserKeepsSockets(t: Tables, username: string, socketId: ConnId)
    requires Valid(t) && SocketsUnique(t) && GetUserBySocketId(t, socketId).None?
    ensures SocketsUnique(CreateUser(t, username, socketId).tables)
  {
    var up := CreateUser(t, username, socketId);
    if up.result.Ok? {
      GetUserBySocketIdFinds(t, socketId);
      EnrolUnboundKeepsSockets(t, up.result.value);
    }
  }

  /** A user on a connection no user is bound to keeps connections unique. */
  lemma EnrolUnboundKeepsSockets(t: Tables, user: User)
    requires SocketsUnique(t) && user.id !in t.users
    requires forall k | k in t.users :: t.users[k].socketId != user.socketId
    ensures SocketsUnique(EnrolUser(t, user))
  {
  }

  /** A user created on a connection no user is bound to keeps every invariant. */
  lemma CreateUserKeeps(t: Tables, username: string, socketId: ConnId, except: Option<Id>)
    requires Valid(t) && Membership(t) && UniqueNames(t) && SocketsUnique(t)
    requires GetUserBySocketId(t, socketId).None?
    ensures Valid(CreateUser(t, username, socketId).tables)
    ensures Membership(CreateUser(t, username, socketId).tables)
    ensures UniqueNames(CreateUser(t, username, socketId).tables)
    ensures SocketsUnique(CreateUser(t, username, socketId).tables)
    ensures NoEmptyRoomsBut(t, except) ==> NoEmptyRoomsBut(CreateUser(t, username, socketId).tables, except)
  {
    CreateUserKeepsNames(t, username, socketId);
    CreateUserKeepsMembership(t, username, socketId);
    CreateUserKeepsSockets(t, username, socketId);
    CreateUserKeepsValid(t, username, socketId);
  }

  /** A record under the next fresh id keeps the store's own invariant. */
  lemma AddFreshUserValid(t: Tables, user: User)
    requires Valid(t) && user.id == t.nextId
    ensures Valid(EnrolUser(t, user))
  {
  }

  lemma AddFreshRoomValid(t: Tables, room: Room)
    requires Valid(t) && room.id == t.nextId
    ensures Valid(OpenRoom(t, room))
  {
  }

  lemma CreateUserKeepsValid(t: Tables, username: string, socketId: ConnId)
    requires Valid(t)
    ensures Valid(CreateUser(t, username, socketId).tables)
    ensures CreateUser(t, username, socketId).tables.rooms == t.rooms
  {
    var name := Text.SanitizeInput(username);
    if Text.Utf16Length(name) < MinNameLength || Text.Utf16Length(name) > MaxUsernameLength || UsernameTaken(t.users, name) {
      assert CreateUser(t, username, socketId).tables == t;
    } else {
      var user := User(t.nextId, name, None, socketId);
      assert CreateUser(t, username, socketId).tables == EnrolUser(t, user);
      AddFreshUserValid(t, user);
    }
  }


  /** Re-binding a user to the connection it already has changes nothing; any re-binding
      keeps the store's invariants but the uniqueness of connections. */
  lemma UpdateUserSocketIdKeeps(t: Tables, u: Id, socketId: ConnId)
    ensures u in t.users && t.users[u].socketId == socketId ==> UpdateUserSocketId(t, u, socketId) == t
    ensures u !in t.users ==> UpdateUserSocketId(t, u, socketId) == t
    ensures u in t.users ==> UpdateUserSocketId(t, u, socketId).users[u].socketId == socketId
    ensures var t' := UpdateUserSocketId(t, u, socketId);
      && (Valid(t) ==> Valid(t')) && (Membership(t) ==> Membership(t')) && (UniqueNames(t) ==> UniqueNames(t'))
      && t'.rooms == t.rooms && t'.messages == t.messages && t'.typing == t.typing
  {
  }

  /** `createRoom` fails, changing nothing, exactly when the sanitised name is shorter than 2,
      longer than 30 or taken up to case; otherwise it adds one fresh, empty room. */
  lemma CreateRoomOutcome(t: Tables, roomName: string)
    requires Valid(t)
    ensures var name := Text.SanitizeInput(roomName);
      var up := CreateRoom(t, roomName);
      && (up.result.Ok? <==> MinNameLength <= Text.Utf16Length(name) <= MaxRoomNameLength && !RoomNameTaken(t.rooms, name))
      && (up.result.Err? ==> up.tables == t)
      && (up.result.Ok? ==>
            var room := up.result.value;
            && room.id !in t.rooms && room.name == name && room.users == [] && room.messages == []
            && up.tables.rooms == t.rooms[room.id := room]
            && up.tables.users == t.users && up.tables.messages == t.messages && up.tables.typing == t.typing)
  {
  }

  /** Whatever the membership, `createRoom` keeps the store's own invariant. */
  lemma CreateRoomValid(t: Tables, roomName: string)
    requires Valid(t)
    ensures Valid(CreateRoom(t, roomName).tables)
  {
    var up := CreateRoom(t, roomName);
    if up.result.Ok? {
      AddFreshRoomValid(t, up.result.value);
    }
  }

  /** A room whose name no other room has up to case keeps room names unique. */
  lemma AddUnclashedRoomKeepsNames(t: Tables, room: Room)
    requires UniqueNames(t) && room.id !in t.rooms && !RoomNameTaken(t.rooms, room.name)
    ensures UniqueNames(OpenRoom(t, room))
  {
    var t' := OpenRoom(t, room);
    forall a, b | a in t'.rooms && b in t'.rooms && Text.SameUpToCase(t'.rooms[a].name, t'.rooms[b].name)
      ensures a == b
    {
      if a != room.id && b != room.id {
        assert Text.SameUpToCase(t.rooms[a].name, t.rooms[b].name);
      } else if a == room.id && b != room.id {
        assert Text.SameUpToCase(t.rooms[b].name, room.name);
      }
    }
  }

  lemma CreateRoomKeepsNames(t: Tables, roomName: string)
    requires Valid(t) && UniqueNames(t)
    ensures UniqueNames(CreateRoom(t, roomName).tables)
  {
    var name := Text.SanitizeInput(roomName);
    if Text.Utf16Length(name) < MinNameLength || Text.Utf16Length(name) > MaxRoomNameLength || RoomNameTaken(t.rooms, name) {
      assert CreateRoom(t, roomName).tables == t;
    } else {
      var room := Room(t.nextId, name, [], []);
      assert CreateRoom(t, roomName).tables == OpenRoom(t, room);
      AddUnclashedRoomKeepsNames(t, room);
    }
  }

  /** A created room keeps every invariant except that it is itself empty until joined. */
  lemma CreateRoomKeeps(t: Tables, roomName: string)
    requires Valid(t) && Membership(t) && UniqueNames(t)
    ensures Valid(CreateRoom(t, roomName).tables)
    ensures Membership(CreateRoom(t, roomName).tables)
    ensures UniqueNames(CreateRoom(t, roomName).tables)
    ensures SocketsUnique(t) ==> SocketsUnique(CreateRoom(t, roomName).tables)
    ensures var up := CreateRoom(t, roomName);
      NoEmptyRooms(t) ==> NoEmptyRoomsBut(up.tables, if up.result.Ok? then Some(up.result.value.id) else None)
  {
    CreateRoomValid(t, roomName);
    CreateRoomKeepsNames(t, roomName);
    CreateRoomKeepsMembership(t, roomName);
    CreateRoomFrame(t, roomName);
  }

  lemma CreateRoomFrame(t: Tables, roomName: string)
    ensures var up := CreateRoom(t, roomName);
      && (up.result.Err? ==> up.tables == t)
      && (up.result.Ok? ==> up.tables == OpenRoom(t, up.result.value) && up.result.value.users == [])
  {
  }

  lemma CreateRoomKeepsMembership(t: Tables, roomName: string)
    requires Valid(t) && Membership(t)
    ensures Membership(CreateRoom(t, roomName).tables)
  {
    var up := CreateRoom(t, roomName);
    if up.result.Ok? {
      AddEmptyRoomKeeps(t, up.tables, up.result.value);
    }
  }

  // ---------------------------------------------------------------------------
  // joinRoom

  /** Placing a user who is listed nowhere into a room whose other members all point to it. */
  lemma PlaceKeepsMembership(left: Tables, u: Id, r: Id, room: Room)
    requires Membership(left) && u in left.users && left.users[u].currentRoom.None?
    requires u !in room.users && NoDup(room.users)
    requires forall v | v in room.users :: v in left.users && left.users[v].currentRoom == Some(r)
    requires r in left.rooms ==> left.rooms[r].users == room.users
    ensures var t' := left.(users := left.users[u := left.users[u].(currentRoom := Some(r))],
                             rooms := left.rooms[r := room.(users := room.users + [u])]);
      Membership(t')
  {
    var t' := left.(users := left.users[u := left.users[u].(currentRoom := Some(r))],
                    rooms := left.rooms[r := room.(users := room.users + [u])]);
    AppendFreshNoDup(room.users, u);
    RoomlessIsListedNowhere(left, u);
    forall w | w in t'.users && t'.users[w].currentRoom.Some?
      ensures t'.users[w].currentRoom.value in t'.rooms && w in t'.rooms[t'.users[w].currentRoom.value].users
    {
      if w != u {
        var q := left.users[w].currentRoom.value;
        if q == r {
          assert w in left.rooms[r].users;
        }
      }
    }
    forall q, v | q in t'.rooms && v in t'.rooms[q].users
      ensures v in t'.users && t'.users[v].currentRoom == Some(q)
    {
      if q == r {
        assert v in room.users || v == u;
      } else {
        assert v in left.rooms[q].users;
      }
    }
  }

  /** The state `joinRoom` reaches after leaving the user's previous room. */
  function LeftForJoin(t: Tables, u: Id): Tables
    requires u in t.users
  {
    var previous := t.users[u].currentRoom;
    if previous.Some? then LeaveRoom(t, u, previous.value) else t
  }

  /** The room record `joinRoom` appends the user to: the one fetched before leaving, filtered
      by that leave when it was the same room. */
  function RoomForJoin(t: Tables, u: Id, r: Id): Room
    requires u in t.users && r in t.rooms
  {
    if t.users[u].currentRoom == Some(r) then t.rooms[r].(users := RemoveAll(t.rooms[r].users, u)) else t.rooms[r]
  }

  /** Leaving the previous room on the way to another keeps the invariants and leaves the user
      in no room. */
  lemma JoinRoomLeftTables(t: Tables, u: Id, r: Id)
    requires Valid(t) && Membership(t) && u in t.users
    ensures var left := LeftForJoin(t, u);
      && Valid(left) && Membership(left) && IdentitiesKept(t, left)
      && u in left.users && left.users[u].currentRoom.None? && left.users.Keys == t.users.Keys
      && (NoEmptyRoomsBut(t, Some(r)) ==> NoEmptyRoomsBut(left, Some(r)))
  {
    var previous := t.users[u].currentRoom;
    if previous.Some? {
      LeaveRoomKeeps(t, u, previous.value, Some(r));
    }
  }

  /** The room `joinRoom` re-inserts holds the target room's former members other than the
      user, each of them still pointing to it after the user left its previous room. */
  lemma JoinRoomRoomShape(t: Tables, u: Id, r: Id)
    requires Valid(t) && Membership(t) && u in t.users && r in t.rooms
    ensures var room := RoomForJoin(t, u, r);
      && room.users == RemoveAll(t.rooms[r].users, u) && room.id == r && room.name == t.rooms[r].name
      && room.messages == t.rooms[r].messages
      && u !in room.users && NoDup(room.users)
  {
    RemoveAllNoDup(t.rooms[r].users, u);
    if t.users[u].currentRoom != Some(r) {
      assert u !in t.rooms[r].users;
    }
  }

  /** Leaving the previous room changes no other user's record. */
  lemma LeftForJoinKeepsOthers(t: Tables, u: Id)
    requires u in t.users
    ensures var left := LeftForJoin(t, u);
      forall v | v in t.users && v != u :: v in left.users && left.users[v] == t.users[v]
  {
  }

  /** The target room, if it survived leaving the previous one, lists the members `joinRoom`
      appends to. */
  lemma LeftForJoinRoom(t: Tables, u: Id, r: Id)
    requires Membership(t) && u in t.users && r in t.rooms && r in LeftForJoin(t, u).rooms
    ensures LeftForJoin(t, u).rooms[r].users == RoomForJoin(t, u, r).users
  {
    var previous := t.users[u].currentRoom;
    if previous.Some? && previous.value != r {
      assert u !in t.rooms[r].users;
      assert LeftForJoin(t, u).rooms[r] == t.rooms[r];
    }
  }

  /** After leaving the previous room, the room's remaining members still point to it, and
      the room, if it survived, lists exactly them. */
  lemma JoinRoomLeftState(t: Tables, u: Id, r: Id)
    requires Valid(t) && Membership(t) && u in t.users && r in t.rooms
    ensures var left := LeftForJoin(t, u);
      var room := RoomForJoin(t, u, r);
      && (forall v | v in room.users :: v in left.users && left.users[v].currentRoom == Some(r))
      && (r in left.rooms ==> left.rooms[r].users == room.users)
  {
    JoinRoomRoomShape(t, u, r);
    RemainingStillPoint(t, u, r);
    if r in LeftForJoin(t, u).rooms {
      LeftForJoinRoom(t, u, r);
    }
  }

  lemma RemainingStillPoint(t: Tables, u: Id, r: Id)
    requires Membership(t) && u in t.users && r in t.rooms
    ensures var left := LeftForJoin(t, u);
      forall v | v in RemoveAll(t.rooms[r].users, u) :: v in left.users && left.users[v].currentRoom == Some(r)
  {
    var left := LeftForJoin(t, u);
    LeftForJoinKeepsOthers(t, u);
    forall v | v in RemoveAll(t.rooms[r].users, u)
      ensures v in left.users && left.users[v].currentRoom == Some(r)
    {
      assert v != u && v in t.rooms[r].users;
    }
  }

  /** The tables `joinRoom` ends with, in terms of the state after leaving the previous room. */
  function Placed(left: Tables, u: Id, r: Id, room: Room): Tables
    requires u in left.users
  {
    left.(users := left.users[u := left.users[u].(currentRoom := Some(r))],
          rooms := left.rooms[r := room.(users := room.users + [u])])
  }

  lemma PlaceKeepsTables(t: Tables, left: Tables, u: Id, r: Id, room: Room)
    requires Valid(left) && IdentitiesKept(t, left) && u in left.users && r in t.rooms
    requires r < left.nextId && room.id == r && t.rooms[r].id == r && room.name == t.rooms[r].name
    requires left.users.Keys == t.users.Keys
    ensures var t' := Placed(left, u, r, room);
      && Valid(t') && IdentitiesKept(t, t')
      && (NoEmptyRoomsBut(left, Some(r)) ==> NoEmptyRooms(t'))
  {
  }

  lemma JoinRoomIsPlaced(t: Tables, u: Id, r: Id)
    requires u in t.users && r in t.rooms
    ensures LeftForJoin(t, u).users.Keys == t.users.Keys
    ensures JoinRoom(t, u, r) == Update(Ok(()), Placed(LeftForJoin(t, u), u, r, RoomForJoin(t, u, r)))
  {
  }

  /** A successful `joinRoom` keeps the invariants, and fills the room it may have found empty. */
  lemma JoinRoomKeepsTables(t: Tables, u: Id, r: Id)
    requires Valid(t) && Membership(t) && u in t.users && r in t.rooms
    ensures var t' := JoinRoom(t, u, r).tables;
      && Valid(t') && Membership(t') && IdentitiesKept(t, t')
      && (NoEmptyRoomsBut(t, Some(r)) ==> NoEmptyRooms(t'))
  {
    var left := LeftForJoin(t, u);
    var room := RoomForJoin(t, u, r);
    JoinRoomLeftTables(t, u, r);
    JoinRoomRoomShape(t, u, r);
    JoinRoomLeftState(t, u, r);
    JoinRoomIsPlaced(t, u, r);
    PlaceKeepsTables(t, left, u, r, room);
    PlaceKeepsMembership(left, u, r, room);
  }

  /** Whatever the membership, `joinRoom` keeps the store's own invariant. */
  lemma JoinRoomValid(t: Tables, u: Id, r: Id)
    requires Valid(t)
    ensures Valid(JoinRoom(t, u, r).tables)
  {
    if u in t.users && r in t.rooms {
      var previous := t.users[u].currentRoom;
      if previous.Some? {
        LeaveRoomFrame(t, u, previous.value);
        LeaveRoomKeepsValid(t, u, previous.value, None);
      }
      JoinRoomIsPlaced(t, u, r);
      PlaceKeepsTables(t, LeftForJoin(t, u), u, r, RoomForJoin(t, u, r));
    }
  }

  /** `joinRoom` fails, changing nothing, exactly for an unknown user or room. */
  lemma JoinRoomFails(t: Tables, u: Id, r: Id)
    ensures var up := JoinRoom(t, u, r);
      && (up.result.Err? <==> u !in t.users || r !in t.rooms)
      && (up.result.Err? ==> up.tables == t)
  {
  }

  /** A successful `joinRoom` leaves the user pointing to the room and listed in it exactly
      once, at the end, and in no other room, while the room's other members stay (the
      invariants: `JoinRoomKeepsTables`). */
  lemma JoinRoomPlacesOnce(t: Tables, u: Id, r: Id)
    requires Valid(t) && Membership(t) && u in t.users && r in t.rooms
    ensures var t' := JoinRoom(t, u, r).tables;
      && t'.users[u].currentRoom == Some(r)
      && t'.rooms[r].users == RemoveAll(t.rooms[r].users, u) + [u]
      && NoDup(t'.rooms[r].users)
      && t'.rooms[r].messages == t.rooms[r].messages
      && (forall q | q in t'.rooms && q != r :: u !in t'.rooms[q].users)
  {
    var left := LeftForJoin(t, u);
    var room := RoomForJoin(t, u, r);
    JoinRoomLeftTables(t, u, r);
    JoinRoomRoomShape(t, u, r);
    JoinRoomLeftState(t, u, r);
    JoinRoomIsPlaced(t, u, r);
    AppendFreshNoDup(room.users, u);
    RoomlessIsListedNowhere(left, u);
  }

  /** The re-join quirk: a sole member joining its own room gets the room back with its
      message list intact, although the messages table no longer holds those messages. */
  lemma RejoinOwnRoomAlone(t: Tables, u: Id, r: Id)
    requires Valid(t) && Membership(t) && u in t.users && t.users[u].currentRoom == Some(r)
    requires t.rooms[r].users == [u]
    ensures var t' := JoinRoom(t, u, r).tables;
      && t'.rooms[r] == t.rooms[r]
      && t'.messages == PurgeRoom(t.messages, r)
      && forall m | m in t.rooms[r].messages :: m.id !in t'.messages || t'.messages[m.id].room != r
  {
    assert RemoveAll(t.rooms[r].users, u) == [];
    LeaveRoomOutcome(t, u, r);
  }

  // ---------------------------------------------------------------------------
  // removeUser

  /** The state `removeUser` reaches before it deletes the record. */
  function LeftForRemoval(t: Tables, u: Id): Tables {
    if u in t.users && t.users[u].currentRoom.Some? then LeaveRoom(t, u, t.users[u].currentRoom.value) else t
  }

  lemma LeftForRemovalState(t: Tables, u: Id, except: Option<Id>)
    requires Valid(t) && Membership(t)
    ensures var left := LeftForRemoval(t, u);
      && Valid(left) && Membership(left) && IdentitiesKept(t, left)
      && (NoEmptyRoomsBut(t, except) ==> NoEmptyRoomsBut(left, except))
      && (forall q | q in left.rooms :: u !in left.rooms[q].users)
      && (forall v | v in left.users && v != u :: left.users[v] == t.users[v])
      && left.users.Keys == t.users.Keys
  {
    if u in t.users && t.users[u].currentRoom.Some? {
      LeaveRoomKeeps(t, u, t.users[u].currentRoom.value, except);
    } else if u in t.users {
      RoomlessIsListedNowhere(t, u);
    }
  }

  /** `removeUser` takes the user out of its room, with leaveRoom's cascade, then deletes it:
      afterwards no lookup by its id succeeds, no room lists it and the other users are as
      they were. */
  lemma RemoveUserErases(t: Tables, u: Id)
    requires Valid(t) && Membership(t)
    ensures var t' := RemoveUser(t, u);
      && GetUser(t', u).None?
      && t'.users.Keys == t.users.Keys - {u}
      && (forall v | v in t'.users :: t'.users[v] == t.users[v])
      && (forall q | q in t'.rooms :: u !in t'.rooms[q].users)
  {
    LeftForRemovalState(t, u, None);
    assert RemoveUser(t, u) == LeftForRemoval(t, u).(users := LeftForRemoval(t, u).users - {u});
  }

  /** The cascade of `removeUser` on the user's room: deleted with its messages when the user
      was its last member, otherwise kept without the user; other rooms are untouched. */
  lemma RemoveUserCascade(t: Tables, u: Id)
    requires Valid(t) && Membership(t) && u in t.users && t.users[u].currentRoom.Some?
    ensures var t' := RemoveUser(t, u);
      var r := t.users[u].currentRoom.value;
      && t'.users == t.users - {u} && t'.typing == t.typing && t'.nextId == t.nextId
      && (t.rooms[r].users == [u] ==>
            && r !in t'.rooms && t'.messages == PurgeRoom(t.messages, r)
            && forall k | k in t'.messages :: t'.messages[k].room != r)
      && (t.rooms[r].users != [u] ==>
            && r in t'.rooms && t'.rooms[r].users == RemoveAll(t.rooms[r].users, u)
            && t'.messages == t.messages)
      && (forall q | q in t.rooms && q != r :: q in t'.rooms && t'.rooms[q] == t.rooms[q])
  {
    var r := t.users[u].currentRoom.value;
    LeaveRoomOutcome(t, u, r);
    LeaveRoomFrame(t, u, r);
    assert RemoveUser(t, u) == LeaveRoom(t, u, r).(users := LeaveRoom(t, u, r).users - {u});
    if t.rooms[r].users == [u] {
      assert RemoveAll(t.rooms[r].users, u) == [];
    } else {
      OthersRemain(t.rooms[r].users, u);
    }
  }

  /** Whatever the membership, `removeUser` keeps the store's own invariant. */
  lemma RemoveUserValid(t: Tables, u: Id)
    requires Valid(t)
    ensures Valid(RemoveUser(t, u))
  {
    if u in t.users && t.users[u].currentRoom.Some? {
      LeaveRoomKeepsValid(t, u, t.users[u].currentRoom.value, None);
    }
  }

  /** `removeUser` keeps every invariant. */
  lemma RemoveUserKeeps(t: Tables, u: Id, except: Option<Id>)
    requires Valid(t) && Membership(t)
    ensures var t' := RemoveUser(t, u);
      && Valid(t') && Membership(t') && IdentitiesKept(t, t')
      && (NoEmptyRoomsBut(t, except) ==> NoEmptyRoomsBut(t', except))
  {
    var left := LeftForRemoval(t, u);
    LeftForRemovalState(t, u, except);
    var t' := RemoveUser(t, u);
    assert t' == left.(users := left.users - {u});
    RemoveUserValid(t, u);
    RemoveUserKeepsMembership(t, u);
    assert IdentitiesKept(t, left);
  }

  lemma RemoveUserKeepsMembership(t: Tables, u: Id)
    requires Valid(t) && Membership(t)
    ensures Membership(RemoveUser(t, u))
  {
    var left := LeftForRemoval(t, u);
    LeftForRemovalState(t, u, None);
    assert RemoveUser(t, u) == left.(users := left.users - {u});
    DeleteUnlistedKeepsMembership(left, u);
  }

  /** Deleting a user no room lists keeps membership. */
  lemma DeleteUnlistedKeepsMembership(t: Tables, u: Id)
    requires Membership(t) && forall q | q in t.rooms :: u !in t.rooms[q].users
    ensures Membership(t.(users := t.users - {u}))
  {
    var t' := t.(users := t.users - {u});
    forall q, v | q in t'.rooms && v in t'.rooms[q].users
      ensures v in t'.users && t'.users[v].currentRoom == Some(q)
    {
      assert v in t.rooms[q].users;
    }
  }



  // ---------------------------------------------------------------------------
  // addMessage

  /** `addMessage` fails, changing nothing, for an unknown user or room and for sanitised
      content that is empty or longer than 500; otherwise it appends one fresh message carrying
      the sender's name and id to both the room and the messages table. Membership of the
      sender is not checked. */
  lemma AddMessageOutcome(t: Tables, content: string, u: Id, r: Id)
    requires Valid(t)
    ensures var text := Text.SanitizeInput(content);
      var up := AddMessage(t, content, u, r);
      && (up.result.Ok? <==> u in t.users && r in t.rooms && 0 < Text.Utf16Length(text) <= MaxMessageLength)
      && (u !in t.users || r !in t.rooms ==> up.result == Err("User or room not found"))
      && (up.result.Err? ==> up.tables == t)
      && (up.result.Ok? ==>
            var m := up.result.value;
            && m.id !in t.messages && m.content == text && m.username == t.users[u].username
            && m.userId == u && m.room == r
            && up.tables.messages == t.messages[m.id := m]
            && up.tables.rooms.Keys == t.rooms.Keys
            && up.tables.rooms[r].messages == t.rooms[r].messages + [m]
            && up.tables.rooms[r].users == t.rooms[r].users
            && (forall q | q in t.rooms && q != r :: up.tables.rooms[q] == t.rooms[q])
            && up.tables.users == t.users && up.tables.typing == t.typing
            && GetRoomMessages(up.tables, r, 1) == [m])
  {
  }

  /** A message under the next fresh id, filed in an existing room, keeps every invariant. */
  lemma FileMessageValid(t: Tables, m: Message, r: Id)
    requires Valid(t) && r in t.rooms && m.id == t.nextId && m.room == r
    ensures Valid(FileMessage(t, m, r))
  {
    var t' := FileMessage(t, m, r);
    assert forall k | k in t'.messages :: t'.messages[k].room in t'.rooms;
  }

  lemma FileMessageKeeps(t: Tables, m: Message, r: Id, except: Option<Id>)
    requires r in t.rooms
    ensures var t' := FileMessage(t, m, r);
      && (Membership(t) ==> Membership(t'))
      && (UniqueNames(t) ==> UniqueNames(t'))
      && (SocketsUnique(t) ==> SocketsUnique(t'))
      && (NoEmptyRoomsBut(t, except) ==> NoEmptyRoomsBut(t', except))
  {
    var t' := FileMessage(t, m, r);
    if Membership(t) {
      SameMembersKeep(t, t');
    }
    if UniqueNames(t) || SocketsUnique(t) {
      assert IdentitiesKept(t, t');
      IdentitiesKeptNames(t, t');
    }
  }

  lemma AddMessageKeeps(t: Tables, content: string, u: Id, r: Id, except: Option<Id>)
    requires Valid(t)
    ensures Valid(AddMessage(t, content, u, r).tables)
    ensures Membership(t) ==> Membership(AddMessage(t, content, u, r).tables)
    ensures UniqueNames(t) ==> UniqueNames(AddMessage(t, content, u, r).tables)
    ensures SocketsUnique(t) ==> SocketsUnique(AddMessage(t, content, u, r).tables)
    ensures NoEmptyRoomsBut(t, except) ==> NoEmptyRoomsBut(AddMessage(t, content, u, r).tables, except)
  {
    var up := AddMessage(t, content, u, r);
    if up.result.Ok? {
      FileMessageValid(t, up.result.value, r);
      FileMessageKeeps(t, up.result.value, r, except);
    }
  }

  // ---------------------------------------------------------------------------
  // Typing sets

  /** Adding and removing a typing user are idempotent. */
  lemma TypingIdempotent(t: Tables, u: Id, r: Id)
    ensures AddTypingUser(AddTypingUser(t, u, r), u, r) == AddTypingUser(t, u, r)
    ensures RemoveTypingUser(RemoveTypingUser(t, u, r), u, r) == RemoveTypingUser(t, u, r)
  {
    var d := RemoveTypingUser(t, u, r);
    if r in t.typing && t.typing[r] - {u} != {} {
      assert d.typing[r] - {u} == d.typing[r];
    }
  }

  /** What `getTypingUsers` reports after adding or removing a typing user is the set insert
      or delete, other rooms are untouched, an emptied set is dropped, and an absent room has
      no typing users. */
  lemma TypingSets(t: Tables, u: Id, r: Id)
    ensures GetTypingUsers(AddTypingUser(t, u, r), r) == GetTypingUsers(t, r) + {u}
    ensures GetTypingUsers(RemoveTypingUser(t, u, r), r) == GetTypingUsers(t, r) - {u}
    ensures forall q | q != r :: GetTypingUsers(AddTypingUser(t, u, r), q) == GetTypingUsers(t, q)
                              && GetTypingUsers(RemoveTypingUser(t, u, r), q) == GetTypingUsers(t, q)
    ensures r in t.typing && t.typing[r] == {u} ==> r !in RemoveTypingUser(t, u, r).typing
    ensures r !in t.typing ==> GetTypingUsers(t, r) == {}
  {
  }

  /** The typing operations touch the typing table only, and keep the store's invariant. */
  lemma TypingFrame(t: Tables, u: Id, r: Id)
    ensures var a := AddTypingUser(t, u, r); var d := RemoveTypingUser(t, u, r);
      && a.users == t.users && a.rooms == t.rooms && a.messages == t.messages && a.nextId == t.nextId
      && d.users == t.users && d.rooms == t.rooms && d.messages == t.messages && d.nextId == t.nextId
      && (Valid(t) ==> Valid(a) && Valid(d))
  {
  }

  // ---------------------------------------------------------------------------
  // Lookups

  /** The user `getUserBySocketId` finds is bound to that connection, and one is found
      whenever some user is; with connections unique it is that user. */
  lemma GetUserBySocketIdFinds(t: Tables, socketId: ConnId)
    requires Valid(t)
    ensures var found := GetUserBySocketId(t, socketId);
      && (found.Some? <==> exists k | k in t.users :: t.users[k].socketId == socketId)
      && (found.Some? ==> found.value.id in t.users && t.users[found.value.id] == found.value
                          && found.value.socketId == socketId)
      && (SocketsUnique(t) ==> forall k | k in t.users && t.users[k].socketId == socketId :: found == Some(t.users[k]))
  {
    var p := (u: User) => u.socketId == socketId;
    var k0 := FirstKeyWhere(t.users, p, 0, t.nextId);
    if k0.None? {
      forall k | k in t.users ensures t.users[k].socketId != socketId {
        assert !p(t.users[k]);
      }
    }
  }

  /** `getRoomByName` finds a room whose name equals the argument up to case, and one is found
      whenever such a room exists; with names unique it is that room. */
  lemma GetRoomByNameFinds(t: Tables, roomName: string)
    requires Valid(t)
    ensures var found := GetRoomByName(t, roomName);
      && (found.Some? <==> RoomNameTaken(t.rooms, roomName))
      && (found.Some? ==> found.value.id in t.rooms && t.rooms[found.value.id] == found.value
                          && Text.SameUpToCase(found.value.name, roomName))
      && (UniqueNames(t) ==> forall k | k in t.rooms && Text.SameUpToCase(t.rooms[k].name, roomName) ::
                               found == Some(t.rooms[k]))
  {
    var p := (r: Room) => Text.SameUpToCase(r.name, roomName);
    var k0 := FirstKeyWhere(t.rooms, p, 0, t.nextId);
    if k0.None? {
      forall k | k in t.rooms ensures !Text.SameUpToCase(t.rooms[k].name, roomName) {
        assert !p(t.rooms[k]);
      }
    } else if UniqueNames(t) {
      var j := k0.value;
      forall k | k in t.rooms && Text.SameUpToCase(t.rooms[k].name, roomName) ensures k == j {
        assert Text.SameUpToCase(t.rooms[j].name, t.rooms[k].name);
      }
    }
  }

  /** The keys of `m` within [from, to), as a set. */
  function KeysBetween<V>(m: map<Id, V>, from: nat, to: nat): (r: set<Id>)
    decreases to - from
    ensures forall k :: k in r <==> k in m && from <= k < to
  {
    if from >= to then {} else (if from in m then {from} else {}) + KeysBetween(m, from + 1, to)
  }

  lemma {:induction false} KeysInOrderCount<V>(m: map<Id, V>, from: nat, to: nat)
    decreases to - from
    ensures |KeysInOrder(m, from, to)| == |KeysBetween(m, from, to)|
  {
    if from < to {
      KeysInOrderCount(m, from + 1, to);
      assert from !in KeysBetween(m, from + 1, to);
    }
  }

  /** The values of a table whose keys are below `bound`, listed in key order: one per key. */
  lemma ValuesInOrder<V>(m: map<Id, V>, bound: nat)
    requires forall k | k in m :: k < bound
    ensures var keys := KeysInOrder(m, 0, bound);
      && |ValuesAt(m, keys)| == |m|
      && (forall k | k in m :: exists i | 0 <= i < |keys| :: keys[i] == k && ValuesAt(m, keys)[i] == m[k])
  {
    var keys := KeysInOrder(m, 0, bound);
    KeysInOrderCount(m, 0, bound);
    assert KeysBetween(m, 0, bound) == m.Keys;
    forall k | k in m ensures exists i | 0 <= i < |keys| :: keys[i] == k && ValuesAt(m, keys)[i] == m[k] {
      assert k in keys;
      var i :| 0 <= i < |keys| && keys[i] == k;
      assert ValuesAt(m, keys)[i] == m[k];
    }
  }

  /** `getAllRooms` lists every room once, in insertion (id) order. */
  lemma AllRoomsListed(t: Tables)
    requires Valid(t)
    ensures |GetAllRooms(t)| == |t.rooms|
    ensures forall room :: room in GetAllRooms(t) <==> room.id in t.rooms && t.rooms[room.id] == room
    ensures forall i, j | 0 <= i < j < |GetAllRooms(t)| :: GetAllRooms(t)[i].id < GetAllRooms(t)[j].id
  {
    RoomsListedOnce(t);
    RoomsInIdOrder(t);
  }

  lemma RoomsListedOnce(t: Tables)
    requires Valid(t)
    ensures |GetAllRooms(t)| == |t.rooms|
    ensures forall room: Room | room.id in t.rooms && t.rooms[room.id] == room :: room in GetAllRooms(t)
  {
    ValuesInOrder(t.rooms, t.nextId);
  }

  lemma RoomsInIdOrder(t: Tables)
    requires Valid(t)
    ensures forall room | room in GetAllRooms(t) :: room.id in t.rooms && t.rooms[room.id] == room
    ensures forall i, j | 0 <= i < j < |GetAllRooms(t)| :: GetAllRooms(t)[i].id < GetAllRooms(t)[j].id
  {
    var keys := KeysInOrder(t.rooms, 0, t.nextId);
    var rooms := GetAllRooms(t);
    assert forall i | 0 <= i < |keys| :: rooms[i].id == keys[i];
  }

  /** `getStats` has one summary per stored room, each carrying that room's name, member
      count and message count, listed in insertion (id) order; `totalRooms` agrees with it. */
  lemma StatsSummarise(t: Tables)
    requires Valid(t)
    ensures GetStats(t).totalRooms == |GetStats(t).rooms| == |t.rooms|
    ensures forall q | q in t.rooms :: Summary(t.rooms[q]) in GetStats(t).rooms
    ensures forall x | x in GetStats(t).rooms ::
      && x.id in t.rooms && x.name == t.rooms[x.id].name
      && x.userCount == |t.rooms[x.id].users| && x.messageCount == |t.rooms[x.id].messages|
    ensures forall i, j | 0 <= i < j < |GetStats(t).rooms| :: GetStats(t).rooms[i].id < GetStats(t).rooms[j].id
  {
    AllRoomsListed(t);
    StatsRooms(t);
    SummariesOf(GetAllRooms(t), GetStats(t).rooms, t.rooms);
  }

  lemma StatsRooms(t: Tables)
    ensures GetStats(t).totalRooms == |t.rooms|
    ensures |GetStats(t).rooms| == |GetAllRooms(t)|
    ensures forall i | 0 <= i < |GetAllRooms(t)| :: GetStats(t).rooms[i] == Summary(GetAllRooms(t)[i])
  {
  }

  /** Summaries taken position by position from an ascending listing of a room table. */
  lemma SummariesOf(rooms: seq<Room>, stats: seq<RoomSummary>, m: map<Id, Room>)
    requires |stats| == |rooms| && forall i | 0 <= i < |rooms| :: stats[i] == Summary(rooms[i])
    requires forall room :: room in rooms <==> room.id in m && m[room.id] == room
    requires forall i, j | 0 <= i < j < |rooms| :: rooms[i].id < rooms[j].id
    ensures forall q | q in m && m[q].id == q :: Summary(m[q]) in stats
    ensures forall x | x in stats ::
      && x.id in m && x.name == m[x.id].name
      && x.userCount == |m[x.id].users| && x.messageCount == |m[x.id].messages|
    ensures forall i, j | 0 <= i < j < |stats| :: stats[i].id < stats[j].id
  {
    forall q | q in m && m[q].id == q ensures Summary(m[q]) in stats {
      assert m[q] in rooms;
      var i :| 0 <= i < |rooms| && rooms[i] == m[q];
      assert stats[i] == Summary(m[q]);
    }
    forall x | x in stats
      ensures x.id in m && x.name == m[x.id].name
      ensures x.userCount == |m[x.id].users| && x.messageCount == |m[x.id].messages|
    {
      var i :| 0 <= i < |stats| && stats[i] == x;
      assert rooms[i] in rooms;
    }
  }

  /** `getAllUsers` lists every user once, in insertion (id) order; `totalUsers` counts them. */
  lemma AllUsersListed(t: Tables)
    requires Valid(t)
    ensures |GetAllUsers(t)| == |t.users| == GetStats(t).totalUsers
    ensures forall user :: user in GetAllUsers(t) <==> user.id in t.users && t.users[user.id] == user
  {
    UsersListedOnce(t);
    StatsCounts(t);
    UsersInTable(t);
  }

  lemma UsersInTable(t: Tables)
    requires Valid(t)
    ensures forall user | user in GetAllUsers(t) :: user.id in t.users && t.users[user.id] == user
  {
    var keys := KeysInOrder(t.users, 0, t.nextId);
    var users := GetAllUsers(t);
    assert forall i | 0 <= i < |keys| :: users[i].id == keys[i];
  }

  lemma UsersListedOnce(t: Tables)
    requires Valid(t)
    ensures |GetAllUsers(t)| == |t.users|
    ensures forall user: User | user.id in t.users && t.users[user.id] == user :: user in GetAllUsers(t)
  {
    ValuesInOrder(t.users, t.nextId);
  }

  /** The counters of `getStats` move with the operations: a new user or message adds one. */
  lemma UserCountAfterCreate(t: Tables, username: string, socketId: ConnId)
    requires Valid(t)
    ensures var up := CreateUser(t, username, socketId);
      GetStats(up.tables).totalUsers == GetStats(t).totalUsers + (if up.result.Ok? then 1 else 0)
  {
    CreateUserOutcome(t, username, socketId);
    StatsCounts(t);
    StatsCounts(CreateUser(t, username, socketId).tables);
  }

  lemma MessageCountAfterAdd(t: Tables, content: string, u: Id, r: Id)
    requires Valid(t)
    ensures var up := AddMessage(t, content, u, r);
      && GetStats(up.tables).totalMessages == GetStats(t).totalMessages + (if up.result.Ok? then 1 else 0)
      && GetStats(up.tables).totalRooms == GetStats(t).totalRooms
  {
    var up := AddMessage(t, content, u, r);
    AddMessageOutcome(t, content, u, r);
    if up.result.Ok? {
      assert |up.tables.rooms| == |up.tables.rooms.Keys| == |t.rooms.Keys| == |t.rooms|;
    }
    StatsCounts(t);
    StatsCounts(up.tables);
  }

  lemma StatsCounts(t: Tables)
    ensures GetStats(t).totalUsers == |t.users|
    ensures GetStats(t).totalMessages == |t.messages| && GetStats(t).totalRooms == |t.rooms|
  {
  }
}
