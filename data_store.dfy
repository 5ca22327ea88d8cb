/** The chat server's entity store (server/src/services/DataStore.ts): a class whose four
    tables and id counter are updated in place, step by step as the source does. Every
    mutating method is proved to reach exactly the transition of the same name in
    `StoreState`, where the properties of those transitions are proved; the lookups, which
    only read, are the functions of `StoreState` applied to `State()`. */
module Store {
  import opened Entities
  import opened StoreState
  import StoreProperties
  import Text

  class DataStore {
    var users: map<Id, User>
    var rooms: map<Id, Room>
    var messages: map<Id, Message>
    var typingUsers: map<Id, set<Id>>
    /** The next fresh id, standing in for `uuidv4()`. */
    var nextId: nat

    /** The tables as one value. */
    function State(): Tables
      reads this
    {
      Tables(users, rooms, messages, typingUsers, nextId)
    }

    ghost predicate Valid()
      reads this
    {
      StoreState.Valid(State())
    }

    constructor ()
      ensures Valid() && State() == Empty()
    {
      users := map[];
      rooms := map[];
      messages := map[];
      typingUsers := map[];
      nextId := 0;
    }

    method CreateUser(username: string, socketId: ConnId) returns (r: Result<User>)
      requires Valid()
      modifies this
      ensures Valid()
      ensures Update(r, State()) == StoreState.CreateUser(old(State()), username, socketId)
    {
      var name := Text.SanitizeInput(username);
      if Text.Utf16Length(name) < MinNameLength {
        return Err("Username must be at least 2 characters long");
      }
      if Text.Utf16Length(name) > MaxUsernameLength {
        return Err("Username must be less than 20 characters");
      }
      if UsernameTaken(users, name) {
        return Err("Username is already taken");
      }
      var user := User(nextId, name, None, socketId);
      nextId := nextId + 1;
      users := users[user.id := user];
      return Ok(user);
    }

    method UpdateUserSocketId(userId: Id, socketId: ConnId)
      requires Valid()
      modifies this
      ensures Valid()
      ensures State() == StoreState.UpdateUserSocketId(old(State()), userId, socketId)
    {
      if userId in users {
        var user := users[userId].(socketId := socketId);
        users := users[userId := user];
      }
    }

    method RemoveUser(userId: Id)
      requires Valid()
      modifies this
      ensures Valid()
      ensures State() == StoreState.RemoveUser(old(State()), userId)
    {
      if userId in users && users[userId].currentRoom.Some? {
        LeaveRoom(userId, users[userId].currentRoom.value);
      }
      users := users - {userId};
      StoreProperties.RemoveUserValid(old(State()), userId);
    }

    method CreateRoom(roomName: string) returns (r: Result<Room>)
      requires Valid()
      modifies this
      ensures Valid()
      ensures Update(r, State()) == StoreState.CreateRoom(old(State()), roomName)
    {
      var name := Text.SanitizeInput(roomName);
      if Text.Utf16Length(name) < MinNameLength {
        r := Err("Room name must be at least 2 characters long");
      } else if Text.Utf16Length(name) > MaxRoomNameLength {
        r := Err("Room name must be less than 30 characters");
      } else if RoomNameTaken(rooms, name) {
        r := Err("Room already exists");
      } else {
        var room := Room(nextId, name, [], []);
        nextId := nextId + 1;
        rooms := rooms[room.id := room];
        r := Ok(room);
      }
      StoreProperties.CreateRoomValid(old(State()), roomName);
    }

    /** The room record fetched at the start is the object `leaveRoom` filters when the user
        leaves that same room, so the copy held here is filtered the same way. */
    method JoinRoom(userId: Id, roomId: Id) returns (r: Result<()>)
      requires Valid()
      modifies this
      ensures Valid()
      ensures Update(r, State()) == StoreState.JoinRoom(old(State()), userId, roomId)
    {
      if userId !in users || roomId !in rooms {
        return Err("User or room not found");
      }
      var previous := users[userId].currentRoom;
      var room := rooms[roomId];
      if previous.Some? {
        LeaveRoom(userId, previous.value);
        if previous.value == roomId {
          room := room.(users := RemoveAll(room.users, userId));
        }
      }
      var user := users[userId].(currentRoom := Some(roomId));
      room := room.(users := room.users + [userId]);
      users := users[userId := user];
      rooms := rooms[roomId := room];
      StoreProperties.JoinRoomValid(old(State()), userId, roomId);
      return Ok(());
    }

    /** Filters the user out of the room and clears its pointer; a room left empty is deleted,
        and then the messages of that room are deleted from the table one by one, in id order. */
    method LeaveRoom(userId: Id, roomId: Id)
      requires Valid()
      modifies this
      ensures Valid()
      ensures State() == StoreState.LeaveRoom(old(State()), userId, roomId)
    {
      if userId !in users || roomId !in rooms {
        return;
      }
      var room := rooms[roomId].(users := RemoveAll(rooms[roomId].users, userId));
      var user := users[userId].(currentRoom := None);
      if room.users == [] {
        rooms := rooms - {roomId};
        PurgeMessages(roomId);
      } else {
        rooms := rooms[roomId := room];
      }
      users := users[userId := user];
      StoreProperties.LeaveRoomKeepsValid(old(State()), userId, roomId, None);
    }

    /** Deletes the messages of a room from the table one by one, in id order. */
    method PurgeMessages(roomId: Id)
      requires forall k | k in messages :: k < nextId && messages[k].id == k
      modifies this
      ensures messages == PurgeRoom(old(messages), roomId)
      ensures users == old(users) && rooms == old(rooms) && typingUsers == old(typingUsers) && nextId == old(nextId)
    {
      ghost var before := messages;
      var k := 0;
      while k < nextId
        invariant k <= nextId
        invariant users == old(users) && rooms == old(rooms)
        invariant typingUsers == old(typingUsers) && nextId == old(nextId)
        invariant messages == map j | j in before && (j >= k || before[j].room != roomId) :: before[j]
      {
        if k in messages && messages[k].room == roomId {
          messages := messages - {messages[k].id};
        }
        k := k + 1;
      }
    }

    method AddMessage(content: string, userId: Id, roomId: Id) returns (r: Result<Message>)
      requires Valid()
      modifies this
      ensures Valid()
      ensures Update(r, State()) == StoreState.AddMessage(old(State()), content, userId, roomId)
    {
      if userId !in users || roomId !in rooms {
        return Err("User or room not found");
      }
      var text := Text.SanitizeInput(content);
      if Text.Utf16Length(text) == 0 {
        return Err("Message cannot be empty");
      }
      if Text.Utf16Length(text) > MaxMessageLength {
        return Err("Message must be less than 500 characters");
      }
      var message := Message(nextId, text, users[userId].username, userId, roomId);
      nextId := nextId + 1;
      messages := messages[message.id := message];
      var room := rooms[roomId];
      rooms := rooms[roomId := room.(messages := room.messages + [message])];
      assert State() == FileMessage(old(State()), message, roomId);
      StoreProperties.FileMessageValid(old(State()), message, roomId);
      return Ok(message);
    }

    method AddTypingUser(userId: Id, roomId: Id)
      requires Valid()
      modifies this
      ensures Valid()
      ensures State() == StoreState.AddTypingUser(old(State()), userId, roomId)
    {
      if roomId !in typingUsers {
        typingUsers := typingUsers[roomId := {}];
      }
      typingUsers := typingUsers[roomId := typingUsers[roomId] + {userId}];
    }

    method RemoveTypingUser(userId: Id, roomId: Id)
      requires Valid()
      modifies this
      ensures Valid()
      ensures State() == StoreState.RemoveTypingUser(old(State()), userId, roomId)
    {
      if roomId in typingUsers {
        typingUsers := typingUsers[roomId := typingUsers[roomId] - {userId}];
        if typingUsers[roomId] == {} {
          typingUsers := typingUsers - {roomId};
        }
      }
    }
  }
}
