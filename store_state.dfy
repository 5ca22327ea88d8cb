/** The entity store's four tables as one value, and every store operation as a
    transition on it (server/src/services/DataStore.ts). The class `Store.DataStore`
    performs these updates in place; its methods are proved to compute exactly the
    transitions below.

    A single counter `nextId` stands in for uuid generation: every user, room and
    message gets the current counter value, which is therefore fresh. Because ids only
    grow and a deleted entry never comes back under its id (see the "Left out" note on
    joinRoom in the README), iterating a table in insertion order is iterating it in
    ascending id order; the lookups below do that. */
module StoreState {
  import opened Entities
  import Text

  datatype Tables = Tables(
    users: map<Id, User>,
    rooms: map<Id, Room>,
    messages: map<Id, Message>,
    typing: map<Id, set<Id>>,   // room id -> ids of the users typing in it
    nextId: nat)

  /** What an operation returned (or threw) and the tables afterwards. */
  datatype Update<+T> = Update(result: Result<T>, tables: Tables)

  const MinNameLength := 2
  const MaxUsernameLength := 20
  const MaxRoomNameLength := 30
  const MaxMessageLength := 500

  function Empty(): Tables {
    Tables(map[], map[], map[], map[], 0)
  }

  predicate NoDup(s: seq<Id>) {
    forall i, j | 0 <= i < j < |s| :: s[i] != s[j]
  }

  // ---------------------------------------------------------------------------
  // Invariants

  /** Kept by every store operation: keys are ids already issued and match the records,
      every message in the table belongs to an existing room, no typing set is empty. */
  ghost predicate Valid(t: Tables) {
    && (forall k | k in t.users :: k < t.nextId && t.users[k].id == k)
    && (forall k | k in t.rooms :: k < t.nextId && t.rooms[k].id == k)
    && (forall k | k in t.messages :: k < t.nextId && t.messages[k].id == k && t.messages[k].room in t.rooms)
    && (forall k | k in t.typing :: t.typing[k] != {})
  }

  /** A user's room pointer and the rooms' member lists agree, so a user sits in at
      most one room, and no member is listed twice. */
  ghost predicate Membership(t: Tables) {
    && (forall u | u in t.users && t.users[u].currentRoom.Some? ::
          t.users[u].currentRoom.value in t.rooms && u in t.rooms[t.users[u].currentRoom.value].users)
    && (forall r, v | r in t.rooms && v in t.rooms[r].users :: v in t.users && t.users[v].currentRoom == Some(r))
    && (forall r | r in t.rooms :: NoDup(t.rooms[r].users))
  }

  /** Usernames, and room names, are unique up to case. */
  ghost predicate UniqueNames(t: Tables) {
    && (forall a, b {:trigger Text.SameUpToCase(t.users[a].username, t.users[b].username)}
          | a in t.users && b in t.users && Text.SameUpToCase(t.users[a].username, t.users[b].username) :: a == b)
    && (forall a, b {:trigger Text.SameUpToCase(t.rooms[a].name, t.rooms[b].name)}
          | a in t.rooms && b in t.rooms && Text.SameUpToCase(t.rooms[a].name, t.rooms[b].name) :: a == b)
  }

  ghost predicate NoEmptyRoomsBut(t: Tables, except: Option<Id>) {
    forall r | r in t.rooms && Some(r) != except :: t.rooms[r].users != []
  }

  ghost predicate NoEmptyRooms(t: Tables) {
    NoEmptyRoomsBut(t, None)
  }

  /** At most one user is bound to a connection. */
  ghost predicate SocketsUnique(t: Tables) {
    forall a, b | a in t.users && b in t.users && t.users[a].socketId == t.users[b].socketId :: a == b
  }

  /** The state between two events of the session coordinator. */
  ghost predicate Settled(t: Tables) {
    Valid(t) && Membership(t) && UniqueNames(t) && NoEmptyRooms(t) && SocketsUnique(t)
  }

  // ---------------------------------------------------------------------------
  // Helpers

  /** `users.filter(u => u.id !== x)` on a member list. */
  function RemoveAll(s: seq<Id>, x: Id): (r: seq<Id>)
    ensures x !in r
    ensures forall y | y != x :: y in r <==> y in s
    ensures |r| <= |s|
    ensures x !in s ==> r == s
  {
    if s == [] then [] else (if s[0] == x then [] else [s[0]]) + RemoveAll(s[1..], x)
  }

  /** The messages table without the messages of room `r`. */
  function PurgeRoom(messages: map<Id, Message>, r: Id): (m: map<Id, Message>)
    ensures forall k | k in m :: k in messages && m[k] == messages[k] && m[k].room != r
    ensures forall k | k in messages && messages[k].room != r :: k in m
  {
    map k | k in messages && messages[k].room != r :: messages[k]
  }

  /** The key of the first entry, in ascending key order within [from, to), whose value
      satisfies `p`: `Array.from(map.values()).find(p)`. */
  function FirstKeyWhere<V>(m: map<Id, V>, p: V -> bool, from: nat, to: nat): (r: Option<Id>)
    decreases to - from
    ensures r.Some? ==> from <= r.value < to && r.value in m && p(m[r.value])
    ensures r.Some? ==> forall k | from <= k < r.value && k in m :: !p(m[k])
    ensures r.None? ==> forall k | from <= k < to && k in m :: !p(m[k])
  {
    if from >= to then None
    else if from in m && p(m[from]) then Some(from)
    else FirstKeyWhere(m, p, from + 1, to)
  }

  /** The keys of `m` within [from, to), ascending. */
  function KeysInOrder<V>(m: map<Id, V>, from: nat, to: nat): (r: seq<Id>)
    decreases to - from
    ensures forall i, j | 0 <= i < j < |r| :: r[i] < r[j]
    ensures forall k :: k in r <==> k in m && from <= k < to
  {
    if from >= to then []
    else
      var rest := KeysInOrder(m, from + 1, to);
      assert forall j | 0 <= j < |rest| :: rest[j] in rest;
      (if from in m then [from] else []) + rest
  }

  function ValuesAt<V>(m: map<Id, V>, keys: seq<Id>): (r: seq<V>)
    requires forall k | k in keys :: k in m
    ensures |r| == |keys| && forall i | 0 <= i < |keys| :: r[i] == m[keys[i]]
  {
    seq(|keys|, i requires 0 <= i < |keys| => m[keys[i]])
  }

  function UsernameTaken(users: map<Id, User>, name: string): bool {
    exists k {:trigger Text.SameUpToCase(users[k].username, name)} | k in users :: Text.SameUpToCase(users[k].username, name)
  }

  function RoomNameTaken(rooms: map<Id, Room>, name: string): bool {
    exists k {:trigger Text.SameUpToCase(rooms[k].name, name)} | k in rooms :: Text.SameUpToCase(rooms[k].name, name)
  }

  // ---------------------------------------------------------------------------
  // Transitions

  /** `createUser`: the length bounds apply to the sanitised name and are inclusive. */
  function CreateUser(t: Tables, username: string, socketId: ConnId): Update<User> {
    var name := Text.SanitizeInput(username);
    if Text.Utf16Length(name) < MinNameLength then Update(Err("Username must be at least 2 characters long"), t)
    else if Text.Utf16Length(name) > MaxUsernameLength then Update(Err("Username must be less than 20 characters"), t)
    else if UsernameTaken(t.users, name) then Update(Err("Username is already taken"), t)
    else
      var user := User(t.nextId, name, None, socketId);
      Update(Ok(user), EnrolUser(t, user))
  }

  /** The user stored under its id, its id issued. */
  function EnrolUser(t: Tables, user: User): Tables {
    t.(users := t.users[user.id := user], nextId := t.nextId + 1)
  }

  function UpdateUserSocketId(t: Tables, userId: Id, socketId: ConnId): Tables {
    if userId in t.users then t.(users := t.users[userId := t.users[userId].(socketId := socketId)])
    else t
  }

  /** `createRoom` */
  function CreateRoom(t: Tables, roomName: string): Update<Room> {
    var name := Text.SanitizeInput(roomName);
    if Text.Utf16Length(name) < MinNameLength then Update(Err("Room name must be at least 2 characters long"), t)
    else if Text.Utf16Length(name) > MaxRoomNameLength then Update(Err("Room name must be less than 30 characters"), t)
    else if RoomNameTaken(t.rooms, name) then Update(Err("Room already exists"), t)
    else
      var room := Room(t.nextId, name, [], []);
      Update(Ok(room), OpenRoom(t, room))
  }

  /** The room stored under its id, its id issued. */
  function OpenRoom(t: Tables, room: Room): Tables {
    t.(rooms := t.rooms[room.id := room], nextId := t.nextId + 1)
  }

  /** `leaveRoom`: a no-op for an unknown user or room; otherwise the user is filtered
      out of the room and its room pointer cleared (whichever room it pointed to); a room
      left empty is deleted together with its messages in the messages table. */
  function LeaveRoom(t: Tables, userId: Id, roomId: Id): (r: Tables)
    ensures r.users.Keys == t.users.Keys && r.typing == t.typing && r.nextId == t.nextId
    ensures r.rooms.Keys <= t.rooms.Keys
  {
    if userId !in t.users || roomId !in t.rooms then t
    else
      var room := t.rooms[roomId].(users := RemoveAll(t.rooms[roomId].users, userId));
      var users := t.users[userId := t.users[userId].(currentRoom := None)];
      if room.users == [] then
        t.(users := users, rooms := t.rooms - {roomId}, messages := PurgeRoom(t.messages, roomId))
      else
        t.(users := users, rooms := t.rooms[roomId := room])
  }

  /** `joinRoom`: leave the current room first, then point the user at `roomId` and
      append it to the room's members. The store's `room` record is the very object
      `leaveRoom` filtered, so when the user re-joins its own room as the sole member the
      room comes back, with its own message list intact, after `leaveRoom` deleted it and
      purged its messages from the messages table. */
  function JoinRoom(t: Tables, userId: Id, roomId: Id): (r: Update<()>)
    ensures r.result.Ok? ==> userId in r.tables.users && roomId in r.tables.rooms
    ensures r.tables.typing == t.typing && r.tables.nextId == t.nextId
  {
    if userId !in t.users || roomId !in t.rooms then Update(Err("User or room not found"), t)
    else
      var previous := t.users[userId].currentRoom;
      var left := if previous.Some? then LeaveRoom(t, userId, previous.value) else t;
      var room := if previous == Some(roomId)
        then t.rooms[roomId].(users := RemoveAll(t.rooms[roomId].users, userId))
        else t.rooms[roomId];
      var user := left.users[userId].(currentRoom := Some(roomId));
      Update(Ok(()), left.(users := left.users[userId := user],
                           rooms := left.rooms[roomId := room.(users := room.users + [userId])]))
  }

  /** `removeUser`: leave the current room, then delete the record. */
  function RemoveUser(t: Tables, userId: Id): (r: Tables)
    ensures userId !in r.users
  {
    var left := if userId in t.users && t.users[userId].currentRoom.Some?
      then LeaveRoom(t, userId, t.users[userId].currentRoom.value) else t;
    left.(users := left.users - {userId})
  }

  /** `addMessage`: membership of the sender is not checked. */
  function AddMessage(t: Tables, content: string, userId: Id, roomId: Id): Update<Message> {
    if userId !in t.users || roomId !in t.rooms then Update(Err("User or room not found"), t)
    else
      var text := Text.SanitizeInput(content);
      if Text.Utf16Length(text) == 0 then Update(Err("Message cannot be empty"), t)
      else if Text.Utf16Length(text) > MaxMessageLength then Update(Err("Message must be less than 500 characters"), t)
      else
        var m := Message(t.nextId, text, t.users[userId].username, userId, roomId);
        Update(Ok(m), FileMessage(t, m, roomId))
  }

  /** The message stored under its id and appended to its room, its id issued. */
  function FileMessage(t: Tables, m: Message, roomId: Id): Tables
    requires roomId in t.rooms
  {
    var room := t.rooms[roomId];
    t.(messages := t.messages[m.id := m],
       rooms := t.rooms[roomId := room.(messages := room.messages + [m])],
       nextId := t.nextId + 1)
  }

  /** `addTypingUser`: no check that the room exists. */
  function AddTypingUser(t: Tables, userId: Id, roomId: Id): Tables {
    var current := if roomId in t.typing then t.typing[roomId] else {};
    t.(typing := t.typing[roomId := current + {userId}])
  }

  /** `removeTypingUser`: a set that becomes empty is dropped from the table. */
  function RemoveTypingUser(t: Tables, userId: Id, roomId: Id): Tables {
    if roomId !in t.typing then t
    else
      var rest := t.typing[roomId] - {userId};
      if rest == {} then t.(typing := t.typing - {roomId}) else t.(typing := t.typing[roomId := rest])
  }

  // ---------------------------------------------------------------------------
  // Lookups

  function GetUser(t: Tables, userId: Id): Option<User> {
    if userId in t.users then Some(t.users[userId]) else None
  }

  function GetUserBySocketId(t: Tables, socketId: ConnId): (r: Option<User>)
    ensures r.Some? ==> r.value.socketId == socketId
    ensures Valid(t) && r.Some? ==> r.value.id in t.users && t.users[r.value.id] == r.value
  {
    match FirstKeyWhere(t.users, (u: User) => u.socketId == socketId, 0, t.nextId)
    case Some(k) => Some(t.users[k])
    case None => None
  }

  function GetAllUsers(t: Tables): seq<User> {
    ValuesAt(t.users, KeysInOrder(t.users, 0, t.nextId))
  }

  function GetRoom(t: Tables, roomId: Id): Option<Room> {
    if roomId in t.rooms then Some(t.rooms[roomId]) else None
  }

  /** `getRoomByName`: compares lower-cased names, without sanitising the argument. */
  function GetRoomByName(t: Tables, roomName: string): (r: Option<Room>)
    ensures r.Some? ==> Text.SameUpToCase(r.value.name, roomName)
    ensures Valid(t) && r.Some? ==> r.value.id in t.rooms && t.rooms[r.value.id] == r.value
  {
    match FirstKeyWhere(t.rooms, (r: Room) => Text.SameUpToCase(r.name, roomName), 0, t.nextId)
    case Some(k) => Some(t.rooms[k])
    case None => None
  }

  function GetAllRooms(t: Tables): seq<Room> {
    ValuesAt(t.rooms, KeysInOrder(t.rooms, 0, t.nextId))
  }

  /** `Array.prototype.slice(start)` with a single argument. */
  function SliceFrom<T>(s: seq<T>, start: int): (r: seq<T>)
    ensures |r| <= |s| && r == s[|s| - |r|..]
    ensures start >= 0 ==> |r| == if start <= |s| then |s| - start else 0
    ensures start < 0 ==> |r| == if -start <= |s| then -start else |s|
  {
    var k := if start < 0 then (if |s| + start < 0 then 0 else |s| + start)
             else (if start > |s| then |s| else start);
    s[k..]
  }

  /** `getRoomMessages`: `messages.slice(-limit)`. */
  function GetRoomMessages(t: Tables, roomId: Id, limit: int): (r: seq<Message>)
    ensures roomId !in t.rooms ==> r == []
    ensures roomId in t.rooms ==>
      var ms := t.rooms[roomId].messages;
      && (limit > 0 ==> r == ms[|ms| - (if limit < |ms| then limit else |ms|)..])
      && (limit == 0 ==> r == ms)
      && (limit < 0 ==> r == ms[(if -limit < |ms| then -limit else |ms|)..])
  {
    if roomId !in t.rooms then [] else SliceFrom(t.rooms[roomId].messages, -limit)
  }

  function GetTypingUsers(t: Tables, roomId: Id): set<Id> {
    if roomId in t.typing then t.typing[roomId] else {}
  }

  datatype RoomSummary = RoomSummary(id: Id, name: string, userCount: nat, messageCount: nat)
  datatype Stats = Stats(totalRooms: nat, totalUsers: nat, totalMessages: nat, rooms: seq<RoomSummary>)

  function Summary(room: Room): RoomSummary {
    RoomSummary(room.id, room.name, |room.users|, |room.messages|)
  }

  /** `getStats` */
  function GetStats(t: Tables): Stats {
    var rooms := GetAllRooms(t);
    Stats(|t.rooms|, |t.users|, |t.messages|, seq(|rooms|, i requires 0 <= i < |rooms| => Summary(rooms[i])))
  }
}
