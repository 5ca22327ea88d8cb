/** The client's chat state and the reducer that applies every dispatched action to it
    (client/src/context/ChatContext.tsx). The reducer is pure: each action gives a new state
    that differs from the old one in the one field the action names. */
module ChatContext {
  import opened Entities

  datatype ChatState = ChatState(
    currentUser: Option<User>,
    currentRoom: Option<Room>,
    messages: seq<Message>,
    users: seq<User>,
    /** The usernames shown as typing. */
    typingUsers: set<string>,
    rooms: seq<Room>,
    isConnected: bool,
    isLoading: bool,
    error: Option<string>)

  /** The actions, one per `type` tag; `Unrecognised` stands for any other tag. */
  datatype ChatAction =
    | SetCurrentUser(currentUserValue: Option<User>)
    | SetCurrentRoom(currentRoomValue: Option<Room>)
    | AddMessage(message: Message)
    | SetMessages(messageList: seq<Message>)
    | SetUsers(userList: seq<User>)
    | AddUser(added: User)
    | RemoveUser(removed: User)
    | SetTypingUsers(typingSet: set<string>)
    | AddTypingUser(typingName: string)
    | RemoveTypingUser(stoppedName: string)
    | SetRooms(roomList: seq<Room>)
    | SetConnectionStatus(connected: bool)
    | SetLoading(loading: bool)
    | SetError(reason: string)
    | ClearError
    | ResetState
    | Unrecognised(tag: string)

  /** `initialState`: nobody, nowhere, nothing loaded, not connected, no error. */
  const Initial: ChatState :=
    ChatState(None, None, [], [], {}, [], false, false, None)

  /** `users.filter(u => u.id !== id)`. */
  function WithoutUser(users: seq<User>, id: Id): (r: seq<User>)
    ensures forall u :: u in r <==> u in users && u.id != id
    ensures |r| <= |users|
  {
    if users == [] then []
    else (if users[0].id == id then [] else [users[0]]) + WithoutUser(users[1..], id)
  }

  /** `chatReducer`. The message list changes only under the message actions and the user
      list only under the user actions, `RESET_STATE` aside. */
  function ChatReducer(state: ChatState, action: ChatAction): (r: ChatState)
    ensures !action.AddMessage? && !action.SetMessages? && !action.ResetState? ==> r.messages == state.messages
    ensures !action.AddUser? && !action.RemoveUser? && !action.SetUsers? && !action.ResetState? ==> r.users == state.users
    ensures !action.SetRooms? && !action.ResetState? ==> r.rooms == state.rooms
  {
    match action
    case SetCurrentUser(user) => state.(currentUser := user)
    case SetCurrentRoom(room) => state.(currentRoom := room)
    case AddMessage(message) => state.(messages := state.messages + [message])
    case SetMessages(messages) => state.(messages := messages)
    case SetUsers(users) => state.(users := users)
    case AddUser(user) => state.(users := WithoutUser(state.users, user.id) + [user])
    case RemoveUser(user) => state.(users := WithoutUser(state.users, user.id))
    case SetTypingUsers(names) => state.(typingUsers := names)
    case AddTypingUser(name) => state.(typingUsers := state.typingUsers + {name})
    case RemoveTypingUser(name) => state.(typingUsers := state.typingUsers - {name})
    case SetRooms(rooms) => state.(rooms := rooms)
    case SetConnectionStatus(connected) => state.(isConnected := connected)
    case SetLoading(loading) => state.(isLoading := loading)
    case SetError(reason) => state.(error := Some(reason))
    case ClearError => state.(error := None)
    case ResetState => Initial
    case Unrecognised(_) => state
  }

  /** No two users in the list share an id. */
  predicate UniqueIds(users: seq<User>) {
    forall i, j | 0 <= i < j < |users| :: users[i].id != users[j].id
  }

  // ---------------------------------------------------------------------------
  // The user list filter

  /** Filtering keeps the other users in their order: it distributes over concatenation. */
  lemma {:induction false} WithoutUserConcat(a: seq<User>, b: seq<User>, id: Id)
    ensures WithoutUser(a + b, id) == WithoutUser(a, id) + WithoutUser(b, id)
  {
    if a == [] {
      assert a + b == b;
    } else {
      assert (a + b)[0] == a[0] && (a + b)[1..] == a[1..] + b;
      WithoutUserConcat(a[1..], b, id);
    }
  }

  /** A list holding no user with the id is left as it is. */
  lemma {:induction false} WithoutAbsentUser(users: seq<User>, id: Id)
    requires forall u | u in users :: u.id != id
    ensures WithoutUser(users, id) == users
  {
    if users != [] {
      assert users[0] in users;
      assert forall u | u in users[1..] :: u in users;
      WithoutAbsentUser(users[1..], id);
    }
  }

  /** Filtering twice by the same id is filtering once. */
  lemma WithoutUserIdempotent(users: seq<User>, id: Id)
    ensures WithoutUser(WithoutUser(users, id), id) == WithoutUser(users, id)
  {
    WithoutAbsentUser(WithoutUser(users, id), id);
  }

  /** Filtering keeps ids unique. */
  lemma {:induction false} WithoutUserKeepsUnique(users: seq<User>, id: Id)
    requires UniqueIds(users)
    ensures UniqueIds(WithoutUser(users, id))
  {
    if users != [] {
      var tail := users[1..];
      var rest := WithoutUser(tail, id);
      assert users == [users[0]] + tail;
      UniqueCons(users[0], tail);
      WithoutUserKeepsUnique(tail, id);
      if users[0].id != id {
        UniqueCons(users[0], rest);
      }
    }
  }

  /** A list headed by `x` has unique ids exactly when its tail has and no user in the tail
      shares the id of `x`. */
  lemma UniqueCons(x: User, s: seq<User>)
    ensures UniqueIds([x] + s) <==> (forall u | u in s :: u.id != x.id) && UniqueIds(s)
  {
    var r := [x] + s;
    if UniqueIds(r) {
      forall u | u in s ensures u.id != x.id {
        var k :| 0 <= k < |s| && s[k] == u;
        assert r[0] == x && r[k + 1] == u;
        assert r[0].id != r[k + 1].id;
      }
      forall i, j | 0 <= i < j < |s| ensures s[i].id != s[j].id {
        assert r[i + 1] == s[i] && r[j + 1] == s[j];
      }
    }
    if (forall u | u in s :: u.id != x.id) && UniqueIds(s) {
      forall i, j | 0 <= i < j < |r| ensures r[i].id != r[j].id {
        assert r[j] == s[j - 1];
        if i == 0 {
          assert r[j] in s;
        } else {
          assert r[i] == s[i - 1];
        }
      }
    }
  }

  // ---------------------------------------------------------------------------
  // The reducer

  /** `ADD_MESSAGE` appends the message at the end and changes nothing else. */
  lemma AddMessageAppends(state: ChatState, m: Message)
    ensures var r := ChatReducer(state, AddMessage(m));
      && r.messages == state.messages + [m]
      && |r.messages| == |state.messages| + 1 && r.messages[|r.messages| - 1] == m
      && r.(messages := state.messages) == state
  {
  }

  /** `ADD_USER` leaves exactly one user with the added id, the added record, at the end, and
      the other users as they were, in order. */
  lemma AddUserReplaces(state: ChatState, user: User)
    ensures var r := ChatReducer(state, AddUser(user));
      && r.users != [] && r.users[|r.users| - 1] == user
      && r.users[..|r.users| - 1] == WithoutUser(state.users, user.id)
      && (forall i | 0 <= i < |r.users| - 1 :: r.users[i].id != user.id)
      && (forall u :: u in r.users <==> u == user || (u in state.users && u.id != user.id))
      && r.(users := state.users) == state
  {
    var r := ChatReducer(state, AddUser(user));
    var others := WithoutUser(state.users, user.id);
    assert r.users[..|r.users| - 1] == others;
    forall i | 0 <= i < |r.users| - 1 ensures r.users[i].id != user.id {
      assert r.users[i] in others;
    }
  }

  /** Adding the same user twice is adding it once. */
  lemma AddUserIdempotent(state: ChatState, user: User)
    ensures var r := ChatReducer(state, AddUser(user));
      ChatReducer(r, AddUser(user)) == r
  {
    var others := WithoutUser(state.users, user.id);
    assert WithoutUser(others + [user], user.id) == others by {
      WithoutUserConcat(others, [user], user.id);
      WithoutUserIdempotent(state.users, user.id);
      assert WithoutUser([user], user.id) == [];
      assert others + [] == others;
    }
  }

  /** `REMOVE_USER` drops every user with that id, keeps the others in order, and is
      idempotent. The order is `WithoutUser`'s, which `WithoutUserConcat` carries. */
  lemma RemoveUserDrops(state: ChatState, user: User)
    ensures var r := ChatReducer(state, RemoveUser(user));
      && r.users == WithoutUser(state.users, user.id)
      && (forall u :: u in r.users <==> u in state.users && u.id != user.id)
      && ((forall u | u in state.users :: u.id != user.id) ==> r.users == state.users)
      && ChatReducer(r, RemoveUser(user)) == r
      && r.(users := state.users) == state
  {
    WithoutUserIdempotent(state.users, user.id);
    if forall u | u in state.users :: u.id != user.id {
      WithoutAbsentUser(state.users, user.id);
    }
  }

  /** Whatever the reducer does keeps the ids of the user list unique, given a `SET_USERS`
      payload that has unique ids. */
  lemma ReducerKeepsUniqueUsers(state: ChatState, action: ChatAction)
    requires UniqueIds(state.users)
    requires action.SetUsers? ==> UniqueIds(action.userList)
    ensures UniqueIds(ChatReducer(state, action).users)
  {
    match action
    case AddUser(user) =>
      var others := WithoutUser(state.users, user.id);
      WithoutUserKeepsUnique(state.users, user.id);
      var r := others + [user];
      forall i, j | 0 <= i < j < |r| ensures r[i].id != r[j].id {
        assert r[i] == others[i];
        if j < |others| {
          assert r[j] == others[j];
        } else {
          assert r[i] in others;
        }
      }
    case RemoveUser(user) =>
      WithoutUserKeepsUnique(state.users, user.id);
    case _ =>
  }

  /** Adding and removing a typing user are the set insert and delete, each idempotent. */
  lemma TypingUsersAsSet(state: ChatState, name: string)
    ensures ChatReducer(state, AddTypingUser(name)).typingUsers == state.typingUsers + {name}
    ensures ChatReducer(state, RemoveTypingUser(name)).typingUsers == state.typingUsers - {name}
    ensures name in ChatReducer(state, AddTypingUser(name)).typingUsers
    ensures name !in ChatReducer(state, RemoveTypingUser(name)).typingUsers
    ensures var added := ChatReducer(state, AddTypingUser(name));
      ChatReducer(added, AddTypingUser(name)) == added
    ensures var removed := ChatReducer(state, RemoveTypingUser(name));
      ChatReducer(removed, RemoveTypingUser(name)) == removed
  {
  }

  /** Each setter replaces its one field with the payload and leaves the others. */
  lemma SettersReplaceOneField(state: ChatState, action: ChatAction)
    ensures var r := ChatReducer(state, action);
      && (action.SetCurrentUser? ==> r.currentUser == action.currentUserValue && r.(currentUser := state.currentUser) == state)
      && (action.SetCurrentRoom? ==> r.currentRoom == action.currentRoomValue && r.(currentRoom := state.currentRoom) == state)
      && (action.SetMessages? ==> r.messages == action.messageList && r.(messages := state.messages) == state)
      && (action.SetUsers? ==> r.users == action.userList && r.(users := state.users) == state)
      && (action.SetTypingUsers? ==> r.typingUsers == action.typingSet && r.(typingUsers := state.typingUsers) == state)
      && (action.SetRooms? ==> r.rooms == action.roomList && r.(rooms := state.rooms) == state)
      && (action.SetConnectionStatus? ==> r.isConnected == action.connected && r.(isConnected := state.isConnected) == state)
      && (action.SetLoading? ==> r.isLoading == action.loading && r.(isLoading := state.isLoading) == state)
      && (action.SetError? ==> r.error == Some(action.reason) && r.(error := state.error) == state)
  {
  }

  /** `CLEAR_ERROR` removes the error only; after `SET_ERROR` it restores the state before. */
  lemma ClearErrorClears(state: ChatState, reason: string)
    ensures ChatReducer(state, ClearError).error.None?
    ensures ChatReducer(state, ClearError).(error := state.error) == state
    ensures state.error.None? ==> ChatReducer(ChatReducer(state, SetError(reason)), ClearError) == state
  {
  }

  /** `RESET_STATE` returns the initial state from any state; an unrecognised action
      returns the state unchanged. */
  lemma ResetAndUnrecognised(state: ChatState, tag: string)
    ensures ChatReducer(state, ResetState) == Initial
    ensures ChatReducer(state, Unrecognised(tag)) == state
    ensures Initial.currentUser.None? && Initial.currentRoom.None? && Initial.messages == []
         && Initial.users == [] && Initial.typingUsers == {} && Initial.rooms == []
         && !Initial.isConnected && !Initial.isLoading && Initial.error.None?
  {
  }
}
