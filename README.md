# Qchat core in Dafny

Qchat is a room-based chat service. A client connects over a socket, picks a username and joins a room by name. The server creates the user and the room when they do not exist yet. Members of a room exchange messages and typing indicators and are told when others join or leave. A room is deleted, with its messages, when its last member leaves.

The model covers three parts of the repository:

- **The server's store** (`server/src/services/DataStore.ts`). It holds users, rooms, messages and per-room typing sets.
  - `StoreState` states each operation as a pure transition over `Tables`, together with the store's invariants:
    - `Valid`: keys, ids and references agree.
    - `Membership`: a user is listed in exactly the room its record names.
    - `UniqueNames`: usernames and room names are unique up to case.
    - `NoEmptyRooms`: no stored room is empty.
    - `SocketsUnique`: no two users share a connection.
  - `Store.DataStore` is a class with those maps as fields. Each method updates them in place and is proved to reach the `StoreState` transition of the same name.
  - `StoreProperties` proves what each transition does and which invariants it keeps.
- **The session coordinator** (`server/src/services/SocketHandler.ts`). It turns client events into store calls and emitted events.
  - `Protocol` states each handler as a transition that returns the new tables and the emissions, in order. Each emission records its addressees: the originator only, the others in a room, or the whole room.
  - `Coordinator.SocketHandler` runs the handlers in place against a `Store.DataStore` and appends to an outbox. It is proved to reach the `Protocol` transitions.
  - `ProtocolProperties` proves what each handler emits and that every handler keeps `Settled`, the conjunction of the store's invariants.
- **The client's reducer** (`client/src/context/ChatContext.tsx`). `ChatContext.ChatReducer` applies one dispatched action to the client state and is pure.

Behaviours of the code that the model keeps, as written:

- Input sanitising trims the input, strips `<` and `>`, then escapes `&`, `"`, `'` and `/` as entities. The length bounds apply to the escaped text and are inclusive: a username may be 2 to 20 characters, a room name 2 to 30, a message 1 to 500. Lengths are JavaScript's `length`, which counts UTF-16 code units, so a character outside the Basic Multilingual Plane counts twice (`Text.Utf16Length`). The error texts say "less than 20", "less than 30" and "less than 500" regardless.
- `leaveRoom` clears the user's `currentRoom` even when the room left is not the user's own. `StoreProperties.LeaveOtherRoomStrandsMember` shows that this breaks `Membership`; the handlers never call it that way.
- `joinRoom` holds the target room's record from before the leave. When a user re-joins its own room as its only member, the leave deletes the room and purges its messages. The join then stores the old room record again, message list included (`StoreProperties.RejoinOwnRoomAlone`).
- `getRoomMessages(room, limit)` is `slice(-limit)`. A limit of 0 returns every message, and a negative limit drops its magnitude from the front.
- A join is not atomic. A user created for the connection stays when the room name is then refused (`ProtocolProperties.JoinKeepsCreatedUser`).
- Switching rooms with `join_room` leaves the user's typing entry in the old room.
- The `room_users` list sent on disconnect is read before the user is removed (see Findings).

Identifiers are natural numbers from one counter, `nextId`, that users, rooms and messages share. It stands for `uuidv4()`: every fresh id is unique. The iteration order of the source's `Map`s, which is insertion order, is then ascending id order.

## Model

| member | source | states |
|---|---|---|
| Text.TrimStart | server/src/services/DataStore.ts:257 | the result is a suffix of the input, everything dropped is whitespace, and the result does not start with whitespace |
| Text.TrimEnd | server/src/services/DataStore.ts:257 | the result is a prefix of the input, everything dropped is whitespace, and the result does not end with whitespace |
| Text.Trim | server/src/services/DataStore.ts:257 | the result has no whitespace at either end and is the input less leading and trailing whitespace |
| Text.StripAngles | server/src/services/DataStore.ts:258 | no `<` or `>` remains, every other character is kept, and the length does not grow |
| Text.StripAnglesConcat | server/src/services/DataStore.ts:258 | stripping distributes over concatenation, so order and repetitions of the kept characters are preserved |
| Text.StripAnglesChar | server/src/services/DataStore.ts:258 | on one character, a bracket is dropped and any other character is kept as it is |
| Text.ReplaceAllRemoves | server/src/services/DataStore.ts:259-262 | after a global replacement by text that does not hold the character, the character does not occur |
| Text.ReplaceAllAbsent | server/src/services/DataStore.ts:259-262 | a global replacement of a character the input does not hold changes nothing |
| Text.ReplaceAllConcat | server/src/services/DataStore.ts:259-262 | replacing every occurrence distributes over concatenation |
| Text.EscapeMarkupIsEscapeEach | server/src/services/DataStore.ts:259-262 | the four global replacements in a row equal escaping each character on its own, so `&` is escaped once and never doubled |
| Text.EscapeEachEntities | server/src/services/DataStore.ts:259 | in escaped text every `&` starts one of the four entities |
| Text.UnescapeEscapeEach | server/src/services/DataStore.ts:259-262 | decoding the entities inverts the escaping: the round trip gives back the input |
| Text.UnescapeSanitized | server/src/services/DataStore.ts:255-263 | decoding sanitised text gives exactly the trimmed input with `<` and `>` removed |
| Text.SanitizeInput | server/src/services/DataStore.ts:255-263 | sanitised text holds none of `<`, `>`, `"`, `'` and `/` |
| Text.SanitizedAmpersandsAreEntities | server/src/services/DataStore.ts:255-263 | every `&` in sanitised text begins an entity |
| Text.EscapeMarkup | server/src/services/DataStore.ts:259-262 | no quote, apostrophe or slash survives the escaping |
| Text.ToLower | server/src/services/DataStore.ts:24 | lower-casing keeps the length and maps each character on its own |
| Text.ToLowerIdempotent | server/src/services/DataStore.ts:24 | lower-cased text holds no capital and lower-casing it again changes nothing |
| Text.Utf16Length | server/src/services/DataStore.ts:14-18 | JavaScript's `length` counts UTF-16 code units: between one and two per character, and exactly one per character when every character is in the Basic Multilingual Plane |
| Text.Utf16LengthConcat | server/src/services/DataStore.ts:14-18 | the code-unit count of a concatenation is the sum of the parts' counts |
| Text.Utf16LengthChar | server/src/services/DataStore.ts:14-18 | one character is one code unit inside the Basic Multilingual Plane and two (a surrogate pair) outside it |
| StoreState.RemoveAll | server/src/services/DataStore.ts:146 | the filter removes every occurrence of the id, keeps every other member and never grows |
| StoreState.PurgeRoom | server/src/services/DataStore.ts:153-155 | exactly the messages of other rooms remain, unchanged |
| StoreState.FirstKeyWhere | server/src/services/DataStore.ts:47-49 | `find` returns the first key in iteration order whose value passes the test, and none when no value does |
| StoreState.KeysInOrder | server/src/services/DataStore.ts:164-166 | the keys in iteration order: strictly ascending and exactly the keys in range |
| StoreState.ValuesAt | server/src/services/DataStore.ts:164-166 | `Array.from(values())` holds the value of each listed key, position by position |
| StoreState.GetUserBySocketId | server/src/services/DataStore.ts:47-49 | a user found is bound to that connection and is the stored record |
| StoreState.GetRoomByName | server/src/services/DataStore.ts:109-113 | a room found has the name up to case and is the stored record |
| StoreState.SliceFrom | server/src/services/DataStore.ts:209 | `slice(start)` for either sign of `start`: a suffix of the length JavaScript gives |
| StoreState.LeaveRoom | server/src/services/DataStore.ts:137-162 | the user keys, typing sets and id counter are untouched and no room is added |
| StoreState.JoinRoom | server/src/services/DataStore.ts:115-135 | on success both user and room exist afterwards; typing sets and counter are untouched |
| StoreState.RemoveUser | server/src/services/DataStore.ts:59-65 | the user is gone afterwards |
| StoreState.GetRoomMessages | server/src/services/DataStore.ts:204-210 | a missing room gives none; otherwise the last `limit` messages for a positive limit, all of them for 0, and all but the first `-limit` for a negative limit |
| StoreProperties.RemoveAllNoDup | server/src/services/DataStore.ts:146 | filtering a duplicate-free member list keeps it duplicate-free |
| StoreProperties.AtMostOneRoom | server/src/services/DataStore.ts:115-162 | under `Membership` a user is listed in at most one room, the one its record names |
| StoreProperties.RoomlessIsListedNowhere | server/src/services/DataStore.ts:115-162 | under `Membership` a user in no room is in no member list |
| StoreProperties.LeaveRoomOutcome | server/src/services/DataStore.ts:137-162 | a missing user or room changes nothing; otherwise the user's room is cleared and the user filtered out; an emptied room is deleted with all its messages, else only its member list changes |
| StoreProperties.LeaveRoomFrame | server/src/services/DataStore.ts:137-162 | ids, names and connections are kept; no other room or user changes and no other room is deleted |
| StoreProperties.LeaveRoomKeepsValid | server/src/services/DataStore.ts:137-162 | `Valid` is kept, and so is "no empty room but one" |
| StoreProperties.LeaveRoomKeepsMembership | server/src/services/DataStore.ts:137-162 | leaving one's own room, or leaving while in none, keeps `Membership`; the user is then in no room and in no member list |
| StoreProperties.LeaveRoomKeeps | server/src/services/DataStore.ts:137-162 | leaving keeps every store invariant and changes no other user or room |
| StoreProperties.LeaveOtherRoomStrandsMember | server/src/services/DataStore.ts:147 | leaving a room one is not in still clears one's room, leaving one listed in one's own room, so `Membership` fails |
| StoreProperties.CreateUserOutcome | server/src/services/DataStore.ts:11-41 | success exactly when the sanitised name has 2 to 20 characters and is not taken up to case; too short gives its own error; a failure changes nothing; a success adds one fresh roomless user on that connection with the sanitised name and nothing else |
| StoreProperties.CreateUserKeepsNames | server/src/services/DataStore.ts:22-29 | creating a user keeps usernames unique up to case |
| StoreProperties.CreateUserKeepsSockets | server/src/services/DataStore.ts:11-41 | creating a user for an unbound connection keeps connections unique |
| StoreProperties.CreateUserKeeps | server/src/services/DataStore.ts:11-41 | creating a user keeps every store invariant |
| StoreProperties.CreateUserKeepsValid | server/src/services/DataStore.ts:11-41 | creating a user keeps `Valid` and leaves the rooms alone |
| StoreProperties.UpdateUserSocketIdKeeps | server/src/services/DataStore.ts:51-57 | a missing user changes nothing; otherwise the user is bound to the new connection, every invariant but unique connections is kept, and rooms, messages and typing are untouched |
| StoreProperties.CreateRoomOutcome | server/src/services/DataStore.ts:72-103 | success exactly when the sanitised name has 2 to 30 characters and no room has it up to case; a failure changes nothing; a success adds one fresh empty room with the sanitised name and nothing else |
| StoreProperties.CreateRoomValid | server/src/services/DataStore.ts:72-103 | creating a room keeps `Valid` |
| StoreProperties.CreateRoomKeepsNames | server/src/services/DataStore.ts:83-90 | creating a room keeps room names unique up to case |
| StoreProperties.CreateRoomKeeps | server/src/services/DataStore.ts:72-103 | creating a room keeps every invariant, except that the new room is empty until someone joins it |
| StoreProperties.CreateRoomFrame | server/src/services/DataStore.ts:72-103 | a failure changes nothing and a success only stores the new room, empty |
| StoreProperties.JoinRoomFails | server/src/services/DataStore.ts:115-121 | a join fails exactly when the user or the room is missing, and a failure changes nothing |
| StoreProperties.JoinRoomKeepsTables | server/src/services/DataStore.ts:115-135 | a join keeps `Valid`, `Membership`, names and connections, and leaves no empty room if only the target could be empty |
| StoreProperties.JoinRoomValid | server/src/services/DataStore.ts:115-135 | any join keeps `Valid` |
| StoreProperties.JoinRoomPlacesOnce | server/src/services/DataStore.ts:115-135 | the user now names the room, is listed last in it exactly once, is in no other room, and the room's messages are kept |
| StoreProperties.RejoinOwnRoomAlone | server/src/services/DataStore.ts:124-134 | re-joining one's own room as its only member stores the old room record again while its messages are purged from the message table |
| StoreProperties.RemoveUserErases | server/src/services/DataStore.ts:59-65 | the user is gone from the table and from every member list; no other user changes |
| StoreProperties.RemoveUserCascade | server/src/services/DataStore.ts:59-65 | the user leaves the users table, typing sets and the id counter stay; the room of a user removed as its last member is deleted with its messages, otherwise the user is filtered out of it and no message goes; no other room changes |
| StoreProperties.RemoveUserKeeps | server/src/services/DataStore.ts:59-65 | removing a user keeps every store invariant |
| StoreProperties.AddMessageOutcome | server/src/services/DataStore.ts:169-202 | success exactly when user and room exist and the sanitised text has 1 to 500 characters; a missing user or room gives its error; a failure changes nothing; a success files one fresh message with the sanitised text and the sender's name at the end of the room and in the message table, changes nothing else, and is what a limit of 1 returns |
| StoreProperties.AddMessageKeeps | server/src/services/DataStore.ts:169-202 | adding a message keeps every store invariant |
| StoreProperties.TypingIdempotent | server/src/services/DataStore.ts:213-228 | adding or removing the same typing entry twice is the same as once |
| StoreProperties.TypingSets | server/src/services/DataStore.ts:213-233 | the room's typing set gains or loses exactly that user, others are unchanged, an emptied set is deleted and a missing set reads as empty |
| StoreProperties.TypingFrame | server/src/services/DataStore.ts:213-228 | typing changes touch only the typing sets and keep `Valid` |
| StoreProperties.GetUserBySocketIdFinds | server/src/services/DataStore.ts:47-49 | found exactly when some user is bound to the connection; the stored record is returned; under unique connections it is that user |
| StoreProperties.GetRoomByNameFinds | server/src/services/DataStore.ts:109-113 | found exactly when some room has the name up to case; with unique names it is that room |
| StoreProperties.KeysInOrderCount | server/src/services/DataStore.ts:164-166 | the ordered key list has one entry per key in range |
| StoreProperties.ValuesInOrder | server/src/services/DataStore.ts:164-166 | the value list has one entry per key and holds each key's value |
| StoreProperties.AllRoomsListed | server/src/services/DataStore.ts:164-166 | `getAllRooms` lists exactly the stored rooms, each once, in insertion (id) order |
| StoreProperties.AllUsersListed | server/src/services/DataStore.ts:67-69 | `getAllUsers` lists exactly the stored users, as many as the stats count |
| StoreProperties.StatsSummarise | server/src/services/DataStore.ts:236-252 | the stats hold one summary per stored room, each with that room's name, member count and message count, in insertion (id) order; `totalRooms` agrees |
| StoreProperties.UserCountAfterCreate | server/src/services/DataStore.ts:11-41 | the user total grows by one exactly when a user is created |
| StoreProperties.MessageCountAfterAdd | server/src/services/DataStore.ts:169-202 | the message total grows by one exactly when a message is added, and the room total stays |
| Store.DataStore.constructor | server/src/services/DataStore.ts:5-8 | a new store is empty and valid |
| Store.DataStore.CreateUser | server/src/services/DataStore.ts:11-41 | the store and the result are those of `StoreState.CreateUser` |
| Store.DataStore.UpdateUserSocketId | server/src/services/DataStore.ts:51-57 | the store becomes that of `StoreState.UpdateUserSocketId` |
| Store.DataStore.RemoveUser | server/src/services/DataStore.ts:59-65 | the store becomes that of `StoreState.RemoveUser` |
| Store.DataStore.CreateRoom | server/src/services/DataStore.ts:72-103 | the store and the result are those of `StoreState.CreateRoom` |
| Store.DataStore.JoinRoom | server/src/services/DataStore.ts:115-135 | the store and the result are those of `StoreState.JoinRoom` |
| Store.DataStore.LeaveRoom | server/src/services/DataStore.ts:137-162 | the store becomes that of `StoreState.LeaveRoom` |
| Store.DataStore.PurgeMessages | server/src/services/DataStore.ts:153-155 | the loop deletes exactly the messages of the room and touches nothing else |
| Store.DataStore.AddMessage | server/src/services/DataStore.ts:169-202 | the store and the result are those of `StoreState.AddMessage` |
| Store.DataStore.AddTypingUser | server/src/services/DataStore.ts:213-218 | the store becomes that of `StoreState.AddTypingUser` |
| Store.DataStore.RemoveTypingUser | server/src/services/DataStore.ts:220-228 | the store becomes that of `StoreState.RemoveTypingUser` |
| Protocol.UsersOf | server/src/services/SocketHandler.ts:94 | when every member is stored, the payload holds each member's record, in member order |
| Protocol.BindUser | server/src/services/SocketHandler.ts:62-68 | the user already bound to the connection is reused and no user is added; otherwise a new user, in no room, is stored under the sanitised name; the user returned is the stored record and bound to the connection; a failure changes nothing |
| Protocol.FindOrCreateRoom | server/src/services/SocketHandler.ts:70-74 | a room whose name matches up to case is returned and nothing changes; otherwise a new empty room is stored under the sanitised name; the room returned is the stored record; users are untouched |
| Protocol.HandleJoinRoom | server/src/services/SocketHandler.ts:60-101 | the tables stay valid; every emission comes from the connection; a failure emits one error to the originator, a success three events starting with `room_joined` to the originator |
| ProtocolProperties.JoinSteps | server/src/services/SocketHandler.ts:60-101 | binding and finding the room keep every invariant, with the found room the only one that may be empty, and a failed step changes nothing |
| ProtocolProperties.JoinKeepsSettled | server/src/services/SocketHandler.ts:60-101 | `join_room` keeps every store invariant, whichever step fails |
| ProtocolProperties.JoinFails | server/src/services/SocketHandler.ts:97-100 | a failed bind or room lookup emits only an error to the originator; what the bind did stays |
| ProtocolProperties.JoinSucceeds | server/src/services/SocketHandler.ts:76-94 | a join emits `room_joined` to the originator, `user_joined` to the others and `room_users` to the room, in that order; the user is bound to the connection, names the room and is listed last in it |
| ProtocolProperties.JoinTargets | server/src/services/SocketHandler.ts:62-77 | the joined user is the one bound to the connection, or else a new user under the sanitised name; the room joined is the stored room whose name matches up to case, or else a new room under the sanitised name; the user now names that room |
| ProtocolProperties.JoinKeepsCreatedUser | server/src/services/SocketHandler.ts:62-74 | a user created for the connection stays after a join, even one whose room is refused |
| Protocol.HandleSendMessage | server/src/services/SocketHandler.ts:103-125 | every emission comes from the connection; a refusal emits one error to the originator, a delivery two events ending with the message to the whole room; an unbound connection changes nothing |
| ProtocolProperties.SendUnauthorised | server/src/services/SocketHandler.ts:105-109 | a connection not in that room gets only the error and nothing changes |
| ProtocolProperties.SendRejected | server/src/services/SocketHandler.ts:111-124 | a message the store refuses emits only its error to the originator and changes nothing |
| ProtocolProperties.SendDelivered | server/src/services/SocketHandler.ts:103-125 | an accepted message stops the sender's typing for the others, then goes to the whole room; it is filed at the end of the room with the sanitised text and the sender's name |
| ProtocolProperties.SendKeepsSettled | server/src/services/SocketHandler.ts:103-125 | `send_message` keeps every store invariant |
| Protocol.HandleLeaveRoom | server/src/services/SocketHandler.ts:127-165 | every emission comes from the connection; no emission means no change; any emission starts with `user_left` for the bound user |
| Protocol.IntendedHandleLeaveRoom | server/src/services/SocketHandler.ts:127-165 | as the handler, with `user_left` addressed to the others in the room the user was in |
| Protocol.LeaveNotices | server/src/services/SocketHandler.ts:146-152 | `user_left` to the others, then the remaining members exactly when some remain, all addressed to the one room given |
| ProtocolProperties.LeaveNoticesReaddressed | server/src/services/SocketHandler.ts:146-152 | the leave notices addressed to two rooms carry the same events from the same connection |
| ProtocolProperties.LeaveNoOp | server/src/services/SocketHandler.ts:129-137 | no bound user, no current room, or a missing room: nothing changes and nothing is emitted |
| ProtocolProperties.LeaveEffects | server/src/services/SocketHandler.ts:127-165 | the user ends in no room and no member list, their typing entry goes, `user_left` is emitted, then the remaining members exactly when the room survives |
| ProtocolProperties.LeaveAddressedToNobody | server/src/services/SocketHandler.ts:143-151 | every emission of `leave_room` as written is addressed to no room |
| ProtocolProperties.IntendedLeaveReachesRoom | server/src/services/SocketHandler.ts:143-151 | the corrected handler reaches the same tables and emits the same events, each addressed to the room just left |
| ProtocolProperties.LeaveKeepsSettled | server/src/services/SocketHandler.ts:127-165 | `leave_room` keeps every store invariant |
| ProtocolProperties.TypingEvents | server/src/services/SocketHandler.ts:167-193 | a connection not in that room changes nothing and emits nothing; otherwise the user is added to or removed from the typing set and one event goes to the others in the room |
| Protocol.HandleStartTyping | server/src/services/SocketHandler.ts:167-179 | at most one `typing_start` to the others in the room, from the connection; only the typing sets can change, and nothing changes when nothing is emitted |
| Protocol.HandleStopTyping | server/src/services/SocketHandler.ts:181-193 | at most one `typing_stop` to the others in the room, from the connection; only the typing sets can change, and nothing changes when nothing is emitted |
| ProtocolProperties.TypingKeepsSettledAll | server/src/services/SocketHandler.ts:167-193 | `start_typing` and `stop_typing` keep every store invariant |
| ProtocolProperties.GetRoomsListsAll | server/src/services/SocketHandler.ts:195-203 | the originator alone gets one list holding every stored room, and nothing changes |
| ProtocolProperties.GetRoomsKeepsSettled | server/src/services/SocketHandler.ts:195-203 | `get_rooms` keeps every store invariant |
| ProtocolProperties.DisconnectNoUser | server/src/services/SocketHandler.ts:207-208 | an unbound connection changes nothing and emits nothing |
| Protocol.HandleDisconnect | server/src/services/SocketHandler.ts:205-232 | an unbound connection changes nothing and emits nothing; otherwise the bound user is removed; at most two emissions, all from the connection |
| Protocol.DisconnectNotices | server/src/services/SocketHandler.ts:212-221 | `user_left` for the user to the others in its room, then `room_users` to the whole room exactly when the room had more than one member, carrying the records of the members listed before the removal |
| Protocol.IntendedHandleDisconnect | server/src/services/SocketHandler.ts:205-232 | as the handler: an unbound connection changes nothing, otherwise the user is removed, with at most two emissions from the connection |
| ProtocolProperties.DisconnectStep | server/src/services/SocketHandler.ts:205-232 | the handler as written and the corrected one reach the same tables; a user in no stored room emits nothing |
| ProtocolProperties.DisconnectRemoves | server/src/services/SocketHandler.ts:205-232 | the user and its connection binding are gone, it is in no member list, and a user in a room is cleared from that room's typing set (and no one else is), had `user_left` emitted to the others, then the pre-removal member list to the whole room exactly when others were listed |
| ProtocolProperties.DisconnectKeepsSettled | server/src/services/SocketHandler.ts:205-232 | `disconnect` keeps every store invariant |
| ProtocolProperties.DisconnectListHoldsDeparted | server/src/services/SocketHandler.ts:219-220 | as written, a `room_users` list sent on disconnect still holds the user being removed |
| ProtocolProperties.IntendedDisconnectAgrees | server/src/services/SocketHandler.ts:215-220 | the corrected handler reaches the same tables, sends the same number of events and the same `user_left` |
| ProtocolProperties.IntendedDisconnectListsRemaining | server/src/services/SocketHandler.ts:219-220 | the corrected handler's member list is the room's list after removal and no longer holds the user |
| Coordinator.SocketHandler.constructor | server/src/services/SocketHandler.ts:14-18 | the handler works on the given store and has emitted nothing |
| Coordinator.SocketHandler.BindUser | server/src/services/SocketHandler.ts:62-68 | the store and the result are those of `Protocol.BindUser` |
| Coordinator.SocketHandler.FindOrCreateRoom | server/src/services/SocketHandler.ts:70-74 | the store and the result are those of `Protocol.FindOrCreateRoom` |
| Coordinator.SocketHandler.HandleJoinRoom | server/src/services/SocketHandler.ts:60-101 | the store and the emissions appended are those of `Protocol.HandleJoinRoom` |
| Coordinator.SocketHandler.HandleSendMessage | server/src/services/SocketHandler.ts:103-125 | the store and the emissions appended are those of `Protocol.HandleSendMessage` |
| Coordinator.SocketHandler.HandleLeaveRoom | server/src/services/SocketHandler.ts:127-165 | the store and the emissions appended are those of `Protocol.HandleLeaveRoom` |
| Coordinator.SocketHandler.AnnounceLeave | server/src/services/SocketHandler.ts:146-152 | `user_left`, then the remaining members when there are any, are appended, addressed to the room the user's record names |
| Coordinator.SocketHandler.HandleStartTyping | server/src/services/SocketHandler.ts:167-179 | the store and the emissions appended are those of `Protocol.HandleStartTyping` |
| Coordinator.SocketHandler.HandleStopTyping | server/src/services/SocketHandler.ts:181-193 | the store and the emissions appended are those of `Protocol.HandleStopTyping` |
| Coordinator.SocketHandler.HandleGetRooms | server/src/services/SocketHandler.ts:195-203 | the store is unchanged and the room list is appended, as `Protocol.HandleGetRooms` says |
| Coordinator.SocketHandler.NotifyDeparture | server/src/services/SocketHandler.ts:212-221 | the typing entry goes, and `user_left`, then the pre-removal member list when more than one member is listed, are appended |
| Coordinator.SocketHandler.HandleDisconnect | server/src/services/SocketHandler.ts:205-232 | the store and the emissions appended are those of `Protocol.HandleDisconnect` |
| ChatContext.WithoutUser | client/src/context/ChatContext.tsx:39-45 | the filter keeps exactly the users with another id and never grows |
| ChatContext.WithoutUserConcat | client/src/context/ChatContext.tsx:45 | filtering distributes over concatenation |
| ChatContext.WithoutAbsentUser | client/src/context/ChatContext.tsx:45 | filtering out an id nobody has changes nothing |
| ChatContext.WithoutUserKeepsUnique | client/src/context/ChatContext.tsx:45 | filtering keeps user ids unique |
| ChatContext.AddMessageAppends | client/src/context/ChatContext.tsx:24-28 | `ADD_MESSAGE` appends the message and changes nothing else |
| ChatContext.AddUserReplaces | client/src/context/ChatContext.tsx:36-40 | `ADD_USER` puts the user last, drops any earlier user with that id, keeps the rest in order and changes nothing else |
| ChatContext.AddUserIdempotent | client/src/context/ChatContext.tsx:36-40 | adding the same user twice is the same as once |
| ChatContext.RemoveUserDrops | client/src/context/ChatContext.tsx:42-46 | `REMOVE_USER` keeps exactly the users with another id, in their order (`WithoutUser`), changes nothing for an absent one, is idempotent and changes nothing else |
| ChatContext.ReducerKeepsUniqueUsers | client/src/context/ChatContext.tsx:16-83 | every action keeps user ids unique, given a replacement list that has them unique |
| ChatContext.TypingUsersAsSet | client/src/context/ChatContext.tsx:51-60 | adding or removing a typing name is set union or difference, and repeating it changes nothing |
| ChatContext.SettersReplaceOneField | client/src/context/ChatContext.tsx:18-72 | each `SET_*` action replaces its one field with the payload and leaves every other field alone |
| ChatContext.ClearErrorClears | client/src/context/ChatContext.tsx:71-75 | `CLEAR_ERROR` clears the error and nothing else; setting then clearing an error restores an error-free state |
| ChatContext.ResetAndUnrecognised | client/src/context/ChatContext.tsx:77-81 | `RESET_STATE` gives the initial state, which is empty, disconnected, idle and error-free; an unknown action changes nothing |
| ChatContext.ChatReducer | client/src/context/ChatContext.tsx:16-83 | the message list changes only under `ADD_MESSAGE`, `SET_MESSAGES` and `RESET_STATE`, the user list only under the three user actions and reset, the room list only under `SET_ROOMS` and reset |

## Left out

- Identifiers: `uuidv4()` is replaced by the shared counter `nextId`. The model captures freshness, which is all the code relies on, and not the format of the ids.
- The `joinedAt`, `createdAt`, `lastActivity` and `timestamp` dates are not modelled. No decision in the core depends on them, and stats summaries leave them out.
- `trim()` and `toLowerCase()` are modelled on ASCII: space, tab, line feed, vertical tab, form feed and carriage return are whitespace, and `A` to `Z` are the capitals. Unicode whitespace and case mapping are not modelled.
- The `Map` iteration order is ascending id order. That matches insertion order except for a room that `joinRoom` re-inserts after its leave deleted it. In the source that room moves to the end of `getAllRooms`; in the model it keeps its id's position.
- Room member lists hold user ids, not user objects. A `room_users` payload is the records looked up by those ids at emission time, which is what the aliased objects in the source show when they are emitted.
- The socket.io transport is not modelled: `socket.join`, `socket.leave`, the `socket.data` assignments and the delivery of events. Emissions are recorded with their addressees in an outbox instead.
- The event wiring in `setupEventHandlers` (server/src/services/SocketHandler.ts:20-58) is not modelled. Each handler method is modelled as the entry point for its event.
- Console logging is not modelled.
- The `try`/`catch` fallbacks for errors that are not `Error` objects are not modelled. Neither are the generic "Failed to …" messages those fallbacks emit. Every throw in the core is an `Error`, and its message is modelled.
- `getRoomMessages`' default `limit` of 50 is not modelled: the HTTP route, which is not part of this model, always passes one. A limit that is `NaN` or not an integer is not modelled; the limit is an integer.
- `getUser`, `getAllUsers`, `getAllRooms`, `getRoom` and `getTypingUsers` are plain lookups. Dafny members model them, but they have no row of their own. Their properties are carried by `StoreProperties.AllUsersListed`, `StoreProperties.AllRoomsListed` and `StoreProperties.TypingSets`, and `getTypingUsers` is modelled as a set, not an array. `getStats` likewise has no row of its own: `StoreProperties.StatsSummarise` states what it holds. `handleGetRooms` is carried by `ProtocolProperties.GetRoomsListsAll`.
- `Store.DataStore.PurgeMessages` deletes in ascending id order, not in the order of `Array.from(messages.values())`. The result is the same.
- Client-side types reuse the server records. The `SET_ERROR` payload is a string.
- The HTTP routes, `server/src/socket.ts`, the React components and hooks, the socket client and the date helpers are not part of this model.

## Findings

| source | as written | input that shows it | evidently intended | confidence | as-written member | corrected member |
|---|---|---|---|---|---|---|
| server/src/services/SocketHandler.ts:143-151 | `user` is the store's own record, so after `leaveRoom` its `currentRoom` is null, and `user_left` and `room_users` go to `to(null)`, which reaches no one | a user in a room with another member sends `leave_room`; the other member is told nothing | notify the room just left | not executed | ProtocolProperties.LeaveAddressedToNobody | ProtocolProperties.IntendedLeaveReachesRoom |
| server/src/services/SocketHandler.ts:219-220 | `room.users` is read before `removeUser`, so the `room_users` list sent on disconnect still holds the departing user | two members in a room; one disconnects; the other receives a list that still names the departed user | send the list of members that remain | not executed | ProtocolProperties.DisconnectListHoldsDeparted | ProtocolProperties.IntendedDisconnectListsRemaining |
