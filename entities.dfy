/** The records the chat server keeps (server/src/types/index.ts).
    Ids stand in for the uuids the store hands out; a connection id stands in for a socket id.
    Timestamps are not modelled. */
module Entities {
  /** An identifier issued by the store: a user, room or message id. */
  type Id = nat

  /** The identity of a live connection (a socket id). */
  type ConnId = nat

  /** `null` / `undefined` versus a value. */
  datatype Option<+T> = None | Some(value: T)

  /** A call that either returns a value or throws an `Error` carrying a message. */
  datatype Result<+T> = Ok(value: T) | Err(message: string)

  datatype User = User(id: Id, username: string, currentRoom: Option<Id>, socketId: ConnId)

  datatype Message = Message(id: Id, content: string, username: string, userId: Id, room: Id)

  /** A room; `users` holds the ids of its members in the order they joined. */
  datatype Room = Room(id: Id, name: string, users: seq<Id>, messages: seq<Message>)
}
