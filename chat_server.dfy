/**
 * The coordinator of server/index.ts as it runs: a Server object holding the
 * two module-level tables `rooms` and `userSockets`, which its handler methods
 * update, and the log of everything broadcast so far.  Each socket handler is
 * a method; its contract says that the new tables, the reply and the
 * broadcasts are those the matching ChatSpec function gives for the old
 * tables, and that Valid() is kept.
 */
module ChatServer {
  import opened Wrappers
  import opened JsMaps
  import opened ChatSpec

  class Server {
    /** `const rooms = new Map<string, Room>()`; a room is updated by storing its new value. */
    var rooms: map<string, RoomState>
    /** `const userSockets = new Map<string, { roomId, userId }>()`. */
    var userSockets: map<string, Binding>
    /** Every event emitted to a socket.io room, oldest first. */
    var log: seq<Event>

    /** The two tables as a value. */
    function View(): ServerState
      reads this
    {
      ServerState(rooms, userSockets)
    }

    ghost predicate Valid()
      reads this
    {
      Invariant(View())
    }

    /**
     * The module-level `new Map()` tables, before `createServer` runs.  The
     * public room does not exist yet, so Valid() is established only by
     * InitPublicRoom, the second step of start-up.
     */
    constructor ()
      ensures View() == ServerState(map[], map[]) && log == []
    {
      rooms := map[];
      userSockets := map[];
      log := [];
    }

    /** The start-up step of `createServer`: create the public room when it is absent. */
    method InitPublicRoom(now: int)
      requires WellFormed(View())
      modifies this
      ensures View() == EnsurePublicRoom(old(View()), now) && log == old(log)
      ensures Valid()
    {
      if PublicRoomId !in rooms {
        rooms := rooms[PublicRoomId := RoomState(PublicRoomId, Public, None, [], [], now)];
      }
    }

    /** Handler of join-public-chat. */
    method JoinPublicChat(socketId: string, userId: string, username: string) returns (reply: Reply)
      requires Valid()
      modifies this
      ensures var r := ChatSpec.JoinPublicChat(old(View()), socketId, userId, username);
        View() == r.state && reply == r.reply && log == old(log) + r.events
      ensures Valid()
    {
      if PublicRoomId !in rooms {
        reply := Failed("Room not found");
        return;
      }
      var room := rooms[PublicRoomId];
      var users := Set(room.users, userId, User(userId, username, socketId));
      rooms := rooms[PublicRoomId := room.(users := users)];
      userSockets := userSockets[socketId := Binding(PublicRoomId, userId)];
      reply := Joined(PublicRoomId, userId, username, Values(users), room.messages);
      log := log + Announce(PublicRoomId, socketId, username, Values(users));
    }

    /** Handler of create-private-room. */
    method CreatePrivateRoom(socketId: string, roomId: Option<string>, password: Option<string>,
                             userId: string, username: string, now: int) returns (reply: Reply)
      requires Valid()
      modifies this
      ensures var r := ChatSpec.CreatePrivateRoom(old(View()), socketId, roomId, password, userId, username, now);
        View() == r.state && reply == r.reply && log == old(log) + r.events
      ensures Valid()
    {
      if !Present(roomId) || !Present(password) {
        reply := Failed("Room ID and password are required");
        return;
      }
      if roomId.value in rooms {
        reply := Failed("Room ID already exists");
        return;
      }
      var room := RoomState(roomId.value, Private, password, [], [], now);
      rooms := rooms[roomId.value := room];
      var users := Set(rooms[roomId.value].users, userId, User(userId, username, socketId));
      rooms := rooms[roomId.value := rooms[roomId.value].(users := users)];
      userSockets := userSockets[socketId := Binding(roomId.value, userId)];
      reply := Joined(roomId.value, userId, username, Values(users), room.messages);
    }

    /** Handler of join-private-room. */
    method JoinPrivateRoom(socketId: string, roomId: Option<string>, password: Option<string>,
                           userId: string, username: string) returns (reply: Reply)
      requires Valid()
      modifies this
      ensures var r := ChatSpec.JoinPrivateRoom(old(View()), socketId, roomId, password, userId, username);
        View() == r.state && reply == r.reply && log == old(log) + r.events
      ensures Valid()
    {
      if !Present(roomId) || !Present(password) {
        reply := Failed("Room ID and password are required");
        return;
      }
      if roomId.value !in rooms {
        reply := Failed("Room not found");
        return;
      }
      var room := rooms[roomId.value];
      if room.kind != Private {
        reply := Failed("This is not a private room");
        return;
      }
      if room.password != password {
        reply := Failed("Incorrect password");
        return;
      }
      var users := Set(room.users, userId, User(userId, username, socketId));
      rooms := rooms[roomId.value := room.(users := users)];
      userSockets := userSockets[socketId := Binding(roomId.value, userId)];
      reply := Joined(roomId.value, userId, username, Values(users), room.messages);
      log := log + Announce(roomId.value, socketId, username, Values(users));
    }

    /** Handler of send-message: push the message, then shift once when the history is over the cap. */
    method SendMessage(socketId: string, text: string, messageId: string, now: int) returns (reply: Reply)
      requires Valid()
      modifies this
      ensures var r := ChatSpec.SendMessage(old(View()), socketId, text, messageId, now);
        View() == r.state && reply == r.reply && log == old(log) + r.events
      ensures Valid()
    {
      if socketId !in userSockets {
        reply := Failed("User not found in room");
        return;
      }
      var info := userSockets[socketId];
      if info.roomId !in rooms {
        reply := Failed("Room not found");
        return;
      }
      var room := rooms[info.roomId];
      var user := Get(room.users, info.userId);
      if user.None? {
        reply := Failed("User not in this room");
        return;
      }
      var message := Message(messageId, user.value.username, text, now);
      var messages := room.messages + [message];
      if |messages| > MaxMessages {
        messages := messages[1..];
      }
      rooms := rooms[info.roomId := room.(messages := messages)];
      log := log + [Emit(Everyone(info.roomId), NewMessage(message))];
      reply := Acked;
    }

    /**
     * Removes the user of binding b from its room, broadcasts the departure or
     * destroys the room, and drops the socket's binding (the part shared by
     * disconnect and exit-room).
     */
    method Depart(socketId: string, b: Binding, leftTo: Audience)
      requires Valid()
      modifies this
      ensures var e := ChatSpec.Depart(old(View()), socketId, b, leftTo);
        View() == e.state && log == old(log) + e.events
      ensures Valid()
    {
      if b.roomId in rooms {
        var room := rooms[b.roomId];
        var user := Get(room.users, b.userId);
        var rest := Delete(room.users, b.userId);
        if Size(rest) > 0 {
          rooms := rooms[b.roomId := room.(users := rest)];
          log := log + [Emit(leftTo, UserLeft(if user.Some? then Some(user.value.username) else None, Size(rest))),
                        Emit(Everyone(b.roomId), UsersUpdated(Values(rest)))];
        } else if b.roomId != PublicRoomId {
          rooms := rooms - {b.roomId};
        } else {
          rooms := rooms[b.roomId := room.(users := rest)];
        }
      }
      userSockets := userSockets - {socketId};
    }

    /** Handler of disconnect: an unbound socket changes nothing. */
    method Disconnect(socketId: string)
      requires Valid()
      modifies this
      ensures var e := ChatSpec.Disconnect(old(View()), socketId);
        View() == e.state && log == old(log) + e.events
      ensures Valid()
    {
      if socketId in userSockets {
        var info := userSockets[socketId];
        Depart(socketId, info, Everyone(info.roomId));
      }
    }

    /** Handler of exit-room. */
    method ExitRoom(socketId: string) returns (reply: Reply)
      requires Valid()
      modifies this
      ensures var r := ChatSpec.ExitRoom(old(View()), socketId);
        View() == r.state && reply == r.reply && log == old(log) + r.events
      ensures Valid()
    {
      if socketId !in userSockets {
        reply := Failed("User not found");
        return;
      }
      var info := userSockets[socketId];
      Depart(socketId, info, OthersIn(info.roomId, socketId));
      reply := Acked;
    }
  }
}
