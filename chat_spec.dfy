/**
 * The room and session coordinator of server/index.ts as values: the two
 * in-memory tables (`rooms`, `userSockets`) form a ServerState, and every socket
 * handler is a function from the state before the event to the state after it,
 * the callback reply and the broadcasts it emits.  The class layer in
 * chat_server.dfy is proved to compute exactly these functions.
 *
 * Random ids, random user names and `Date.now()` are parameters.
 */
module ChatSpec {
  import opened Wrappers
  import opened JsMaps

  /** The id of the one shared room. */
  const PublicRoomId: string := "public"
  /** How many messages a room keeps. */
  const MaxMessages: nat := 100

  datatype Message = Message(id: string, username: string, text: string, timestamp: int)
  datatype User = User(id: string, username: string, socketId: string)
  datatype RoomType = Public | Private
  datatype RoomState = RoomState(
    id: string,
    kind: RoomType,
    password: Option<string>,
    messages: seq<Message>,
    users: JsMap<string, User>,
    createdAt: int)
  /** A `userSockets` entry: which room and which user a socket is. */
  datatype Binding = Binding(roomId: string, userId: string)
  datatype ServerState = ServerState(rooms: map<string, RoomState>, userSockets: map<string, Binding>)

  /** `io.to(room)` reaches every socket in the room, `socket.to(room)` all but the sender. */
  datatype Audience = Everyone(roomId: string) | OthersIn(roomId: string, socketId: string)
  datatype Payload =
    | UserJoined(username: string, usersCount: nat)
    | UsersUpdated(users: seq<User>)
    | NewMessage(message: Message)
    | UserLeft(leaver: Option<string>, usersCount: nat)
  datatype Event = Emit(audience: Audience, payload: Payload)

  /** The object a handler passes to its callback. */
  datatype Reply =
    | Joined(roomId: string, userId: string, username: string, users: seq<User>, messages: seq<Message>)
    | Acked
    | Failed(error: string)
    /** disconnect has no callback. */
    | NoCallback

  datatype Step = Step(state: ServerState, reply: Reply, events: seq<Event>)
  /** What `disconnect`, which has no callback, does. */
  datatype Effect = Effect(state: ServerState, events: seq<Event>)

  /** JavaScript truthiness of an optional string field of a request: a missing field and "" are falsy. */
  predicate Present(field: Option<string>) {
    field.Some? && field.value != ""
  }

  // ---------------------------------------------------------------------------
  // Invariants

  /** What every stored room satisfies. */
  predicate RoomOk(id: string, room: RoomState) {
    && id != ""
    && room.id == id
    && (room.kind == Public <==> id == PublicRoomId)
    && (room.kind == Private ==> room.password.Some?)
    && |room.messages| <= MaxMessages
    && DistinctKeys(room.users)
    && (id != PublicRoomId ==> |room.users| > 0)
  }

  predicate WellFormed(st: ServerState) {
    forall id :: id in st.rooms ==> RoomOk(id, st.rooms[id])
  }

  /**
   * The public room exists, only it is public, no history is longer than
   * MaxMessages, and a private room exists only while it has a user.
   */
  predicate Invariant(st: ServerState) {
    PublicRoomId in st.rooms && WellFormed(st)
  }

  /** Socket s is bound to a user that exists in the room the binding names and carries s. */
  predicate BoundTo(st: ServerState, s: string, b: Binding) {
    && b.roomId in st.rooms
    && var u := Get(st.rooms[b.roomId].users, b.userId);
       u.Some? && u.value.socketId == s
  }

  /** Every session binding points at an existing user of an existing room. */
  predicate Consistent(st: ServerState) {
    forall s :: s in st.userSockets ==> BoundTo(st, s, st.userSockets[s])
  }

  // ---------------------------------------------------------------------------
  // Start-up

  /** Creates the public room unless it is already there. */
  function EnsurePublicRoom(st: ServerState, now: int): (r: ServerState)
    ensures PublicRoomId in r.rooms
    ensures PublicRoomId in st.rooms ==> r == st
    ensures PublicRoomId !in st.rooms ==>
      && r.rooms == st.rooms[PublicRoomId := RoomState(PublicRoomId, Public, None, [], [], now)]
      && r.userSockets == st.userSockets
    ensures WellFormed(st) ==> Invariant(r)
  {
    if PublicRoomId in st.rooms then st
    else ServerState(st.rooms[PublicRoomId := RoomState(PublicRoomId, Public, None, [], [], now)], st.userSockets)
  }

  /** Both tables start empty and the public room is created. */
  function InitialState(now: int): (r: ServerState)
    ensures Invariant(r) && Consistent(r)
    ensures r.rooms.Keys == {PublicRoomId} && r.userSockets == map[]
    ensures r.rooms[PublicRoomId].users == [] && r.rooms[PublicRoomId].messages == []
  {
    EnsurePublicRoom(ServerState(map[], map[]), now)
  }

  // ---------------------------------------------------------------------------
  // Joining

  /**
   * st' is st with one user (userId, username, socketId) added to room roomId
   * (whose state before was `before`) and socket bound to it; no other room and
   * no other binding changes.  A new user id is appended; an id already in the
   * room keeps its entry's position and takes the new user.
   */
  ghost predicate Admits(st: ServerState, st': ServerState, roomId: string, before: RoomState,
                         socketId: string, userId: string, username: string)
  {
    var user := User(userId, username, socketId);
    && st'.rooms.Keys == st.rooms.Keys + {roomId}
    && (forall id :: id in st.rooms && id != roomId ==> st'.rooms[id] == st.rooms[id])
    && st'.userSockets == st.userSockets[socketId := Binding(roomId, userId)]
    && var after := st'.rooms[roomId];
       && after == before.(users := after.users)
       && Get(after.users, userId) == Some(user)
       && (forall k :: k != userId ==> Get(after.users, k) == Get(before.users, k))
       && (userId !in Keys(before.users) ==> after.users == before.users + [Entry(userId, user)])
       && (userId in Keys(before.users) ==>
             after.users == before.users[Find(before.users, userId) := Entry(userId, user)])
  }

  /** Adds the user to the room and binds the socket, replying with the room's users and history. */
  function Admit(st: ServerState, roomId: string, room: RoomState,
                 socketId: string, userId: string, username: string): (r: Step)
    ensures Admits(st, r.state, roomId, room, socketId, userId, username)
    ensures r.reply == Joined(roomId, userId, username, Values(r.state.rooms[roomId].users), room.messages)
    ensures User(userId, username, socketId) in r.reply.users
    ensures r.events == []
  {
    var users := Set(room.users, userId, User(userId, username, socketId));
    Step(ServerState(st.rooms[roomId := room.(users := users)],
                     st.userSockets[socketId := Binding(roomId, userId)]),
         Joined(roomId, userId, username, Values(users), room.messages),
         [])
  }

  /** The two presence broadcasts that follow a join into an existing room. */
  function Announce(roomId: string, socketId: string, username: string, users: seq<User>): seq<Event> {
    [Emit(OthersIn(roomId, socketId), UserJoined(username, |users|)),
     Emit(Everyone(roomId), UsersUpdated(users))]
  }

  /** join-public-chat. */
  function JoinPublicChat(st: ServerState, socketId: string, userId: string, username: string): (r: Step)
    ensures PublicRoomId !in st.rooms ==> r == Step(st, Failed("Room not found"), [])
    ensures PublicRoomId in st.rooms ==>
      && Admits(st, r.state, PublicRoomId, st.rooms[PublicRoomId], socketId, userId, username)
      && r.reply == Joined(PublicRoomId, userId, username, Values(r.state.rooms[PublicRoomId].users),
                           st.rooms[PublicRoomId].messages)
      && User(userId, username, socketId) in r.reply.users
      && r.events == Announce(PublicRoomId, socketId, username, r.reply.users)
    ensures Invariant(st) ==> Invariant(r.state)
  {
    if PublicRoomId !in st.rooms then Step(st, Failed("Room not found"), [])
    else
      var a := Admit(st, PublicRoomId, st.rooms[PublicRoomId], socketId, userId, username);
      a.(events := Announce(PublicRoomId, socketId, username, a.reply.users))
  }

  /** create-private-room. */
  function CreatePrivateRoom(st: ServerState, socketId: string, roomId: Option<string>, password: Option<string>,
                             userId: string, username: string, now: int): (r: Step)
    ensures r.reply == Failed("Room ID and password are required") <==> !Present(roomId) || !Present(password)
    ensures r.reply == Failed("Room ID already exists") <==>
      Present(roomId) && Present(password) && roomId.value in st.rooms
    ensures r.reply.Failed? ==> r.state == st
    ensures r.events == []
    ensures Present(roomId) && Present(password) && roomId.value !in st.rooms ==>
      var user := User(userId, username, socketId);
      && r.state.rooms == st.rooms[roomId.value := RoomState(roomId.value, Private, password, [], [Entry(userId, user)], now)]
      && r.state.userSockets == st.userSockets[socketId := Binding(roomId.value, userId)]
      && r.reply == Joined(roomId.value, userId, username, [user], [])
    ensures Invariant(st) ==> Invariant(r.state)
  {
    if !Present(roomId) || !Present(password) then Step(st, Failed("Room ID and password are required"), [])
    else if roomId.value in st.rooms then Step(st, Failed("Room ID already exists"), [])
    else
      var room := RoomState(roomId.value, Private, password, [], [], now);
      assert [] + [Entry(userId, User(userId, username, socketId))] == [Entry(userId, User(userId, username, socketId))];
      Admit(st, roomId.value, room, socketId, userId, username)
  }

  /** join-private-room. */
  function JoinPrivateRoom(st: ServerState, socketId: string, roomId: Option<string>, password: Option<string>,
                           userId: string, username: string): (r: Step)
    ensures r.reply == Failed("Room ID and password are required") <==> !Present(roomId) || !Present(password)
    ensures r.reply == Failed("Room not found") <==>
      Present(roomId) && Present(password) && roomId.value !in st.rooms
    ensures r.reply == Failed("This is not a private room") <==>
      Present(roomId) && Present(password) && roomId.value in st.rooms && st.rooms[roomId.value].kind != Private
    ensures r.reply == Failed("Incorrect password") <==>
      && Present(roomId) && Present(password) && roomId.value in st.rooms
      && st.rooms[roomId.value].kind == Private && st.rooms[roomId.value].password != password
    ensures r.reply.Failed? ==> r.state == st && r.events == []
    ensures && Present(roomId) && Present(password) && roomId.value in st.rooms
            && st.rooms[roomId.value].kind == Private && st.rooms[roomId.value].password == password
            ==> r.reply.Joined?
    ensures !r.reply.Failed? ==>
      && roomId.Some? && roomId.value in st.rooms
      && Admits(st, r.state, roomId.value, st.rooms[roomId.value], socketId, userId, username)
      && r.reply == Joined(roomId.value, userId, username, Values(r.state.rooms[roomId.value].users),
                           st.rooms[roomId.value].messages)
      && User(userId, username, socketId) in r.reply.users
      && r.events == Announce(roomId.value, socketId, username, r.reply.users)
    ensures Invariant(st) ==> Invariant(r.state)
  {
    if !Present(roomId) || !Present(password) then Step(st, Failed("Room ID and password are required"), [])
    else if roomId.value !in st.rooms then Step(st, Failed("Room not found"), [])
    else
      var room := st.rooms[roomId.value];
      if room.kind != Private then Step(st, Failed("This is not a private room"), [])
      else if room.password != password then Step(st, Failed("Incorrect password"), [])
      else
        var a := Admit(st, roomId.value, room, socketId, userId, username);
        a.(events := Announce(roomId.value, socketId, username, a.reply.users))
  }

  // ---------------------------------------------------------------------------
  // Messages

  /**
   * The history after `push(m)` followed by one `shift()` when it has grown
   * past MaxMessages: a suffix of history + [m], one longer unless the history
   * was already full, in which case exactly the oldest message is dropped.
   */
  function Retain(history: seq<Message>, m: Message): (h: seq<Message>)
    ensures |h| == if |history| < MaxMessages then |history| + 1 else |history|
    ensures h == (history + [m])[|history| + 1 - |h|..]
    ensures |history| <= MaxMessages ==> |h| <= MaxMessages
    ensures h[|h| - 1] == m
  {
    var pushed := history + [m];
    if |pushed| > MaxMessages then pushed[1..] else pushed
  }

  /**
   * st' is st with message m appended, through Retain, to the history of the
   * room socketId is bound to; m carries the sender's user name.
   */
  ghost predicate Posted(st: ServerState, st': ServerState, socketId: string, m: Message) {
    && socketId in st.userSockets
    && var b := st.userSockets[socketId];
       && b.roomId in st.rooms
       && var room := st.rooms[b.roomId];
          && Get(room.users, b.userId).Some?
          && m.username == Get(room.users, b.userId).value.username
          && st'.rooms == st.rooms[b.roomId := room.(messages := Retain(room.messages, m))]
          && st'.userSockets == st.userSockets
  }

  /** send-message. */
  function SendMessage(st: ServerState, socketId: string, text: string, messageId: string, now: int): (r: Step)
    ensures r.reply == Failed("User not found in room") <==> socketId !in st.userSockets
    ensures r.reply == Failed("Room not found") <==>
      socketId in st.userSockets && st.userSockets[socketId].roomId !in st.rooms
    ensures r.reply == Failed("User not in this room") <==>
      && socketId in st.userSockets && st.userSockets[socketId].roomId in st.rooms
      && st.userSockets[socketId].userId !in Keys(st.rooms[st.userSockets[socketId].roomId].users)
    ensures r.reply.Failed? ==> r.state == st && r.events == []
    ensures && socketId in st.userSockets && st.userSockets[socketId].roomId in st.rooms
            && st.userSockets[socketId].userId in Keys(st.rooms[st.userSockets[socketId].roomId].users)
            ==> r.reply == Acked
    ensures !r.reply.Failed? ==>
      && r.reply == Acked
      && |r.events| == 1 && r.events[0].payload.NewMessage?
      && var m := r.events[0].payload.message;
         && m == Message(messageId, m.username, text, now)
         && Posted(st, r.state, socketId, m)
         && r.events[0].audience == Everyone(st.userSockets[socketId].roomId)
    ensures Invariant(st) ==> Invariant(r.state)
  {
    if socketId !in st.userSockets then Step(st, Failed("User not found in room"), [])
    else
      var b := st.userSockets[socketId];
      if b.roomId !in st.rooms then Step(st, Failed("Room not found"), [])
      else
        var room := st.rooms[b.roomId];
        match Get(room.users, b.userId)
        case None => Step(st, Failed("User not in this room"), [])
        case Some(user) =>
          var m := Message(messageId, user.username, text, now);
          Step(ServerState(st.rooms[b.roomId := room.(messages := Retain(room.messages, m))], st.userSockets),
               Acked,
               [Emit(Everyone(b.roomId), NewMessage(m))])
  }

  // ---------------------------------------------------------------------------
  // Leaving

  /**
   * st' is st after the user of binding b left: the binding of socketId is
   * gone, the user is removed from its room, and the room is destroyed exactly
   * when it is left empty and is not the public room.  No other room changes.
   */
  ghost predicate Departed(st: ServerState, st': ServerState, socketId: string, b: Binding) {
    && st'.userSockets == st.userSockets - {socketId}
    && (b.roomId !in st.rooms ==> st'.rooms == st.rooms)
    && (b.roomId in st.rooms ==>
         var rest := Delete(st.rooms[b.roomId].users, b.userId);
         && st'.rooms.Keys == (if |rest| == 0 && b.roomId != PublicRoomId then st.rooms.Keys - {b.roomId} else st.rooms.Keys)
         && (forall id :: id in st.rooms && id != b.roomId ==> st'.rooms[id] == st.rooms[id])
         && (b.roomId in st'.rooms ==> st'.rooms[b.roomId] == st.rooms[b.roomId].(users := rest)))
  }

  /**
   * The broadcasts of a departure under binding b: while the room keeps users,
   * user-left (with the leaver's name and the new count) to `leftTo`, then the
   * remaining users to everyone in the room; nothing when the room is gone or
   * left empty.
   */
  ghost predicate Farewell(st: ServerState, b: Binding, leftTo: Audience, events: seq<Event>) {
    if b.roomId in st.rooms && |Delete(st.rooms[b.roomId].users, b.userId)| > 0 then
      var rest := Delete(st.rooms[b.roomId].users, b.userId);
      var gone := Get(st.rooms[b.roomId].users, b.userId);
      events == [Emit(leftTo, UserLeft(if gone.Some? then Some(gone.value.username) else None, |rest|)),
                 Emit(Everyone(b.roomId), UsersUpdated(Values(rest)))]
    else
      events == []
  }

  /**
   * The part that disconnect and exit-room share: remove the user, announce
   * it to whoever remains (`leftTo` is the audience of user-left), destroy the
   * room when it is empty and private, drop the binding.
   */
  function Depart(st: ServerState, socketId: string, b: Binding, leftTo: Audience): (r: Effect)
    ensures Departed(st, r.state, socketId, b)
    ensures Farewell(st, b, leftTo, r.events)
    ensures Invariant(st) ==> Invariant(r.state)
  {
    var sockets := st.userSockets - {socketId};
    var r :=
      if b.roomId !in st.rooms then Effect(ServerState(st.rooms, sockets), [])
      else
        var room := st.rooms[b.roomId];
        var gone := Get(room.users, b.userId);
        var rest := Delete(room.users, b.userId);
        if Size(rest) > 0 then
          Effect(ServerState(st.rooms[b.roomId := room.(users := rest)], sockets),
                 [Emit(leftTo, UserLeft(if gone.Some? then Some(gone.value.username) else None, Size(rest))),
                  Emit(Everyone(b.roomId), UsersUpdated(Values(rest)))])
        else if b.roomId != PublicRoomId then
          Effect(ServerState(st.rooms - {b.roomId}, sockets), [])
        else
          Effect(ServerState(st.rooms[b.roomId := room.(users := rest)], sockets), []);
    RemovalDeparted(st, socketId, b, r.state);
    DepartedKeepsInvariant(st, r.state, socketId, b);
    r
  }

  /** The tables Depart builds satisfy Departed. */
  lemma RemovalDeparted(st: ServerState, socketId: string, b: Binding, st': ServerState)
    requires st'.userSockets == st.userSockets - {socketId}
    requires b.roomId !in st.rooms ==> st'.rooms == st.rooms
    requires b.roomId in st.rooms ==>
      var room := st.rooms[b.roomId];
      var rest := Delete(room.users, b.userId);
      st'.rooms == if |rest| == 0 && b.roomId != PublicRoomId then st.rooms - {b.roomId}
                   else st.rooms[b.roomId := room.(users := rest)]
    ensures Departed(st, st', socketId, b)
  {
  }

  /** A departure keeps the invariant: the room that loses a user is either destroyed or still valid. */
  lemma DepartedKeepsInvariant(st: ServerState, st': ServerState, socketId: string, b: Binding)
    requires Departed(st, st', socketId, b)
    ensures Invariant(st) ==> Invariant(st')
  {
    if Invariant(st) && b.roomId in st.rooms {
      var rest := Delete(st.rooms[b.roomId].users, b.userId);
      forall id | id in st'.rooms ensures RoomOk(id, st'.rooms[id]) {
        if id != b.roomId {
          assert st'.rooms[id] == st.rooms[id];
        }
      }
    }
  }

  /** disconnect: does nothing for an unbound socket; user-left reaches the whole room. */
  function Disconnect(st: ServerState, socketId: string): (r: Effect)
    ensures socketId !in st.userSockets ==> r == Effect(st, [])
    ensures socketId in st.userSockets ==>
      var b := st.userSockets[socketId];
      Departed(st, r.state, socketId, b) && Farewell(st, b, Everyone(b.roomId), r.events)
    ensures Invariant(st) ==> Invariant(r.state)
  {
    if socketId !in st.userSockets then Effect(st, [])
    else
      var b := st.userSockets[socketId];
      Depart(st, socketId, b, Everyone(b.roomId))
  }

  /** exit-room: an error for an unbound socket; user-left skips the leaver, users-updated does not. */
  function ExitRoom(st: ServerState, socketId: string): (r: Step)
    ensures r.reply == Failed("User not found") <==> socketId !in st.userSockets
    ensures socketId !in st.userSockets ==> r.state == st && r.events == []
    ensures socketId in st.userSockets ==>
      var b := st.userSockets[socketId];
      && r.reply == Acked && Departed(st, r.state, socketId, b)
      && Farewell(st, b, OthersIn(b.roomId, socketId), r.events)
    ensures Invariant(st) ==> Invariant(r.state)
  {
    if socketId !in st.userSockets then Step(st, Failed("User not found"), [])
    else
      var b := st.userSockets[socketId];
      var e := Depart(st, socketId, b, OthersIn(b.roomId, socketId));
      Step(e.state, Acked, e.events)
  }
}
