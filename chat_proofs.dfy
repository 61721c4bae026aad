/**
 * Properties of the coordinator over whole runs of socket events: the
 * invariant and session consistency are kept by every handler, a join with
 * a fresh user id makes a room one user larger and an exit from a consistent
 * state one user smaller, a private room disappears with
 * its last user, and a room's history is always the newest MaxMessages
 * messages in the order they were sent.
 */
module ChatProofs {
  import opened Wrappers
  import opened JsMaps
  import opened ChatSpec

  /** One inbound socket event, carrying the ids, name and time its handler would generate. */
  datatype Request =
    | JoinPublic(socketId: string, userId: string, username: string)
    | CreatePrivate(socketId: string, roomId: Option<string>, password: Option<string>,
                    userId: string, username: string, now: int)
    | JoinPrivate(socketId: string, roomId: Option<string>, password: Option<string>,
                  userId: string, username: string)
    | Post(socketId: string, text: string, messageId: string, now: int)
    | Exit(socketId: string)
    | Hangup(socketId: string)

  /** The handler registered for the event's name on the connection. */
  function Handle(st: ServerState, req: Request): (r: Step)
    ensures Invariant(st) ==> Invariant(r.state)
    ensures r.reply.Failed? ==> r.state == st && r.events == []
  {
    match req
    case JoinPublic(s, u, n) => JoinPublicChat(st, s, u, n)
    case CreatePrivate(s, id, pw, u, n, now) => CreatePrivateRoom(st, s, id, pw, u, n, now)
    case JoinPrivate(s, id, pw, u, n) => JoinPrivateRoom(st, s, id, pw, u, n)
    case Post(s, text, mid, now) => SendMessage(st, s, text, mid, now)
    case Exit(s) => ExitRoom(st, s)
    case Hangup(s) =>
      var e := Disconnect(st, s);
      Step(e.state, NoCallback, e.events)
  }

  /** The tables after the events are handled one after another. */
  function Run(st: ServerState, reqs: seq<Request>): (r: ServerState)
    ensures Invariant(st) ==> Invariant(r)
    decreases |reqs|
  {
    if reqs == [] then st else Run(Handle(st, reqs[0]).state, reqs[1..])
  }

  // ---------------------------------------------------------------------------
  // The public room

  /** Start-up is idempotent: a second initialisation changes nothing. */
  lemma InitIsIdempotent(st: ServerState, now: int, later: int)
    ensures EnsurePublicRoom(EnsurePublicRoom(st, now), later) == EnsurePublicRoom(st, now)
  {
  }

  /** Whatever events arrive after start-up, the public room exists and is the one public room. */
  lemma PublicRoomAlwaysExists(now: int, reqs: seq<Request>)
    ensures var st := Run(InitialState(now), reqs);
      && PublicRoomId in st.rooms
      && st.rooms[PublicRoomId].kind == Public
      && forall id :: id in st.rooms && id != PublicRoomId ==> st.rooms[id].kind == Private
  {
    assert Invariant(InitialState(now));
  }

  // ---------------------------------------------------------------------------
  // Session consistency

  /**
   * The generated user id does not collide with a user already in the room
   * being joined (an id is a prefix, a '-' and seven random base-36
   * characters, so a collision is unlikely but not impossible).
   */
  predicate FreshFor(st: ServerState, req: Request) {
    match req
    case JoinPublic(_, u, _) =>
      PublicRoomId in st.rooms ==> u !in Keys(st.rooms[PublicRoomId].users)
    case JoinPrivate(_, id, _, u, _) =>
      id.Some? && id.value in st.rooms ==> u !in Keys(st.rooms[id.value].users)
    case _ => true
  }

  /** Every join in the run uses a fresh user id. */
  predicate FreshRun(st: ServerState, reqs: seq<Request>)
    decreases |reqs|
  {
    reqs == [] || (FreshFor(st, reqs[0]) && FreshRun(Handle(st, reqs[0]).state, reqs[1..]))
  }

  /** A join with a fresh user id keeps every binding pointing at its user. */
  lemma AdmitKeepsConsistent(st: ServerState, st': ServerState, roomId: string, before: RoomState,
                             socketId: string, userId: string, username: string)
    requires Consistent(st)
    requires Admits(st, st', roomId, before, socketId, userId, username)
    requires roomId in st.rooms ==> before == st.rooms[roomId]
    requires userId !in Keys(before.users)
    ensures Consistent(st')
  {
    forall s | s in st'.userSockets
      ensures BoundTo(st', s, st'.userSockets[s])
    {
      if s == socketId {
        assert st'.userSockets[s] == Binding(roomId, userId);
        assert Get(st'.rooms[roomId].users, userId) == Some(User(userId, username, socketId));
      } else {
        var b := st.userSockets[s];
        assert st'.userSockets[s] == b;
        assert BoundTo(st, s, b);
        if b.roomId == roomId {
          assert b.userId in Keys(before.users);
          assert Get(st'.rooms[roomId].users, b.userId) == Get(before.users, b.userId);
        } else {
          assert st'.rooms[b.roomId] == st.rooms[b.roomId];
        }
      }
    }
  }

  /** A departure keeps every other binding pointing at its user. */
  lemma DepartedKeepsConsistent(st: ServerState, st': ServerState, socketId: string)
    requires Consistent(st) && socketId in st.userSockets
    requires Departed(st, st', socketId, st.userSockets[socketId])
    ensures Consistent(st')
  {
    var b := st.userSockets[socketId];
    assert BoundTo(st, socketId, b);
    forall s | s in st'.userSockets
      ensures BoundTo(st', s, st'.userSockets[s])
    {
      var c := st.userSockets[s];
      assert st'.userSockets[s] == c;
      assert BoundTo(st, s, c);
      if c.roomId == b.roomId {
        SameRoomStaysBound(st, st', socketId, b, s, c);
      } else {
        OtherRoomStaysBound(st, st', socketId, b, s, c);
      }
    }
  }

  /** Another user of the room the leaver departs from is still there afterwards. */
  lemma SameRoomStaysBound(st: ServerState, st': ServerState, socketId: string, b: Binding, s: string, c: Binding)
    requires Departed(st, st', socketId, b)
    requires BoundTo(st, socketId, b) && BoundTo(st, s, c) && s != socketId && c.roomId == b.roomId
    ensures BoundTo(st', s, c)
  {
    assert c.userId != b.userId;
    var rest := Delete(st.rooms[b.roomId].users, b.userId);
    assert Get(rest, c.userId) == Get(st.rooms[b.roomId].users, c.userId);
    assert c.userId in Keys(rest);
    assert |rest| > 0;
    assert st'.rooms[b.roomId] == st.rooms[b.roomId].(users := rest);
  }

  /** A user of another room is untouched by the departure. */
  lemma OtherRoomStaysBound(st: ServerState, st': ServerState, socketId: string, b: Binding, s: string, c: Binding)
    requires Departed(st, st', socketId, b)
    requires BoundTo(st, s, c) && c.roomId != b.roomId
    ensures BoundTo(st', s, c)
  {
    assert c.roomId in st'.rooms;
    assert st'.rooms[c.roomId] == st.rooms[c.roomId];
  }

  /** A created room starts with its creator only, so its binding is consistent. */
  lemma CreateKeepsConsistent(st: ServerState, socketId: string, roomId: Option<string>, password: Option<string>,
                              userId: string, username: string, now: int)
    requires Consistent(st)
    ensures Consistent(CreatePrivateRoom(st, socketId, roomId, password, userId, username, now).state)
  {
    var r := CreatePrivateRoom(st, socketId, roomId, password, userId, username, now);
    if !r.reply.Failed? {
      AdmitKeepsConsistent(st, r.state, roomId.value, RoomState(roomId.value, Private, password, [], [], now),
                           socketId, userId, username);
    }
  }

  /** A message changes no room's users and no binding. */
  lemma SendKeepsConsistent(st: ServerState, socketId: string, text: string, messageId: string, now: int)
    requires Consistent(st)
    ensures Consistent(SendMessage(st, socketId, text, messageId, now).state)
  {
    var r := SendMessage(st, socketId, text, messageId, now);
    forall s | s in r.state.userSockets
      ensures BoundTo(r.state, s, r.state.userSockets[s])
    {
      assert BoundTo(st, s, st.userSockets[s]);
    }
  }

  /** Every handler keeps the bindings consistent, given a fresh user id on join. */
  lemma HandleKeepsConsistent(st: ServerState, req: Request)
    requires Invariant(st) && Consistent(st) && FreshFor(st, req)
    ensures Consistent(Handle(st, req).state)
  {
    var r := Handle(st, req);
    match req
    case JoinPublic(s, u, n) =>
      if PublicRoomId in st.rooms {
        AdmitKeepsConsistent(st, r.state, PublicRoomId, st.rooms[PublicRoomId], s, u, n);
      }
    case CreatePrivate(s, id, pw, u, n, now) =>
      CreateKeepsConsistent(st, s, id, pw, u, n, now);
    case JoinPrivate(s, id, pw, u, n) =>
      if !r.reply.Failed? {
        AdmitKeepsConsistent(st, r.state, id.value, st.rooms[id.value], s, u, n);
      }
    case Post(s, text, mid, now) =>
      SendKeepsConsistent(st, s, text, mid, now);
    case Exit(s) =>
      if s in st.userSockets {
        DepartedKeepsConsistent(st, r.state, s);
      }
    case Hangup(s) =>
      if s in st.userSockets {
        DepartedKeepsConsistent(st, r.state, s);
      }
  }

  /** A run whose joins use fresh ids keeps the bindings consistent. */
  lemma {:induction false} RunKeepsConsistent(st: ServerState, reqs: seq<Request>)
    requires Invariant(st) && Consistent(st) && FreshRun(st, reqs)
    ensures Consistent(Run(st, reqs))
    decreases |reqs|
  {
    if reqs != [] {
      HandleKeepsConsistent(st, reqs[0]);
      RunKeepsConsistent(Handle(st, reqs[0]).state, reqs[1..]);
    }
  }

  /** In a consistent state a bound socket's message is always accepted. */
  lemma BoundSenderIsAcked(st: ServerState, socketId: string, text: string, messageId: string, now: int)
    requires Consistent(st) && socketId in st.userSockets
    ensures SendMessage(st, socketId, text, messageId, now).reply == Acked
  {
    assert BoundTo(st, socketId, st.userSockets[socketId]);
  }

  // ---------------------------------------------------------------------------
  // Membership

  /** A join with a fresh user id makes the public room exactly one user larger. */
  lemma JoinPublicAddsOneUser(st: ServerState, socketId: string, userId: string, username: string)
    requires Invariant(st) && userId !in Keys(st.rooms[PublicRoomId].users)
    ensures var r := JoinPublicChat(st, socketId, userId, username);
      |r.state.rooms[PublicRoomId].users| == |st.rooms[PublicRoomId].users| + 1
  {
  }

  /** Leaving a room that keeps other users (or is public) makes it exactly one user smaller. */
  lemma ExitRemovesOneUser(st: ServerState, socketId: string)
    requires Invariant(st) && Consistent(st) && socketId in st.userSockets
    requires var b := st.userSockets[socketId];
      b.roomId == PublicRoomId || (b.roomId in st.rooms && |st.rooms[b.roomId].users| > 1)
    ensures var b := st.userSockets[socketId];
      var st' := ExitRoom(st, socketId).state;
      && b.roomId in st'.rooms
      && |st'.rooms[b.roomId].users| == |st.rooms[b.roomId].users| - 1
      && b.userId !in Keys(st'.rooms[b.roomId].users)
  {
    var b := st.userSockets[socketId];
    assert BoundTo(st, socketId, b);
  }

  /** The last user to leave a private room destroys it; afterwards it cannot be joined, and its id can be reused. */
  lemma LastLeaverDestroysRoom(st: ServerState, socketId: string, other: string,
                               password: Option<string>, userId: string, username: string, now: int)
    requires Invariant(st) && Consistent(st) && socketId in st.userSockets
    requires var b := st.userSockets[socketId];
      b.roomId != PublicRoomId && b.roomId in st.rooms && |st.rooms[b.roomId].users| == 1
    requires Present(password)
    ensures var roomId := st.userSockets[socketId].roomId;
      var st' := ExitRoom(st, socketId).state;
      && roomId !in st'.rooms
      && JoinPrivateRoom(st', other, Some(roomId), password, userId, username).reply == Failed("Room not found")
      && CreatePrivateRoom(st', other, Some(roomId), password, userId, username, now).reply.Joined?
  {
    var b := st.userSockets[socketId];
    assert BoundTo(st, socketId, b);
    assert RoomOk(b.roomId, st.rooms[b.roomId]);
  }

  /** Creating the same room id twice: the second request is refused and changes nothing. */
  lemma SecondCreateFails(st: ServerState, s1: string, s2: string, roomId: Option<string>,
                          p1: Option<string>, p2: Option<string>,
                          u1: string, n1: string, u2: string, n2: string, t1: int, t2: int)
    requires Present(roomId) && Present(p1) && Present(p2)
    ensures var st1 := CreatePrivateRoom(st, s1, roomId, p1, u1, n1, t1).state;
      var r := CreatePrivateRoom(st1, s2, roomId, p2, u2, n2, t2);
      r.reply == Failed("Room ID already exists") && r.state == st1
  {
  }

  /**
   * A wrong password is refused and changes nothing; the right one then admits
   * the user into the private room, which grows by exactly one user.
   */
  lemma WrongThenRight(st: ServerState, socketId: string, roomId: string, wrong: string, right: string,
                       userId: string, username: string)
    requires roomId in st.rooms && st.rooms[roomId].kind == Private && st.rooms[roomId].password == Some(right)
    requires roomId != "" && wrong != "" && right != "" && wrong != right
    requires userId !in Keys(st.rooms[roomId].users)
    ensures var r1 := JoinPrivateRoom(st, socketId, Some(roomId), Some(wrong), userId, username);
      && r1 == Step(st, Failed("Incorrect password"), [])
      && var r2 := JoinPrivateRoom(r1.state, socketId, Some(roomId), Some(right), userId, username);
         && r2.reply.Joined? && r2.reply.roomId == roomId
         && |r2.state.rooms[roomId].users| == |st.rooms[roomId].users| + 1
         && r2.state.userSockets[socketId] == Binding(roomId, userId)
  {
    var r1 := JoinPrivateRoom(st, socketId, Some(roomId), Some(wrong), userId, username);
    assert r1.state == st;
    var r2 := JoinPrivateRoom(st, socketId, Some(roomId), Some(right), userId, username);
    assert r2.reply.Joined?;
    assert Admits(st, r2.state, roomId, st.rooms[roomId], socketId, userId, username);
  }

  /**
   * The handlers do not refuse a socket that is already bound: joining again
   * rebinds it, and the user it joined as first stays in the room, still
   * carrying the socket id, after the socket disconnects.
   */
  lemma RejoinLeavesStaleUser(st: ServerState, socketId: string, u1: string, n1: string, u2: string, n2: string)
    requires Invariant(st) && u1 != u2
    ensures var st1 := JoinPublicChat(st, socketId, u1, n1).state;
      var st2 := JoinPublicChat(st1, socketId, u2, n2).state;
      var st3 := Disconnect(st2, socketId).state;
      && st2.userSockets[socketId] == Binding(PublicRoomId, u2)
      && Get(st2.rooms[PublicRoomId].users, u1) == Some(User(u1, n1, socketId))
      && socketId !in st3.userSockets
      && Get(st3.rooms[PublicRoomId].users, u1) == Some(User(u1, n1, socketId))
  {
  }

  // ---------------------------------------------------------------------------
  // History

  /** The newest MaxMessages messages of s, in order. */
  function Newest(s: seq<Message>): (h: seq<Message>)
    ensures |h| == if |s| <= MaxMessages then |s| else MaxMessages
    ensures h == s[|s| - |h|..]
  {
    if |s| <= MaxMessages then s else s[|s| - MaxMessages..]
  }

  /** The history after each of ms is appended in turn. */
  function Deliver(history: seq<Message>, ms: seq<Message>): seq<Message>
    decreases |ms|
  {
    if ms == [] then history else Deliver(Retain(history, ms[0]), ms[1..])
  }

  /** Dropping a prefix that Newest would drop anyway does not change it. */
  lemma NewestOfSuffix(s: seq<Message>, k: nat)
    requires k <= |s| && |s| - k >= |Newest(s)|
    ensures Newest(s[k..]) == Newest(s)
  {
    if |s| > MaxMessages {
      assert s[k..][|s| - k - MaxMessages..] == s[|s| - MaxMessages..];
    }
  }

  /** Slicing a prefix off the left operand of a concatenation. */
  lemma SliceAppend(a: seq<Message>, b: seq<Message>, k: nat)
    requires k <= |a|
    ensures a[k..] + b == (a + b)[k..]
  {
  }

  /**
   * However many messages arrive, the history is the newest MaxMessages of
   * everything sent: the oldest are dropped first and none is reordered.
   */
  lemma {:induction false} DeliverKeepsNewest(history: seq<Message>, ms: seq<Message>)
    requires |history| <= MaxMessages
    ensures Deliver(history, ms) == Newest(history + ms)
    decreases |ms|
  {
    if ms == [] {
      assert history + ms == history;
    } else {
      var h := Retain(history, ms[0]);
      assert Deliver(history, ms) == Deliver(h, ms[1..]);
      DeliverKeepsNewest(h, ms[1..]);
      RetainThenNewest(history, ms[0], ms[1..]);
      assert [ms[0]] + ms[1..] == ms;
      assert Newest(history + ([ms[0]] + ms[1..])) == Newest(history + ms);
    }
  }

  /** Sending 150 messages to an empty room leaves exactly the last 100, in send order. */
  lemma HundredFiftyLeaveLastHundred(ms: seq<Message>)
    requires |ms| == 150
    ensures Deliver([], ms) == ms[50..]
  {
    var empty: seq<Message> := [];
    DeliverKeepsNewest(empty, ms);
    assert empty + ms == ms;
    assert Newest(ms) == ms[|ms| - MaxMessages..];
  }

  /**
   * The messages a run of send-message requests creates, in order: each
   * carries the user name that the users table gives its own sender's binding.
   */
  function Sent(users: JsMap<string, User>, sockets: map<string, Binding>, posts: seq<Request>): (ms: seq<Message>)
    requires forall i :: 0 <= i < |posts| ==>
      posts[i].Post? && posts[i].socketId in sockets && sockets[posts[i].socketId].userId in Keys(users)
    ensures |ms| == |posts|
    ensures forall i :: 0 <= i < |ms| ==>
      ms[i] == Message(posts[i].messageId, Get(users, sockets[posts[i].socketId].userId).value.username,
                       posts[i].text, posts[i].now)
  {
    if posts == [] then []
    else
      var name := Get(users, sockets[posts[0].socketId].userId).value.username;
      [Message(posts[0].messageId, name, posts[0].text, posts[0].now)] + Sent(users, sockets, posts[1..])
  }

  /** One message from a socket bound to a user of room roomId goes through Retain into that room and changes nothing else. */
  lemma PostFromBoundSocket(st: ServerState, roomId: string, p: Request)
    requires p.Post? && p.socketId in st.userSockets && st.userSockets[p.socketId].roomId == roomId
    requires roomId in st.rooms && st.userSockets[p.socketId].userId in Keys(st.rooms[roomId].users)
    ensures var room := st.rooms[roomId];
      var m := Message(p.messageId, Get(room.users, st.userSockets[p.socketId].userId).value.username, p.text, p.now);
      Handle(st, p).state == ServerState(st.rooms[roomId := room.(messages := Retain(room.messages, m))], st.userSockets)
  {
  }

  /**
   * A run of messages from sockets bound to users of one room, taking turns
   * in any order, leaves the bindings, the room's users and every other room
   * unchanged, and makes the room's history the newest MaxMessages of the old
   * history followed by the new messages in the order they were handled,
   * each under its own sender's name.
   */
  lemma {:induction false} PostsKeepNewest(st: ServerState, roomId: string, posts: seq<Request>)
    requires roomId in st.rooms && |st.rooms[roomId].messages| <= MaxMessages
    requires forall i :: 0 <= i < |posts| ==>
      && posts[i].Post? && posts[i].socketId in st.userSockets
      && st.userSockets[posts[i].socketId].roomId == roomId
      && st.userSockets[posts[i].socketId].userId in Keys(st.rooms[roomId].users)
    ensures var room := st.rooms[roomId];
      var st' := Run(st, posts);
      && st'.userSockets == st.userSockets
      && st'.rooms.Keys == st.rooms.Keys
      && st'.rooms[roomId] == room.(messages := Newest(room.messages + Sent(room.users, st.userSockets, posts)))
      && forall id :: id in st.rooms && id != roomId ==> st'.rooms[id] == st.rooms[id]
    decreases |posts|
  {
    var room := st.rooms[roomId];
    if posts == [] {
      assert room.messages + [] == room.messages;
    } else {
      var st1 := Handle(st, posts[0]).state;
      PostsTail(st, roomId, posts);
      assert Run(st, posts) == Run(st1, posts[1..]);
      PostsKeepNewest(st1, roomId, posts[1..]);
      var p := posts[0];
      var m := Message(p.messageId, Get(room.users, st.userSockets[p.socketId].userId).value.username, p.text, p.now);
      var rest := Sent(room.users, st.userSockets, posts[1..]);
      assert Sent(room.users, st.userSockets, posts) == [m] + rest;
      RetainThenNewest(room.messages, m, rest);
    }
  }

  /** After the first post of such a run, the remaining posts still come from users of the room. */
  lemma PostsTail(st: ServerState, roomId: string, posts: seq<Request>)
    requires roomId in st.rooms && |st.rooms[roomId].messages| <= MaxMessages && |posts| > 0
    requires forall i :: 0 <= i < |posts| ==>
      && posts[i].Post? && posts[i].socketId in st.userSockets
      && st.userSockets[posts[i].socketId].roomId == roomId
      && st.userSockets[posts[i].socketId].userId in Keys(st.rooms[roomId].users)
    ensures var room := st.rooms[roomId];
      var p := posts[0];
      var m := Message(p.messageId, Get(room.users, st.userSockets[p.socketId].userId).value.username, p.text, p.now);
      var st1 := Handle(st, p).state;
      && st1 == ServerState(st.rooms[roomId := room.(messages := Retain(room.messages, m))], st.userSockets)
      && |st1.rooms[roomId].messages| <= MaxMessages
      && forall i :: 0 <= i < |posts| - 1 ==>
           && posts[1..][i].Post? && posts[1..][i].socketId in st1.userSockets
           && st1.userSockets[posts[1..][i].socketId].roomId == roomId
           && st1.userSockets[posts[1..][i].socketId].userId in Keys(st1.rooms[roomId].users)
  {
    PostFromBoundSocket(st, roomId, posts[0]);
    var st1 := Handle(st, posts[0]).state;
    forall i | 0 <= i < |posts| - 1
      ensures && posts[1..][i].Post? && posts[1..][i].socketId in st1.userSockets
              && st1.userSockets[posts[1..][i].socketId].roomId == roomId
              && st1.userSockets[posts[1..][i].socketId].userId in Keys(st1.rooms[roomId].users)
    {
      assert posts[1..][i] == posts[i + 1];
    }
  }

  /** Appending through Retain and then keeping the newest is keeping the newest of the whole. */
  lemma RetainThenNewest(history: seq<Message>, m: Message, rest: seq<Message>)
    requires |history| <= MaxMessages
    ensures Newest(Retain(history, m) + rest) == Newest(history + ([m] + rest))
  {
    var h := Retain(history, m);
    var k := |history| + 1 - |h|;
    SliceAppend(history + [m], rest, k);
    assert history + [m] + rest == history + ([m] + rest);
    NewestOfSuffix(history + ([m] + rest), k);
  }
}
