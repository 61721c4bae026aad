# Chat room coordinator and room form, in Dafny

This project models two parts of a real-time chat app.

The first is the room and session coordinator in `server/index.ts`. It keeps two in-memory tables:
- `rooms` maps a room id to a room. A room has a kind, an optional password, a history of at most
  100 messages, and a JavaScript `Map` of its users.
- `userSockets` maps a socket id to the room and user that socket joined as.

Six socket.io handlers change these tables: join-public-chat, create-private-room, join-private-room,
send-message, disconnect and exit-room. There is also a start-up step that creates the room
`"public"` when it is absent.

The second part is the validator of the create-room form in
`client/components/CreatePrivateRoomForm.tsx`. The room id field upper-cases what is typed. The submit
handler, `handleSubmit`, runs five checks in a fixed order, and the first that fails decides the error
the form shows.

The modules are:
- `Wrappers` (`wrappers.dfy`): `Option`, used for a request field that may be missing and for a map
  lookup that may fail.
- `JsMaps` (`js_map.dfy`): the JavaScript `Map` that holds a room's users, as a list of entries in
  insertion order. `set` replaces an entry in place or appends one, `delete` removes one, and
  `values()` keeps insertion order.
- `ChatSpec` (`chat_spec.dfy`): the tables as a value (`ServerState`). Each handler is a function from
  the old tables to a `Step`: the new tables, the callback reply and the broadcast events. The result
  contracts state:
  - each error condition as an if-and-only-if;
  - that an error changes nothing;
  - what a success adds or removes;
  - that the invariant is kept. The invariant: `"public"` exists, only it is public, no history is
    longer than 100, and no private room is empty.
- `ChatServer` (`chat_server.dfy`): the running server. Class `Server` has the two tables and the
  broadcast log as fields, with one method per handler. Each method's body follows the TypeScript
  handler step by step. Its contract says that the new tables, the reply and the appended events are
  exactly what the `ChatSpec` function gives, and that the invariant holds.
- `ChatProofs` (`chat_proofs.dfy`): properties over whole runs of requests:
  - the public room always exists;
  - every binding keeps pointing at a user that carries its socket id;
  - a join with a fresh user id adds exactly one user, and an exit from a consistent state, from a
    room that keeps other users or is "public", removes exactly one;
  - the last leaver destroys a private room, whose id can then be reused;
  - a second create with the same id fails;
  - any run of messages sent to one room, by any of its users taking turns, leaves the newest 100 in
    the order they were handled, each under its own sender's name.
- `RoomForm` (`room_form.dfy`): JavaScript `trim`, the room id pattern, UTF-16 `length`, upper-casing
  of the room id field, and the check chain of `handleSubmit`.

Some behaviour of the code is easy to miss, and the model keeps it as written:
- A socket that is already bound may join again. The handlers overwrite its binding
  (server/index.ts:101, :151 and :202) and leave the first user in the room.
  `ChatProofs.RejoinLeavesStaleUser` proves that this user survives even the socket's disconnect.
- exit-room from a socket with no binding answers "User not found" (server/index.ts:311-314).
  disconnect from such a socket does nothing.
- user-left is sent only while the room still has users (server/index.ts:288 and :322). When the
  last user leaves the public room, nothing is broadcast.
- join-public-chat has an error path, "Room not found" (server/index.ts:91-94).
  `ChatProofs.PublicRoomAlwaysExists` shows that it cannot be taken after start-up.
- Error strings are the code's own, such as "Incorrect password" and "Room ID already exists".

Random ids, random user names and `Date.now()` are parameters. The consistency lemmas assume a fresh
user id (`ChatProofs.FreshFor`). The handlers themselves do not require one.

## Model

| member | source | states |
|---|---|---|
| JsMaps.Keys | server/index.ts:27 | the keys are exactly the keys of the entries: each entry's key is one, and each key is that of some entry |
| JsMaps.Values | server/index.ts:111 | `Array.from(map.values())` has one value per entry, in insertion order |
| JsMaps.Find | server/index.ts:249 | the position of the first entry with the key: every earlier entry has another key, and the position is inside the map exactly when the key is present |
| JsMaps.Get | server/index.ts:249 | a lookup succeeds exactly when the key is present, and returns the value of the entry Find locates for that key |
| JsMaps.Size | server/index.ts:288 | with distinct keys, `size` is the number of keys |
| JsMaps.Set | server/index.ts:100 | a present key keeps its position and takes the new value; a new key is appended at the end; afterwards the key maps to the new value, every other key is unchanged, and keys stay distinct |
| JsMaps.Delete | server/index.ts:285 | afterwards the key is absent and every other key is unchanged; an absent key changes nothing; with distinct keys exactly the entry of the key is cut out and the others keep their order |
| JsMaps.DistinctKeyCount | server/index.ts:27 | a map with distinct keys has as many keys as entries |
| ChatSpec.Present | server/index.ts:133 | definition: the JavaScript truthiness of an optional string field, so a field is present when it is given and not ""; the guard at :133 and :176 fails exactly when the room id or the password is not Present |
| ChatSpec.EnsurePublicRoom | server/index.ts:79-81 | the public room exists afterwards; a present public room is left as is; an absent one is created empty; the invariant then holds |
| ChatSpec.InitialState | server/index.ts:32-33 | at start-up the only room is an empty public room, there are no bindings, and the state is valid and consistent |
| ChatSpec.Admit | server/index.ts:197-213 | the joiner is added to the room and bound to the socket, nothing else changes, and the reply lists the room's users, including the joiner, and its current history; a new user id is appended at the end, and a generated id that collides with a user already there replaces that entry where it stands, as `Map.set` does |
| ChatSpec.Announce | server/index.ts:115-121 | definition: user-joined with the joiner's name and the new user count to every socket in the room but the joiner, then users-updated with all users to everyone in the room; the same pair is sent at :215-221 |
| ChatSpec.JoinPublicChat | server/index.ts:88-126 | with no public room the call fails and changes nothing; otherwise the joiner is added to the public room and bound, the reply carries the room id, the joiner's own user id and name, the users and the history, user-joined goes to the others and users-updated to all; the invariant is kept |
| ChatSpec.CreatePrivateRoom | server/index.ts:129-169 | a missing or empty id or password gives "Room ID and password are required"; an id already used, including "public", gives "Room ID already exists"; both errors exactly under those conditions and with nothing changed; a success adds one private room holding only the creator and binds the socket, with no broadcast |
| ChatSpec.JoinPrivateRoom | server/index.ts:172-228 | the four errors ("Room ID and password are required", "Room not found", "This is not a private room", "Incorrect password") each hold exactly under their condition, checked in order, and change nothing; when every check passes the join succeeds: the joiner is added to the room, or replaces the entry of a colliding user id where it stands, and the socket's binding is set (overwritten if the socket was already bound); the reply carries the room id, the joiner's user id and name, the users (joiner included) and the history, and the join is announced |
| ChatSpec.Retain | server/index.ts:262-267 | push then at most one shift: the history grows by one, or stays at 100 by losing exactly its oldest message; the result ends with the new message and is a suffix of old history + message |
| ChatSpec.SendMessage | server/index.ts:231-276 | "User not found in room", "Room not found" and "User not in this room" each hold exactly under their condition and change nothing; when the socket is bound to a user present in an existing room the reply is an ack, the message carries the sender's user name, text and time, it is appended through Retain to the bound room only, and it is broadcast to everyone in that room |
| ChatSpec.Depart | server/index.ts:282-302 | the binding is dropped and the user removed from the room; the room is destroyed exactly when it is left empty and is not "public"; while users remain, user-left with the leaver's name and the new count goes to the given audience and users-updated to the room; otherwise nothing is broadcast |
| ChatSpec.DepartedKeepsInvariant | server/index.ts:294-300 | removing a user, and destroying the emptied private room, keeps the invariant |
| ChatSpec.Disconnect | server/index.ts:279-305 | an unbound socket changes nothing and emits nothing; a bound one departs, and while users remain user-left goes to everyone in the room, then users-updated |
| ChatSpec.ExitRoom | server/index.ts:308-344 | the reply is "User not found" exactly when the socket is unbound, and then nothing changes; otherwise the reply is an ack and the socket departs; while users remain user-left goes to the room except the leaver, then users-updated to everyone |
| ChatServer.Server.constructor | server/index.ts:32-33 | both tables start empty and nothing has been emitted |
| ChatServer.Server.InitPublicRoom | server/index.ts:79-81 | the tables become EnsurePublicRoom of the old tables and the invariant holds |
| ChatServer.Server.JoinPublicChat | server/index.ts:88-126 | the new tables, reply and emitted events are those of ChatSpec.JoinPublicChat; the invariant is kept |
| ChatServer.Server.CreatePrivateRoom | server/index.ts:129-169 | the new tables, reply and events are those of ChatSpec.CreatePrivateRoom; the invariant is kept |
| ChatServer.Server.JoinPrivateRoom | server/index.ts:172-228 | the new tables, reply and events are those of ChatSpec.JoinPrivateRoom; the invariant is kept |
| ChatServer.Server.SendMessage | server/index.ts:231-276 | the push-then-shift update of the history gives the tables, reply and event of ChatSpec.SendMessage; the invariant is kept |
| ChatServer.Server.Depart | server/index.ts:282-302 | the new tables and events are those of ChatSpec.Depart; the invariant is kept |
| ChatServer.Server.Disconnect | server/index.ts:279-305 | the new tables and events are those of ChatSpec.Disconnect; the invariant is kept |
| ChatServer.Server.ExitRoom | server/index.ts:308-344 | the new tables, reply and events are those of ChatSpec.ExitRoom; the invariant is kept |
| ChatProofs.Handle | server/index.ts:84-345 | each event goes to its handler; every handler keeps the invariant, and every failed request changes nothing and emits nothing |
| ChatProofs.Run | server/index.ts:84-345 | any sequence of events keeps the invariant |
| ChatProofs.InitIsIdempotent | server/index.ts:79-81 | running the start-up step twice is the same as once |
| ChatProofs.PublicRoomAlwaysExists | server/index.ts:294-300 | after start-up and any events, "public" exists, is public, and every other room is private |
| ChatProofs.AdmitKeepsConsistent | server/index.ts:99-101 | a join with a fresh user id keeps every binding pointing at a user that carries its socket id |
| ChatProofs.DepartedKeepsConsistent | server/index.ts:280-302 | a departure keeps every other binding pointing at its user |
| ChatProofs.CreateKeepsConsistent | server/index.ts:143-151 | creating a room keeps the bindings consistent |
| ChatProofs.SendKeepsConsistent | server/index.ts:255-267 | sending a message keeps the bindings consistent |
| ChatProofs.HandleKeepsConsistent | server/index.ts:84-345 | every handler keeps the bindings consistent, given a fresh user id for joins |
| ChatProofs.RunKeepsConsistent | server/index.ts:84-345 | every run whose joins use fresh ids keeps the bindings consistent |
| ChatProofs.BoundSenderIsAcked | server/index.ts:234-253 | in a consistent state, a message from a bound socket is always accepted: the two "cannot happen" errors are unreachable |
| ChatProofs.JoinPublicAddsOneUser | server/index.ts:99-100 | a join with a fresh id makes the public room exactly one user larger |
| ChatProofs.ExitRemovesOneUser | server/index.ts:316-327 | an exit from a room that keeps other users, or from "public", leaves the room with exactly one user fewer and without the leaver |
| ChatProofs.LastLeaverDestroysRoom | server/index.ts:328-333 | when the last user exits a private room, the room is gone; joining it then gives "Room not found", and creating it again succeeds |
| ChatProofs.SecondCreateFails | server/index.ts:138-141 | a create right after a create with the same id fails with "Room ID already exists" and changes nothing |
| ChatProofs.WrongThenRight | server/index.ts:191-213 | a join with the wrong password is refused with "Incorrect password" and changes nothing; the same join with the right password then succeeds, binds the socket and makes the room one user larger |
| ChatProofs.RejoinLeavesStaleUser | server/index.ts:96-101 | joining twice on one socket rebinds it to the second user; the first user stays in the room with that socket id, even after the socket disconnects |
| ChatProofs.Newest | server/index.ts:264-267 | the newest 100 messages of a list, as a suffix of it |
| ChatProofs.NewestOfSuffix | server/index.ts:264-267 | dropping a prefix that is older than the newest 100 does not change them |
| ChatProofs.DeliverKeepsNewest | server/index.ts:262-267 | after any sequence of appends through Retain, the history is the newest 100 of old history + new messages: the oldest go first and none is reordered |
| ChatProofs.HundredFiftyLeaveLastHundred | server/index.ts:262-267 | 150 messages sent to an empty history leave exactly the last 100, in send order |
| ChatProofs.Sent | server/index.ts:255-260 | one message per send request, in order, each with the request's id, text and time under the user name of that request's own sender |
| ChatProofs.PostFromBoundSocket | server/index.ts:255-267 | one message from a socket bound to a user of a room changes only the history of that room, through Retain |
| ChatProofs.PostsKeepNewest | server/index.ts:231-276 | a run of messages from sockets bound to users of one room, in any interleaving of senders, leaves the bindings, the users and the other rooms unchanged, and leaves the room holding the newest 100 of old history + sent messages, each under its sender's name |
| RoomForm.TrimStart | client/components/CreatePrivateRoomForm.tsx:23 | the result is a suffix of the input; everything dropped is whitespace; the result does not start with whitespace |
| RoomForm.TrimEnd | client/components/CreatePrivateRoomForm.tsx:40 | the result is a prefix of the input; everything dropped is whitespace; the result does not end with whitespace |
| RoomForm.Trim | client/components/CreatePrivateRoomForm.tsx:23 | definition: `s.trim()`, TrimStart followed by TrimEnd, so leading and trailing whitespace are both dropped |
| RoomForm.Blank | client/components/CreatePrivateRoomForm.tsx:40 | definition: `!s.trim()`, the trimmed string is empty; used for the room id at :23 and the password at :40 |
| RoomForm.BlankIffAllWhitespace | client/components/CreatePrivateRoomForm.tsx:23 | `!s.trim()` holds exactly when every character of s is JavaScript whitespace |
| RoomForm.MatchesRoomIdPattern | client/components/CreatePrivateRoomForm.tsx:28 | definition: `/^[A-Za-z0-9-_]+$/.test(s)`, one or more characters, each A-Z, a-z, 0-9, '-' or '_' (the `-` after the `0-9` range is a literal hyphen) |
| RoomForm.Utf16Length | client/components/CreatePrivateRoomForm.tsx:45 | `length` is the number of characters plus the number of positions holding a character outside the Basic Multilingual Plane |
| RoomForm.UpperChar | client/components/CreatePrivateRoomForm.tsx:91 | a-z become the matching letter A-Z; other ASCII characters are kept; every result has 1 to 3 characters and no lower-case ASCII letter |
| RoomForm.RoomIdInput | client/components/CreatePrivateRoomForm.tsx:91 | the stored room id contains no lower-case ASCII letter; for ASCII input it has the same length and each a-z is replaced by its A-Z letter, every other character kept |
| RoomForm.RoomIdInputAppend | client/components/CreatePrivateRoomForm.tsx:91 | upper-casing works character by character: the value for a + b is the value for a followed by the value for b |
| RoomForm.ValidateRoomForm | client/components/CreatePrivateRoomForm.tsx:19-52 | each of the five messages is returned exactly when its check is the first to fail, in the order id required, id alphabet, id length ≤ 32, password required, password length ≥ 4; the form is accepted exactly when the id matches the pattern and has at most 32 characters and the password is not blank and has at least 4 code units |
| RoomForm.PatternFacts | client/components/CreatePrivateRoomForm.tsx:28-38 | an id that matches the pattern is not blank, and its UTF-16 length is its number of characters |
| RoomForm.AcceptedIdIsUpperCase | client/components/CreatePrivateRoomForm.tsx:91 | an id typed into the field that passes the pattern check, as every accepted id does, consists of A-Z, 0-9, '-' and '_' only, so it is never "public" |
| RoomForm.AcceptedFormReachesServer | client/components/CreatePrivateRoomForm.tsx:50-52 | an accepted form passes the server's required-fields guard; create-private-room then either creates the room or reports that the id is taken |

## Left out

- Rooms: in `ChatServer.Server` a room is a value stored in the `rooms` map. The in-place updates `room.users.set/delete` and `room.messages.push/shift` store the updated room under its id. Nothing else holds a room, so no aliasing is lost. A version with one heap object per room needs frame reasoning that costs too much to verify.
- The socket.io transport: `socket.join`, `socket.leave`, and delivery to sockets. Broadcasts are events in a log, addressed to everyone in a room or to all but the sender.
- Id, name and time generation: `generateRandomId`, `generateUsername` and `Date.now()` are parameters. Their uniqueness is the lemma premise `FreshFor`.
- The `try/catch` fallbacks ("Failed to join chat" and the like) are left out. They only guard runtime exceptions, and the modelled operations raise none.
- Console logging is left out.
- Request payloads: `roomId` and `password` are modelled as either missing or a string. Non-string values (numbers, objects) are not modelled.
- Message text: `text` is a string. A missing text is not modelled.
- The Express app, CORS, the middleware and the `/api/ping` and `/api/demo` routes.
- The client's React state (`setError`, `setIsLoading`), the navigation and the response handling after `createPrivateRoom` (CreatePrivateRoomForm.tsx:50-68).
- The room id input's `maxLength={32}` attribute (CreatePrivateRoomForm.tsx:93). The validator's own length check is modelled.
- RoomForm.ValidateRoomForm: models `handleSubmit` alone, as if it ran on every submitted form. It leaves out the password input's `minLength={4}` and `maxLength={32}` attributes (CreatePrivateRoomForm.tsx:116-117), which the browser checks before `handleSubmit` runs. A typed password of 1 to 3 code units therefore blocks the submit, and none of the five messages is shown, not even "Room ID is required" for an empty id.
- The client's socket wrapper, the pages, the chat window, the join-room form and the build configuration.
- RoomForm.UpperChar: for lower-case ASCII letters and for the characters whose upper case is pure ASCII (ß, ı, ſ and the ligatures U+FB00–U+FB06), it follows `toUpperCase`. It keeps every other non-ASCII character unchanged instead of upper-casing it. Such a character fails the room id pattern either way, so the verdict is the same.
- RoomForm.RoomIdInput: its contract gives the character-by-character upper case only for ASCII input. For other input it is UpperChar applied to each character (RoomIdInputAppend), with the same gap as UpperChar.
- Concurrency: each handler runs to completion on the event loop, so the model handles one event at a time.
