# Chat relay server — a Dafny model

This project models the core of `server.js`, a WebSocket chat relay. Clients
connect, join named rooms, and exchange text, media and typing notices with
the other members of their room. The model covers the following:

- **The room registry** `rooms`. It maps a room name to a record of its
  members, a bounded message history, and a hand-maintained `userCount`. It
  is seeded with the default rooms `general`, `random` and `help`
  (`Rooms.Room`, `Rooms.Seeded`).
- **Per-connection sessions.** Each session holds the `username` and
  `currentRoom` closure variables (`Rooms.Session`).
- **The `message` listener's dispatcher** and its five handlers: `join`, `message`,
  media (`image`/`video`/`audio`), `create_room` and `typing`. A frame of
  any other type does nothing.
- **`leaveRoom` and the `close` listener.**
- **The broadcast helpers:** `broadcastToRoom`, `sendUserList`, `sendRoomList`,
  `broadcastRoomList` and `broadcast`.

The server is the class `ChatServer.Server`, whose fields the handlers
update in place:

- `rooms` is the registry.
- `sessions` holds the closure state of each live connection.
- `clients` is `wss.clients`, in accept order.
- `open` is the set of connections whose `readyState` is OPEN.
- `outbox` records every `send`, in the order the server issues it.

Each handler is a method whose postcondition gives the new registry,
session table and outbox as functions of the old state. Those functions
live in the `Rooms` and `ChatServer` modules, and lemmas state what they
mean:

- `Joined`, `Left` and `Vacated` give the registry after a join or a leave.
- `Recorded` gives it after a message is stored, and `Created` after `create_room`.
- `EnterOutput`, `LeaveOutput` and `Relayed` give what the server sends.

The `forEach` broadcast loops are methods with loops, proved against the
function `Protocol.Fanout`. Each listener method (`OnJoin`, `OnChat`,
`OnUpload`, `OnCreateRoom`, `HandleFrame`, `Connect`, `Close`) keeps the
class invariant `Valid`. `Valid` holds these facts:

- every live connection is listed once in `wss.clients`;
- the default rooms exist;
- each room's counter equals its number of members and its history holds at most 100 entries;
- a connection is a member of a room exactly when its session's current room is that room;
- every name in a user list belongs to a member.

Under `Valid`, `Rooms.UserCountIsSessionCount` proves that a room's stored
`userCount` is the number of sessions currently in it.

Three representation choices:

- **Room membership.** A room's single JavaScript `Set` mixes sockets and user
  names, which the source tells apart by type. It is modelled as two
  duplicate-free sequences in insertion order, `conns` and `names`. Sequences
  are used, not sets, because a `Set` iterates in insertion order. That makes
  each broadcast's order of sends determined, and the model states it exactly
  (`OrderedSets`).
- **Text trimming.** `String.prototype.trim` strips the ECMAScript
  WhiteSpace and LineTerminator characters (`Text.IsSpace`).
- **The name list.** It behaves as the source has it. `leaveRoom` deletes the
  leaver's name from the list even when another member of the room uses the
  same name. `Rooms.NameListCanDropPresentMember` exhibits this: two
  connections join as "bob" and one leaves. The room then has one member
  and no "bob" in its user list.

## Model

| member | source | states |
|---|---|---|
| History.Append | server.js:136-139 | push then shift: the new message is last; a history within MAX_HISTORY (100) stays within it and becomes the last 100 entries of the old history followed by the message, in arrival order |
| History.AppendAllKeepsLatest | server.js:164-167 | after any run of appends the history is exactly the last 100 messages received, in arrival order |
| OrderedSets.Add | server.js:101-102 | `Set.add`: the element is present afterwards; an element already present leaves the set unchanged; a new one goes last |
| OrderedSets.AddContents | server.js:102 | `Set.add` keeps every old element in its place, adds only `x`, and adds no duplicate |
| OrderedSets.Delete | server.js:212-213 | `Set.delete`: the element is absent afterwards; deleting an absent element changes nothing |
| OrderedSets.DeleteContents | server.js:213 | `Set.delete` keeps every other element and no duplicate, and the size drops by one exactly when the element was present |
| OrderedSets.DeleteKeepsOrder | server.js:248-249 | `Set.delete` keeps the other elements in insertion order: the user list sent after a leave is the old list with the leaver's name cut out |
| Text.SkipForward | server.js:125 | the scan for the first character `trim` keeps: it stops at the end or at a non-space |
| Text.SkipBackward | server.js:173 | the scan for the last character `trim` keeps: it stops at the lower bound or just after a non-space |
| Text.Trim | server.js:173 | the trimmed text is no longer than the input and neither starts nor ends with whitespace |
| Text.TrimCutsSpace | server.js:125 | the trimmed text is the slice of the input between a prefix and a suffix that are all whitespace |
| Text.TrimBlank | server.js:126 | the trimmed text is empty exactly when the input is all whitespace |
| Protocol.Fanout | server.js:238-242 | a `forEach` over an audience sends at most one message per member |
| Protocol.FanoutSound | server.js:239-240 | every send of a broadcast carries the message to an open member of the audience |
| Protocol.FanoutReaches | server.js:269-276 | a connection receives a broadcast exactly when it is in the audience and open |
| Protocol.FanoutOnce | server.js:281-285 | over a duplicate-free audience no connection receives a broadcast twice |
| Rooms.Room.Enter | server.js:101-103 | after a join the connection and the name are members, the counter rises by one, and the history is untouched |
| Rooms.Room.Exit | server.js:212-214 | after a leave the connection and the name are gone, the counter falls by one, and the history is untouched |
| Rooms.Room.Post | server.js:136-137 | a posted message is last in the history; membership and counter are untouched; on a valid room the history stays within 100 and is the last 100 of old history plus the message |
| Rooms.EnterContents | server.js:100-103 | the members after a join are the old members plus the joiner, and a join by a non-member keeps the counter equal to the member count |
| Rooms.ExitContents | server.js:211-214 | the members after a leave are the old members minus the leaver, and a leave by a member keeps the counter equal to the member count |
| Rooms.Seeded | server.js:14-30 | the initial registry holds exactly `general`, `random` and `help`, each with no members, no history and a zero counter |
| Rooms.Joined | server.js:91-103 | a join creates a missing room empty, and the joined room becomes that room (or the existing one) after `Enter`: earlier members and names are kept and the joiner added, the counter rises by exactly one, the history is kept; no other room changes |
| Rooms.Left | server.js:212-227 | a leave removes the leaver from the room and deletes the room exactly when its counter was 1 and it is not a default room; no other room changes |
| Rooms.SeededConsistent | server.js:14-30 | the seeded registry with no sessions satisfies the registry invariant |
| Rooms.UserCountIsSessionCount | server.js:103 | in a consistent state a room's `userCount` is the number of sessions whose current room it is |
| Rooms.ConnectKeepsConsistent | server.js:38-39 | a new anonymous session in no room keeps the registry invariant |
| Rooms.DisconnectKeepsConsistent | server.js:74-78 | dropping a session that is in no room keeps the registry invariant |
| Rooms.CreateKeepsConsistent | server.js:191-195 | adding an empty room under a fresh name keeps the registry invariant |
| Rooms.PostKeepsConsistent | server.js:164-167 | recording a message in a room keeps the registry invariant |
| Rooms.JoinKeepsConsistent | server.js:100-102 | a join by a session in no room keeps the registry invariant, with the session's current room set to the joined room |
| Rooms.JoinMembers | server.js:101 | after a join every member of every room is a session whose current room is that room |
| Rooms.JoinSessions | server.js:100 | after a join every session with a current room is a member of it |
| Rooms.JoinNames | server.js:102 | after a join every listed name belongs to a member |
| Rooms.LeaveKeepsConsistent | server.js:209-230 | a leave keeps the registry invariant with the session in no room; a room deleted by the leave had no other member |
| Rooms.LeaveMembers | server.js:212 | after a leave every remaining member is a session whose current room is that room |
| Rooms.LeaveSessions | server.js:224-225 | after a leave every seated session's room still exists and lists it |
| Rooms.LeaveNames | server.js:213 | after a leave every listed name belongs to a member |
| Rooms.NameListCanDropPresentMember | server.js:212-213 | two "bob"s join and one leaves: the other is still a member and counted, yet "bob" is gone from the user list |
| ChatServer.ChatMessage | server.js:123-134 | a text message is built exactly when the session is in a room and the trimmed text is non-empty; its body is the trimmed text (without surrounding whitespace), stamped with the author, the current room and the clock |
| ChatServer.MediaMessage | server.js:147-162 | a media message is built exactly when the session is in a room and both file data and file name are non-empty, and carries them with the author, room and clock |
| ChatServer.Recorded | server.js:136-139 | recording a message from a seated session turns its current room into that room after `Post` (push then shift); every other room, and everything when there is no message or no room, is unchanged; no room is added or removed |
| ChatServer.Created | server.js:183-195 | a blank or taken name leaves the registry as it is; otherwise exactly one room is added, empty, and every existing room is unchanged |
| ChatServer.Server.constructor | server.js:13-30 | start-up: the seeded registry, no connections, nothing sent, invariant established |
| ChatServer.Server.BroadcastToRoom | server.js:234-243 | the open members of an existing room receive the message, in member order; a missing room gets nothing |
| ChatServer.Server.Broadcast | server.js:279-286 | every open connection receives the message, in accept order |
| ChatServer.Server.SendUserList | server.js:245-255 | the room's open members receive its user names |
| ChatServer.Server.SendRoomList | server.js:257-264 | one connection receives the registry's room names |
| ChatServer.Server.BroadcastRoomList | server.js:266-277 | every open connection receives the registry's room names |
| ChatServer.Server.Connect | server.js:37-42 | a new connection gets an anonymous session in no room and the room list; the invariant is kept |
| ChatServer.Server.BeginClose | server.js:270 | a closing connection stops being OPEN; the invariant is kept |
| ChatServer.Server.LeaveRoom | server.js:209-230 | the session leaves its room as `Left` says and is then in no room; the remaining open members get the notice and user list; a deleted room triggers the room list to all; a missing room makes it change nothing |
| ChatServer.Server.HandleJoin | server.js:85-120 | leave first if in a room; default the name to "Anonymous" and the room to "general"; the registry, session and sends are those of the leave followed by the entry |
| ChatServer.Server.EnterRoom | server.js:91-119 | create a missing room and broadcast the room list; enter it; notify the room and send its user list; replay a non-empty history to the joiner |
| ChatServer.Server.HandleMessage | server.js:122-142 | a non-blank trimmed text from a seated session is recorded and relayed to the room's open members; otherwise nothing changes and nothing is sent |
| ChatServer.Server.Record | server.js:136-141 | push then shift on the current room's history, then relay the message to the room's open members |
| ChatServer.Server.HandleMedia | server.js:144-170 | from a seated session, missing file data or name sends one "Invalid file data" error to the sender only and changes nothing; a complete frame is recorded and relayed; an unseated session changes nothing |
| ChatServer.Server.HandleCreateRoom | server.js:172-202 | a blank name sends "Room name cannot be empty" and a taken one "Room already exists", to the sender only and with no change; otherwise the registry is `Created` and every open connection gets the room list and a notification |
| ChatServer.Server.HandleTyping | server.js:204-207 | from a seated session the frame goes to the room's open members; otherwise nothing is sent |
| ChatServer.Server.HandleFrame | server.js:49-67 | every frame keeps the invariant; a frame of unknown type changes nothing and sends nothing |
| ChatServer.Server.OnJoin | server.js:50-52 | a `join` frame does what `handleJoin` does (the leave, the defaults, the entry, with their exact state and sends) and keeps the invariant |
| ChatServer.Server.OnChat | server.js:53-55 | a `message` frame records and relays the trimmed text as `handleMessage` does, and keeps the invariant |
| ChatServer.Server.OnUpload | server.js:56-60 | an `image`, `video` or `audio` frame records and relays the media, or sends the sender one error, as `handleMedia` does, and keeps the invariant |
| ChatServer.Server.OnCreateRoom | server.js:61-63 | a `create_room` frame creates the room or sends the sender an error, as `handleCreateRoom` does, and keeps the invariant |
| ChatServer.Server.Close | server.js:74-78 | on close a seated session leaves its room with the leave's sends, the session ends, and the invariant is kept |
| ChatServer.JoinKeepsInv | server.js:85-103 | a leave followed by an entry keeps the server invariant |
| ChatServer.CloseKeepsInv | server.js:75-76 | a close keeps the server invariant |
| ChatServer.RecordKeepsInv | server.js:136-139 | recording a message keeps the server invariant |
| ChatServer.CreateKeepsInv | server.js:191-195 | `create_room` keeps the server invariant |
| ChatServer.ReplayOnlyToJoiner | server.js:113-119 | a join's history replay goes to the joiner only, and happens exactly when the room's history is non-empty |
| ChatServer.JoinerIsTold | server.js:105-111 | an open joiner receives its own join notice and the room's user list |
| ChatServer.LeaverHearsOnlyRoomList | server.js:216-226 | a leave sends only to open connections, and the leaver itself can get at most the room list |
| ChatServer.BlankTextIgnored | server.js:123-126 | a chat text records nothing exactly when the sender is in no room or the text is all whitespace |

## Left out

- The HTTP server, the WebSocket server's construction and the port binding (server.js:1-11 and the end of the file) are I/O plumbing.
- `JSON.parse`, `JSON.stringify` and the `try`/`catch` around the dispatcher. Frames arrive already decoded as `Protocol.Frame` values, and sends carry `Protocol.OutMsg` values. A frame that fails to parse is not modelled.
- A handler that throws part-way is not modelled either. One example is a `join` to a room named after an `Object.prototype` property such as `constructor`. In the source, `rooms[room]` finds inherited properties; the registry here is a plain map that has only the rooms put into it.
- `Date.now()` is the `now` parameter of the message handlers.
- Console logging and the `error` listener (server.js:69, 80-83) have no effect on state.
- `MAX_FILE_SIZE` (server.js:34) is declared but never used by the source, so it adds no behaviour.
- Non-string fields and their `toString()` coercion are not modelled. A frame field is an `Option<string>`, where `None` is a field the client left out.
- The order of `Object.keys(rooms)` is not modelled. A room list carries the set of registry keys.
- A `typing` frame is relayed as `TypingRelay(payload)`, an opaque stand-in for the re-serialised frame.
- ChatServer.Server.SendRoomList: the sends to one socket are recorded in the outbox whatever that socket's `readyState` is. This covers the room list on connect, the history replay and the error replies. The transport's own handling of a socket that is not OPEN is not modelled.
- ChatServer.Server.Close: its precondition is the class invariant, and it models the close as the transport reports it. By the time the `close` listener runs, `wss.clients` no longer holds the connection and its `readyState` is not OPEN. `BeginClose` models the earlier `readyState` change. The transport's own timing is not modelled.
- ChatServer.Server.HandleFrame: its contract states only that the invariant is kept and that an unknown frame type is a no-op. What each frame type does is stated by the contract of the method it calls: `OnJoin`, `OnChat`, `OnUpload` and `OnCreateRoom` give the new state and sends of `handleJoin`, `handleMessage`, `handleMedia` and `handleCreateRoom`, and `HandleTyping` those of `handleTyping`.
- Concurrency is not modelled. Node runs each event to completion, so a run is modelled as a sequence of method calls.
- Integer overflow of `userCount` and of timestamps is not modelled; both are unbounded integers.
