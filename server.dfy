/**
 * The connection handler: per-connection sessions, the frame dispatcher and
 * its handlers, and the broadcast helpers, over one shared room registry.
 * Sends are appended to `outbox` in the order the server issues them.
 */
module ChatServer {
  import opened Wrappers
  import opened OrderedSets
  import opened Text
  import opened History
  import opened Protocol
  import opened Rooms

  /**
   * The registry once the session `s` of connection `c` has left its current
   * room. A session in no room, or whose room is missing, leaves it as it is.
   */
  function Vacated(rooms: map<string, Room>, s: Session, c: ConnId): map<string, Room> {
    if s.room.Some? && s.room.value in rooms then Left(rooms, s.room.value, c, s.username) else rooms
  }

  /**
   * What `leaveRoom` sends for the session `s` of connection `c`: the
   * departure notice and the new user list to the remaining open members,
   * then, if the room was deleted, the room list to every open connection.
   */
  function LeaveOutput(rooms: map<string, Room>, clients: seq<ConnId>, open: set<ConnId>, s: Session, c: ConnId): seq<Send> {
    if s.room.None? || s.room.value !in rooms then []
    else
      var name := s.room.value;
      var room := rooms[name].Exit(c, s.username);
      Fanout(room.conns, open, Notification(s.username + " has left the room", Some(name)))
      + Fanout(room.conns, open, UserList(room.names))
      + (if Removes(rooms, name, c, s.username) then Fanout(clients, open, RoomList(Left(rooms, name, c, s.username).Keys)) else [])
  }

  /** What `handleJoin` sends, once any previous room is left, when `c`, named `user`, enters `name`. */
  function EnterOutput(rooms: map<string, Room>, clients: seq<ConnId>, open: set<ConnId>,
                       name: string, c: ConnId, user: string): seq<Send>
  {
    var after := Joined(rooms, name, c, user);
    var room := after[name];
    (if name !in rooms then Fanout(clients, open, RoomList(after.Keys)) else [])
    + Fanout(room.conns, open, Notification(user + " has joined the room", Some(name)))
    + Fanout(room.conns, open, UserList(room.names))
    + (if |room.history| > 0 then [Send(c, HistoryReplay(name, LastN(room.history, MAX_HISTORY)))] else [])
  }

  /**
   * The message `handleMessage` records for the session `s`: its text,
   * trimmed, stamped with the author, the current room and the time; none
   * when the session is in no room or the text is blank.
   */
  function ChatMessage(s: Session, text: Option<string>, now: int): (m: Option<Message>)
    ensures m.Some? ==> m.value.Text? && m.value.body != [] && !IsSpace(m.value.body[0]) && !IsSpace(m.value.body[|m.value.body| - 1])
    ensures m.Some? ==> s.room == Some(m.value.room) && m.value.author == s.username && m.value.timestamp == now
    ensures m.Some? ==> m.value.body == Trim(OrElse(text, ""))
    ensures m.Some? <==> s.room.Some? && Trim(OrElse(text, "")) != ""
  {
    var body := Trim(OrElse(text, ""));
    if s.room.None? || body == "" then None else Some(Text(s.username, body, s.room.value, now))
  }

  /**
   * The media message `handleMedia` records for the session `s`; none when
   * the session is in no room or the file data or file name is missing.
   */
  function MediaMessage(s: Session, kind: MediaKind, fileData: Option<string>, fileName: Option<string>, now: int): (m: Option<Message>)
    ensures m.Some? <==> s.room.Some? && Truthy(fileData) && Truthy(fileName)
    ensures m.Some? ==> m.value == Media(kind, s.username, fileData.value, fileName.value, s.room.value, now)
  {
    if s.room.None? || !Truthy(fileData) || !Truthy(fileName) then None
    else Some(Media(kind, s.username, fileData.value, fileName.value, s.room.value, now))
  }

  /** Whether the session `s` is in a room the registry holds: the guard of the room handlers. */
  predicate Seated(rooms: map<string, Room>, s: Session) {
    s.room.Some? && s.room.value in rooms
  }

  /** The registry once `m`, if any, is recorded in the current room of `s`. */
  function Recorded(rooms: map<string, Room>, s: Session, m: Option<Message>): (r: map<string, Room>)
    ensures r.Keys == rooms.Keys
    ensures Seated(rooms, s) && m.Some? ==> r[s.room.value] == rooms[s.room.value].Post(m.value)
    ensures forall n :: n in rooms && !(Seated(rooms, s) && m.Some? && n == s.room.value) ==> r[n] == rooms[n]
  {
    if Seated(rooms, s) && m.Some? then rooms[s.room.value := rooms[s.room.value].Post(m.value)] else rooms
  }

  /** What relaying `m`, if any, to the open members of the current room of `s` sends. */
  function Relayed(rooms: map<string, Room>, open: set<ConnId>, s: Session, m: Option<Message>): seq<Send> {
    if Seated(rooms, s) && m.Some? then Fanout(rooms[s.room.value].conns, open, Relay(m.value)) else []
  }

  /** The registry after `create_room` with the trimmed name `name`: a new empty room unless blank or taken. */
  function Created(rooms: map<string, Room>, name: string): (r: map<string, Room>)
    ensures name != "" && name !in rooms ==> r.Keys == rooms.Keys + {name} && r[name] == EMPTY_ROOM
    ensures forall n :: n in rooms ==> n in r && r[n] == rooms[n]
    ensures name == "" || name in rooms ==> r == rooms
  {
    if name == "" || name in rooms then rooms else rooms[name := EMPTY_ROOM]
  }

  /**
   * The server invariant: `wss.clients` lists each live connection once, only
   * live connections are open, and the registry is consistent with the sessions.
   */
  ghost predicate ServerInv(rooms: map<string, Room>, sessions: map<ConnId, Session>, clients: seq<ConnId>, open: set<ConnId>) {
    && NoDup(clients)
    && (forall c :: c in clients <==> c in sessions)
    && open <= sessions.Keys
    && Consistent(rooms, sessions)
  }

  /** Regrouping three consecutive batches of sends after an earlier outbox. */
  lemma Regroup3(a: seq<Send>, b: seq<Send>, c: seq<Send>, d: seq<Send>)
    ensures a + b + c + d == a + (b + c + d)
  {
  }

  /** Regrouping four consecutive batches of sends after an earlier outbox. */
  lemma Regroup4(a: seq<Send>, b: seq<Send>, c: seq<Send>, d: seq<Send>, e: seq<Send>)
    ensures a + b + c + d + e == a + (b + c + d + e)
  {
  }

  class Server {
    /** The room registry `rooms`. */
    var rooms: map<string, Room>
    /** The closure state of each live connection. */
    var sessions: map<ConnId, Session>
    /** `wss.clients`, in the order connections were accepted. */
    var clients: seq<ConnId>
    /** The connections whose `readyState` is OPEN. */
    var open: set<ConnId>
    /** Every `send` issued so far, in order. */
    var outbox: seq<Send>

    /** The invariant over the state the handlers share; the outbox is not part of it. */
    ghost predicate Valid()
      reads this
    {
      ServerInv(rooms, sessions, clients, open)
    }

    /** Start-up: the three default rooms, no connections, nothing sent. */
    constructor ()
      ensures Valid()
      ensures rooms == Seeded() && sessions == map[] && clients == [] && open == {} && outbox == []
    {
      rooms := Seeded();
      sessions := map[];
      clients := [];
      open := {};
      outbox := [];
      SeededConsistent();
    }

    /** `broadcastToRoom`: the room's open member connections receive `m`; a missing room gets nothing. */
    method BroadcastToRoom(name: string, m: OutMsg)
      modifies this`outbox
      ensures outbox == old(outbox) + (if name in rooms then Fanout(rooms[name].conns, open, m) else [])
    {
      if name !in rooms {
        return;
      }
      var audience := rooms[name].conns;
      for i := 0 to |audience|
        invariant outbox == old(outbox) + Fanout(audience[..i], open, m)
      {
        assert audience[..i + 1][..i] == audience[..i];
        if audience[i] in open {
          outbox := outbox + [Send(audience[i], m)];
        }
      }
      assert audience[..|audience|] == audience;
    }

    /** `broadcast`: every open connection receives `m`, in accept order. */
    method Broadcast(m: OutMsg)
      modifies this`outbox
      ensures outbox == old(outbox) + Fanout(clients, open, m)
    {
      for i := 0 to |clients|
        invariant outbox == old(outbox) + Fanout(clients[..i], open, m)
      {
        assert clients[..i + 1][..i] == clients[..i];
        if clients[i] in open {
          outbox := outbox + [Send(clients[i], m)];
        }
      }
      assert clients[..|clients|] == clients;
    }

    /** `sendUserList`: the room's user names, to its open members. */
    method SendUserList(name: string)
      modifies this`outbox
      ensures outbox == old(outbox) + (if name in rooms then Fanout(rooms[name].conns, open, UserList(rooms[name].names)) else [])
    {
      if name !in rooms {
        return;
      }
      BroadcastToRoom(name, UserList(rooms[name].names));
    }

    /** `sendRoomList`: the registry's room names, to one connection. */
    method SendRoomList(c: ConnId)
      modifies this`outbox
      ensures outbox == old(outbox) + [Send(c, RoomList(rooms.Keys))]
    {
      outbox := outbox + [Send(c, RoomList(rooms.Keys))];
    }

    /** `broadcastRoomList`: the registry's room names, to every open connection. */
    method BroadcastRoomList()
      modifies this`outbox
      ensures outbox == old(outbox) + Fanout(clients, open, RoomList(rooms.Keys))
    {
      Broadcast(RoomList(rooms.Keys));
    }

    /** A new connection: an anonymous session in no room, sent the room list. */
    method Connect(c: ConnId)
      requires Valid() && c !in sessions
      modifies this
      ensures Valid()
      ensures sessions == old(sessions)[c := Session("Anonymous", None)]
      ensures clients == old(clients) + [c] && open == old(open) + {c} && rooms == old(rooms)
      ensures outbox == old(outbox) + [Send(c, RoomList(rooms.Keys))]
    {
      ConnectKeepsConsistent(rooms, sessions, c);
      sessions := sessions[c := Session("Anonymous", None)];
      clients := clients + [c];
      open := open + {c};
      SendRoomList(c);
    }

    /** The transport starts closing `c`: its `readyState` is no longer OPEN. */
    method BeginClose(c: ConnId)
      requires Valid()
      modifies this`open
      ensures Valid() && open == old(open) - {c}
    {
      open := open - {c};
    }

    /**
     * `leaveRoom`: the session leaves its current room, the remaining open
     * members are told, and an emptied non-default room is deleted and the
     * new room list goes to every open connection. A current room missing
     * from the registry makes it return at once, changing nothing.
     */
    method LeaveRoom(c: ConnId)
      requires c in sessions && sessions[c].room.Some?
      modifies this`rooms, this`sessions, this`outbox
      ensures var s := old(sessions[c]);
        && rooms == Vacated(old(rooms), s, c)
        && sessions == (if s.room.value in old(rooms) then old(sessions)[c := Session(s.username, None)] else old(sessions))
        && outbox == old(outbox) + LeaveOutput(old(rooms), clients, open, s, c)
    {
      var s := sessions[c];
      var name := s.room.value;
      if name !in rooms {
        return;
      }
      ghost var before, sent, seated := rooms, outbox, sessions;
      var room := rooms[name].Exit(c, s.username);
      ghost var notice := Fanout(room.conns, open, Notification(s.username + " has left the room", Some(name)));
      ghost var list := Fanout(room.conns, open, UserList(room.names));
      ghost var removes := Removes(before, name, c, s.username);
      ghost var dropped := if removes then Fanout(clients, open, RoomList(Left(before, name, c, s.username).Keys)) else [];
      assert LeaveOutput(before, clients, open, s, c) == notice + list + dropped;
      rooms := rooms[name := room];
      BroadcastToRoom(name, Notification(s.username + " has left the room", Some(name)));
      SendUserList(name);
      assert outbox == sent + notice + list;
      if room.userCount == 0 && !IsDefault(name) {
        rooms := rooms - {name};
        assert removes && rooms == Left(before, name, c, s.username);
        BroadcastRoomList();
      } else {
        assert !removes && rooms == Left(before, name, c, s.username);
        assert outbox == sent + notice + list + dropped;
      }
      Regroup3(sent, notice, list, dropped);
      assert sessions == seated;
      sessions := sessions[c := Session(s.username, None)];
    }

    /**
     * `handleJoin`: leave the current room if any; default the name to
     * "Anonymous" and the room to "general"; then enter that room.
     */
    method HandleJoin(c: ConnId, username: Option<string>, room: Option<string>)
      requires c in sessions
      modifies this`rooms, this`sessions, this`outbox
      ensures var s := old(sessions[c]);
        var user := OrElse(username, "Anonymous");
        var name := OrElse(room, "general");
        var mid := Vacated(old(rooms), s, c);
        && sessions == old(sessions)[c := Session(user, Some(name))]
        && rooms == Joined(mid, name, c, user)
        && outbox == old(outbox) + LeaveOutput(old(rooms), clients, open, s, c) + EnterOutput(mid, clients, open, name, c, user)
    {
      ghost var s := sessions[c];
      ghost var sent := outbox;
      ghost var mid := Vacated(rooms, s, c);
      ghost var left := LeaveOutput(rooms, clients, open, s, c);
      if sessions[c].room.Some? {
        LeaveRoom(c);
      }
      assert rooms == mid && outbox == sent + left;
      EnterRoom(c, OrElse(username, "Anonymous"), OrElse(room, "general"));
    }

    /**
     * The rest of `handleJoin`: create the room if missing and send the new
     * room list to every open connection, then enter it, tell its open
     * members, and replay a non-empty history to `c` only.
     */
    method EnterRoom(c: ConnId, user: string, name: string)
      modifies this`rooms, this`sessions, this`outbox
      ensures sessions == old(sessions)[c := Session(user, Some(name))]
      ensures rooms == Joined(old(rooms), name, c, user)
      ensures outbox == old(outbox) + EnterOutput(old(rooms), clients, open, name, c, user)
    {
      ghost var before := rooms;
      ghost var sent := outbox;
      ghost var after := Joined(before, name, c, user);
      ghost var created := if name !in before then Fanout(clients, open, RoomList(after.Keys)) else [];
      if name !in rooms {
        rooms := rooms[name := EMPTY_ROOM];
        assert rooms.Keys == after.Keys;
        BroadcastRoomList();
      } else {
        assert sent + created == sent;
      }
      assert outbox == sent + created;
      var joined := rooms[name].Enter(c, user);
      rooms := rooms[name := joined];
      sessions := sessions[c := Session(user, Some(name))];
      assert rooms == after && after[name] == joined;
      ghost var notice := Fanout(joined.conns, open, Notification(user + " has joined the room", Some(name)));
      ghost var list := Fanout(joined.conns, open, UserList(joined.names));
      ghost var replay := if |joined.history| > 0 then [Send(c, HistoryReplay(name, LastN(joined.history, MAX_HISTORY)))] else [];
      BroadcastToRoom(name, Notification(user + " has joined the room", Some(name)));
      SendUserList(name);
      assert outbox == sent + created + notice + list;
      if |joined.history| > 0 {
        outbox := outbox + [Send(c, HistoryReplay(name, LastN(joined.history, MAX_HISTORY)))];
      }
      assert outbox == sent + created + notice + list + replay;
      assert EnterOutput(before, clients, open, name, c, user) == created + notice + list + replay;
      Regroup4(sent, created, notice, list, replay);
    }

    /**
     * `handleMessage`: from a session in a room, a text that is not blank
     * after trimming is recorded in the room's history and sent to the
     * room's open members; anything else changes nothing and sends nothing.
     */
    method HandleMessage(c: ConnId, text: Option<string>, now: int)
      requires c in sessions
      modifies this`rooms, this`outbox
      ensures var m := ChatMessage(sessions[c], text, now);
        && rooms == Recorded(old(rooms), sessions[c], m)
        && outbox == old(outbox) + Relayed(rooms, open, sessions[c], m)
      ensures !Seated(old(rooms), sessions[c]) || ChatMessage(sessions[c], text, now).None? ==>
        rooms == old(rooms) && outbox == old(outbox)
    {
      var s := sessions[c];
      if !Seated(rooms, s) {
        return;
      }
      var m := ChatMessage(s, text, now);
      if m.Some? {
        Record(s, m.value);
      }
    }

    /**
     * The tail `handleMessage` and `handleMedia` share: push the message on
     * the current room's history, shift the oldest out past MAX_HISTORY, and
     * send the message to the room's open members.
     */
    method Record(s: Session, m: Message)
      requires Seated(rooms, s)
      modifies this`rooms, this`outbox
      ensures rooms == Recorded(old(rooms), s, Some(m))
      ensures outbox == old(outbox) + Relayed(rooms, open, s, Some(m))
    {
      var name := s.room.value;
      rooms := rooms[name := rooms[name].Post(m)];
      BroadcastToRoom(name, Relay(m));
    }

    /**
     * `handleMedia`: from a session in a room, a frame lacking its file data
     * or file name gets one "Invalid file data" error back to the sender
     * only; a complete one is recorded and sent to the room's open members.
     */
    method HandleMedia(c: ConnId, kind: MediaKind, fileData: Option<string>, fileName: Option<string>, now: int)
      requires c in sessions
      modifies this`rooms, this`outbox
      ensures var m := MediaMessage(sessions[c], kind, fileData, fileName, now);
        && rooms == Recorded(old(rooms), sessions[c], m)
        && outbox == old(outbox)
             + (if Seated(old(rooms), sessions[c]) && m.None? then [Send(c, Error("Invalid file data"))] else [])
             + Relayed(rooms, open, sessions[c], m)
      ensures !Seated(old(rooms), sessions[c]) ==> rooms == old(rooms) && outbox == old(outbox)
      ensures Seated(old(rooms), sessions[c]) && !(Truthy(fileData) && Truthy(fileName)) ==>
        rooms == old(rooms) && outbox == old(outbox) + [Send(c, Error("Invalid file data"))]
    {
      var s := sessions[c];
      if !Seated(rooms, s) {
        return;
      }
      var m := MediaMessage(s, kind, fileData, fileName, now);
      if m.None? {
        outbox := outbox + [Send(c, Error("Invalid file data"))];
        return;
      }
      Record(s, m.value);
    }

    /**
     * `handleCreateRoom`: a blank name or a name already in the registry gets
     * an error back to the sender only and changes nothing; otherwise the
     * trimmed name becomes a new empty room, and every open connection gets
     * the room list and a notification.
     */
    method HandleCreateRoom(c: ConnId, room: Option<string>)
      modifies this`rooms, this`outbox
      ensures var name := Trim(OrElse(room, ""));
        && rooms == Created(old(rooms), name)
        && outbox == old(outbox) + (
             if name == "" then [Send(c, Error("Room name cannot be empty"))]
             else if name in old(rooms) then [Send(c, Error("Room already exists"))]
             else Fanout(clients, open, RoomList(rooms.Keys))
                  + Fanout(clients, open, Notification("New room \"" + name + "\" created", None)))
    {
      var name := Trim(OrElse(room, ""));
      if name == "" {
        outbox := outbox + [Send(c, Error("Room name cannot be empty"))];
        return;
      }
      if name in rooms {
        outbox := outbox + [Send(c, Error("Room already exists"))];
        return;
      }
      rooms := rooms[name := EMPTY_ROOM];
      BroadcastRoomList();
      Broadcast(Notification("New room \"" + name + "\" created", None));
    }

    /** `handleTyping`: from a session in a room, the frame is relayed to the room's open members. */
    method HandleTyping(c: ConnId, payload: string)
      requires c in sessions
      modifies this`outbox
      ensures var s := sessions[c];
        if s.room.None? || s.room.value !in rooms then outbox == old(outbox)
        else outbox == old(outbox) + Fanout(rooms[s.room.value].conns, open, TypingRelay(payload))
    {
      var s := sessions[c];
      if s.room.None? {
        return;
      }
      BroadcastToRoom(s.room.value, TypingRelay(payload));
    }

    /**
     * The `message` listener: routes a decoded frame by its type; unknown
     * types do nothing. Every handler keeps the invariant.
     */
    method HandleFrame(c: ConnId, f: Frame, now: int)
      requires Valid() && c in sessions
      modifies this`rooms, this`sessions, this`outbox
      ensures Valid()
      ensures f.Unrecognized? ==> rooms == old(rooms) && sessions == old(sessions) && outbox == old(outbox)
    {
      match f
      case Join(username, room) => OnJoin(c, username, room);
      case Chat(message) => OnChat(c, message, now);
      case Upload(kind, fileData, fileName) => OnUpload(c, kind, fileData, fileName, now);
      case CreateRoom(room) => OnCreateRoom(c, room);
      case Typing(payload) => HandleTyping(c, payload);
      case Unrecognized(_) =>
    }

    /** A `join` frame: `handleJoin`'s new state and sends, and the invariant is kept. */
    method OnJoin(c: ConnId, username: Option<string>, room: Option<string>)
      requires Valid() && c in sessions
      modifies this`rooms, this`sessions, this`outbox
      ensures Valid()
      ensures var s := old(sessions[c]);
        var user := OrElse(username, "Anonymous");
        var name := OrElse(room, "general");
        var mid := Vacated(old(rooms), s, c);
        && sessions == old(sessions)[c := Session(user, Some(name))]
        && rooms == Joined(mid, name, c, user)
        && outbox == old(outbox) + LeaveOutput(old(rooms), clients, open, s, c) + EnterOutput(mid, clients, open, name, c, user)
    {
      var user, name := OrElse(username, "Anonymous"), OrElse(room, "general");
      ghost var after := Joined(Vacated(rooms, sessions[c], c), name, c, user);
      ghost var seated, live, ready := sessions[c := Session(user, Some(name))], clients, open;
      JoinKeepsInv(rooms, sessions, live, ready, c, user, name);
      HandleJoin(c, username, room);
      assert rooms == after && sessions == seated && clients == live && open == ready;
    }

    /** A `message` frame: `handleMessage`'s new state and sends, and the invariant is kept. */
    method OnChat(c: ConnId, message: Option<string>, now: int)
      requires Valid() && c in sessions
      modifies this`rooms, this`outbox
      ensures Valid()
      ensures var m := ChatMessage(sessions[c], message, now);
        && rooms == Recorded(old(rooms), sessions[c], m)
        && outbox == old(outbox) + Relayed(rooms, open, sessions[c], m)
    {
      ghost var m := ChatMessage(sessions[c], message, now);
      ghost var after := Recorded(rooms, sessions[c], m);
      ghost var seated, live, ready := sessions, clients, open;
      RecordKeepsInv(rooms, seated, live, ready, sessions[c], m);
      HandleMessage(c, message, now);
      assert rooms == after && sessions == seated && clients == live && open == ready;
    }

    /** An `image`, `video` or `audio` frame: `handleMedia`'s new state and sends, and the invariant is kept. */
    method OnUpload(c: ConnId, kind: MediaKind, fileData: Option<string>, fileName: Option<string>, now: int)
      requires Valid() && c in sessions
      modifies this`rooms, this`outbox
      ensures Valid()
      ensures var m := MediaMessage(sessions[c], kind, fileData, fileName, now);
        && rooms == Recorded(old(rooms), sessions[c], m)
        && outbox == old(outbox)
             + (if Seated(old(rooms), sessions[c]) && m.None? then [Send(c, Error("Invalid file data"))] else [])
             + Relayed(rooms, open, sessions[c], m)
    {
      ghost var m := MediaMessage(sessions[c], kind, fileData, fileName, now);
      ghost var after := Recorded(rooms, sessions[c], m);
      ghost var seated, live, ready := sessions, clients, open;
      RecordKeepsInv(rooms, seated, live, ready, sessions[c], m);
      HandleMedia(c, kind, fileData, fileName, now);
      assert rooms == after && sessions == seated && clients == live && open == ready;
    }

    /** A `create_room` frame: `handleCreateRoom`'s new state and sends, and the invariant is kept. */
    method OnCreateRoom(c: ConnId, room: Option<string>)
      requires Valid()
      modifies this`rooms, this`outbox
      ensures Valid()
      ensures var name := Trim(OrElse(room, ""));
        && rooms == Created(old(rooms), name)
        && outbox == old(outbox) + (
             if name == "" then [Send(c, Error("Room name cannot be empty"))]
             else if name in old(rooms) then [Send(c, Error("Room already exists"))]
             else Fanout(clients, open, RoomList(rooms.Keys))
                  + Fanout(clients, open, Notification("New room \"" + name + "\" created", None)))
    {
      ghost var after := Created(rooms, Trim(OrElse(room, "")));
      ghost var seated, live, ready := sessions, clients, open;
      CreateKeepsInv(rooms, seated, live, ready, Trim(OrElse(room, "")));
      HandleCreateRoom(c, room);
      assert rooms == after && sessions == seated && clients == live && open == ready;
    }

    /**
     * The `close` listener, once the transport has dropped `c` from
     * `wss.clients`: a session whose current room exists leaves it, and the
     * session ends.
     */
    method Close(c: ConnId)
      requires Valid() && c in sessions
      modifies this
      ensures Valid()
      ensures var s := old(sessions[c]);
        && sessions == old(sessions) - {c}
        && clients == Delete(old(clients), c) && open == old(open) - {c}
        && rooms == Vacated(old(rooms), s, c)
        && outbox == old(outbox) + LeaveOutput(old(rooms), clients, open, s, c)
    {
      CloseKeepsInv(rooms, sessions, clients, open, c);
      ghost var s := sessions[c];
      ghost var sent := outbox;
      ghost var mid := Vacated(rooms, s, c);
      ghost var left := LeaveOutput(rooms, Delete(clients, c), open - {c}, s, c);
      open := open - {c};
      clients := Delete(clients, c);
      if sessions[c].room.Some? && sessions[c].room.value in rooms {
        LeaveRoom(c);
        assert sessions - {c} == old(sessions) - {c};
      }
      assert rooms == mid && outbox == sent + left;
      sessions := sessions - {c};
    }
  }

  /**
   * A join keeps the server invariant: the session first leaves its current
   * room, if any, and then enters `name`.
   */
  lemma JoinKeepsInv(rooms: map<string, Room>, sessions: map<ConnId, Session>, clients: seq<ConnId>, open: set<ConnId>,
                     c: ConnId, user: string, name: string)
    requires ServerInv(rooms, sessions, clients, open) && c in sessions
    ensures ServerInv(Joined(Vacated(rooms, sessions[c], c), name, c, user), sessions[c := Session(user, Some(name))], clients, open)
  {
    var s := sessions[c];
    var seated := sessions[c := Session(user, Some(name))];
    var mid := Vacated(rooms, s, c);
    var midSessions := if s.room.Some? then sessions[c := Session(s.username, None)] else sessions;
    if s.room.Some? {
      LeaveKeepsConsistent(rooms, sessions, c);
      Reseat(sessions, c, Session(s.username, None), Session(user, Some(name)));
    }
    JoinKeepsConsistent(mid, midSessions, name, c, user);
    assert midSessions[c := Session(user, Some(name))] == seated;
    assert seated.Keys == sessions.Keys;
  }

  /** Re-seating a connection twice is re-seating it once, with the later session. */
  lemma Reseat(sessions: map<ConnId, Session>, c: ConnId, first: Session, second: Session)
    ensures sessions[c := first][c := second] == sessions[c := second]
  {
  }

  /**
   * A close keeps the server invariant: the session leaves its room, if
   * any, and then ends, and the connection leaves `wss.clients`.
   */
  lemma CloseKeepsInv(rooms: map<string, Room>, sessions: map<ConnId, Session>, clients: seq<ConnId>, open: set<ConnId>, c: ConnId)
    requires ServerInv(rooms, sessions, clients, open) && c in sessions
    ensures ServerInv(Vacated(rooms, sessions[c], c), sessions - {c}, Delete(clients, c), open - {c})
  {
    var s := sessions[c];
    var seated := sessions;
    if s.room.Some? {
      LeaveKeepsConsistent(rooms, sessions, c);
      seated := sessions[c := Session(s.username, None)];
    }
    DisconnectKeepsConsistent(Vacated(rooms, s, c), seated, c);
    assert seated - {c} == sessions - {c};
    DeleteContents(clients, c);
  }

  /** Recording a message, if any, in the current room of a session keeps the server invariant. */
  lemma RecordKeepsInv(rooms: map<string, Room>, sessions: map<ConnId, Session>, clients: seq<ConnId>, open: set<ConnId>,
                       s: Session, m: Option<Message>)
    requires ServerInv(rooms, sessions, clients, open)
    ensures ServerInv(Recorded(rooms, s, m), sessions, clients, open)
  {
    if Seated(rooms, s) && m.Some? {
      PostKeepsConsistent(rooms, sessions, s.room.value, m.value);
    }
  }

  /** `create_room` keeps the server invariant, whether it creates a room or not. */
  lemma CreateKeepsInv(rooms: map<string, Room>, sessions: map<ConnId, Session>, clients: seq<ConnId>, open: set<ConnId>,
                       name: string)
    requires ServerInv(rooms, sessions, clients, open)
    ensures ServerInv(Created(rooms, name), sessions, clients, open)
  {
    if name != "" && name !in rooms {
      CreateKeepsConsistent(rooms, sessions, name);
    }
  }

  /**
   * A join's history replay goes to the joining connection and to nobody
   * else, and there is one exactly when the joined room has a history.
   */
  lemma ReplayOnlyToJoiner(rooms: map<string, Room>, clients: seq<ConnId>, open: set<ConnId>,
                           name: string, c: ConnId, user: string)
    ensures var out := EnterOutput(rooms, clients, open, name, c, user);
      var h := Joined(rooms, name, c, user)[name].history;
      && (forall x :: x in out && x.msg.HistoryReplay? ==> x.to == c)
      && (Send(c, HistoryReplay(name, LastN(h, MAX_HISTORY))) in out <==> |h| > 0)
  {
    var after := Joined(rooms, name, c, user);
    var room := after[name];
    var created := if name !in rooms then Fanout(clients, open, RoomList(after.Keys)) else [];
    var notice := Fanout(room.conns, open, Notification(user + " has joined the room", Some(name)));
    var list := Fanout(room.conns, open, UserList(room.names));
    var replay := if |room.history| > 0 then [Send(c, HistoryReplay(name, LastN(room.history, MAX_HISTORY)))] else [];
    var prefix := created + notice + list;
    var out := EnterOutput(rooms, clients, open, name, c, user);
    assert out == prefix + replay;
    FanoutSound(clients, open, RoomList(after.Keys));
    FanoutSound(room.conns, open, Notification(user + " has joined the room", Some(name)));
    FanoutSound(room.conns, open, UserList(room.names));
    forall x: Send | x in prefix ensures !x.msg.HistoryReplay? {
      assert x in created || x in notice || x in list;
    }
    forall x: Send | x in out && x.msg.HistoryReplay? ensures x.to == c {
      assert x in replay;
    }
  }

  /** An open joining connection is told of its own arrival and gets the room's user list. */
  lemma JoinerIsTold(rooms: map<string, Room>, clients: seq<ConnId>, open: set<ConnId>,
                     name: string, c: ConnId, user: string)
    requires c in open
    ensures var out := EnterOutput(rooms, clients, open, name, c, user);
      var room := Joined(rooms, name, c, user)[name];
      && Send(c, Notification(user + " has joined the room", Some(name))) in out
      && Send(c, UserList(room.names)) in out
  {
    var room := Joined(rooms, name, c, user)[name];
    FanoutReaches(room.conns, open, Notification(user + " has joined the room", Some(name)), c);
    FanoutReaches(room.conns, open, UserList(room.names), c);
  }

  /**
   * Everything a leave sends goes to an open connection, and the leaving
   * connection itself gets at most the new room list.
   */
  lemma LeaverHearsOnlyRoomList(rooms: map<string, Room>, clients: seq<ConnId>, open: set<ConnId>, s: Session, c: ConnId)
    ensures forall x :: x in LeaveOutput(rooms, clients, open, s, c) ==> x.to in open && (x.to == c ==> x.msg.RoomList?)
  {
    if Seated(rooms, s) {
      var name := s.room.value;
      var room := rooms[name].Exit(c, s.username);
      ExitContents(rooms[name], c, s.username);
      FanoutSound(room.conns, open, Notification(s.username + " has left the room", Some(name)));
      FanoutSound(room.conns, open, UserList(room.names));
      FanoutSound(clients, open, RoomList(Left(rooms, name, c, s.username).Keys));
    }
  }

  /** A chat text records nothing exactly when the sender is in no room or the text is all whitespace. */
  lemma BlankTextIgnored(s: Session, text: Option<string>, now: int)
    ensures ChatMessage(s, text, now).None? <==>
      s.room.None? || forall i :: 0 <= i < |OrElse(text, "")| ==> IsSpace(OrElse(text, "")[i])
  {
    TrimBlank(OrElse(text, ""));
  }
}
