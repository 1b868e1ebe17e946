/**
 * The room registry: each room's record `{users, history, userCount}`, the
 * per-connection session state, and the invariant that ties the stored
 * `userCount` to the sessions that are in the room.
 */
module Rooms {
  import opened Wrappers
  import opened OrderedSets
  import opened History
  import opened Protocol

  /**
   * A room record. The source keeps connections and user names in one `Set`
   * and tells them apart by type; here they are two insertion-ordered sets:
   * `conns` (the sockets) and `names` (the strings). `userCount` is the
   * counter the source updates by hand on each join and leave.
   */
  datatype Room = Room(conns: seq<ConnId>, names: seq<string>, history: seq<Message>, userCount: int)
  {
    /** The counter agrees with the members, and the history is within its bound. */
    ghost predicate Valid() {
      && NoDup(conns)
      && NoDup(names)
      && |history| <= MAX_HISTORY
      && userCount == |conns|
    }

    /** `users.add(ws); users.add(username); userCount++` */
    function Enter(c: ConnId, user: string): (r: Room)
      ensures c in r.conns && user in r.names
      ensures r.userCount == userCount + 1 && r.history == history
    {
      Room(Add(conns, c), Add(names, user), history, userCount + 1)
    }

    /**
     * `users.delete(ws); users.delete(username); userCount--`. The name goes
     * even when another member still uses it.
     */
    function Exit(c: ConnId, user: string): (r: Room)
      ensures c !in r.conns && user !in r.names
      ensures r.userCount == userCount - 1 && r.history == history
    {
      Room(Delete(conns, c), Delete(names, user), history, userCount - 1)
    }

    /** Records a message in the bounded history; membership is untouched. */
    function Post(m: Message): (r: Room)
      ensures r.conns == conns && r.names == names && r.userCount == userCount
      ensures |r.history| > 0 && r.history[|r.history| - 1] == m
      ensures Valid() ==> r.Valid() && r.history == LastN(history + [m], MAX_HISTORY)
    {
      this.(history := Append(history, m))
    }
  }

  /** Who is in a room after `Enter`: the old members and `c`; `Valid` holds on when `c` is new. */
  lemma EnterContents(room: Room, c: ConnId, user: string)
    ensures forall x :: x in room.Enter(c, user).conns <==> x in room.conns || x == c
    ensures forall n :: n in room.Enter(c, user).names <==> n in room.names || n == user
    ensures room.Valid() && c !in room.conns ==> room.Enter(c, user).Valid()
  {
    AddContents(room.conns, c);
    AddContents(room.names, user);
  }

  /** Who is in a room after `Exit`: the old members but `c`; `Valid` holds on when `c` was a member. */
  lemma ExitContents(room: Room, c: ConnId, user: string)
    ensures forall x :: x in room.Exit(c, user).conns <==> x in room.conns && x != c
    ensures forall n :: n in room.Exit(c, user).names <==> n in room.names && n != user
    ensures room.Valid() && c in room.conns ==> room.Exit(c, user).Valid()
  {
    DeleteContents(room.conns, c);
    DeleteContents(room.names, user);
  }

  /** A room as `create_room` or an on-demand join creates it. */
  const EMPTY_ROOM := Room([], [], [], 0)

  /** The rooms that exist from start-up and are never deleted. */
  predicate IsDefault(name: string) {
    name == "general" || name == "random" || name == "help"
  }

  /** The registry at start-up: the three default rooms, empty. */
  function Seeded(): (rooms: map<string, Room>)
    ensures forall name :: name in rooms <==> IsDefault(name)
    ensures forall name :: name in rooms ==> rooms[name] == EMPTY_ROOM
  {
    map["general" := EMPTY_ROOM, "random" := EMPTY_ROOM, "help" := EMPTY_ROOM]
  }

  /** A connection's closure state: its `username` and its `currentRoom`. */
  datatype Session = Session(username: string, room: Option<string>)

  /**
   * The registry after `c`, named `user`, joins `name`: the room is created
   * empty first when it does not exist. No other room changes, and the
   * joined room's counter rises by exactly one.
   */
  function Joined(rooms: map<string, Room>, name: string, c: ConnId, user: string): (r: map<string, Room>)
    ensures r.Keys == rooms.Keys + {name}
    ensures forall n :: n in rooms && n != name ==> r[n] == rooms[n]
    ensures c in r[name].conns && user in r[name].names
    ensures name in rooms ==> r[name].userCount == rooms[name].userCount + 1 && r[name].history == rooms[name].history
    ensures name !in rooms ==> r[name].userCount == 1 && r[name].history == []
    ensures r[name] == (if name in rooms then rooms[name] else EMPTY_ROOM).Enter(c, user)
  {
    var base := if name in rooms then rooms[name] else EMPTY_ROOM;
    rooms[name := base.Enter(c, user)]
  }

  /** Whether `leaveRoom` deletes the room `c` leaves: its counter reaches 0 and it is not a default room. */
  predicate Removes(rooms: map<string, Room>, name: string, c: ConnId, user: string)
    requires name in rooms
  {
    rooms[name].Exit(c, user).userCount == 0 && !IsDefault(name)
  }

  /**
   * The registry after `c`, named `user`, leaves `name`. The room is deleted
   * exactly when its counter was 1 and it is not a default room; default
   * rooms are never deleted; no other room changes.
   */
  function Left(rooms: map<string, Room>, name: string, c: ConnId, user: string): (r: map<string, Room>)
    requires name in rooms
    ensures forall n :: n in rooms && n != name ==> n in r && r[n] == rooms[n]
    ensures r.Keys <= rooms.Keys
    ensures name !in r <==> rooms[name].userCount == 1 && !IsDefault(name)
    ensures name in r ==> r[name] == rooms[name].Exit(c, user)
  {
    var room := rooms[name].Exit(c, user);
    if room.userCount == 0 && !IsDefault(name) then rooms - {name} else rooms[name := room]
  }

  /** Some member of room `r` goes by the name `n`. */
  ghost predicate NameHeld(r: Room, sessions: map<ConnId, Session>, n: string) {
    exists c :: c in r.conns && c in sessions && sessions[c].username == n
  }

  /** The three default rooms are in the registry. */
  ghost predicate DefaultsPresent(rooms: map<string, Room>) {
    forall name :: IsDefault(name) ==> name in rooms
  }

  /** Every room's counter is its number of members and its history is within bound. */
  ghost predicate AllValid(rooms: map<string, Room>) {
    forall name :: name in rooms ==> rooms[name].Valid()
  }

  /** A member of a room is a live connection whose current room is that room. */
  ghost predicate MembersInRoom(rooms: map<string, Room>, sessions: map<ConnId, Session>) {
    forall name, c :: name in rooms && c in rooms[name].conns ==> c in sessions && sessions[c].room == Some(name)
  }

  /** A session's current room exists and lists the session's connection as a member. */
  ghost predicate SessionsAreMembers(rooms: map<string, Room>, sessions: map<ConnId, Session>) {
    forall c :: c in sessions && sessions[c].room.Some? ==>
      sessions[c].room.value in rooms && c in rooms[sessions[c].room.value].conns
  }

  /** Every name in a room's user list belongs to one of its members. */
  ghost predicate NamesHeld(rooms: map<string, Room>, sessions: map<ConnId, Session>) {
    forall name, n :: name in rooms && n in rooms[name].names ==> NameHeld(rooms[name], sessions, n)
  }

  /**
   * The registry invariant. Default rooms exist; each room's counter is its
   * number of members; a connection is a member of a room exactly when its
   * session's current room is that room; every listed name belongs to a member.
   */
  ghost predicate Consistent(rooms: map<string, Room>, sessions: map<ConnId, Session>) {
    && DefaultsPresent(rooms)
    && AllValid(rooms)
    && MembersInRoom(rooms, sessions)
    && SessionsAreMembers(rooms, sessions)
    && NamesHeld(rooms, sessions)
  }

  /** The sessions whose current room is `name`. */
  ghost function SessionsIn(sessions: map<ConnId, Session>, name: string): set<ConnId> {
    set c | c in sessions && sessions[c].room == Some(name)
  }

  /** Start-up state: the seeded registry and no connections. */
  lemma SeededConsistent()
    ensures Consistent(Seeded(), map[])
  {
  }

  /**
   * In a consistent state a room's stored `userCount` is the number of
   * sessions whose current room it is.
   */
  lemma UserCountIsSessionCount(rooms: map<string, Room>, sessions: map<ConnId, Session>, name: string)
    requires Consistent(rooms, sessions) && name in rooms
    ensures rooms[name].userCount == |SessionsIn(sessions, name)|
  {
    assert SessionsIn(sessions, name) == Elems(rooms[name].conns);
    DistinctCard(rooms[name].conns);
  }

  /** A new connection, not in any room, keeps the invariant. */
  lemma ConnectKeepsConsistent(rooms: map<string, Room>, sessions: map<ConnId, Session>, c: ConnId)
    requires Consistent(rooms, sessions) && c !in sessions
    ensures Consistent(rooms, sessions[c := Session("Anonymous", None)])
  {
    var sessions' := sessions[c := Session("Anonymous", None)];
    forall name, n | name in rooms && n in rooms[name].names ensures NameHeld(rooms[name], sessions', n) {
      var w :| w in rooms[name].conns && w in sessions && sessions[w].username == n;
      assert w in sessions' && sessions'[w].username == n;
    }
  }

  /** A connection that is in no room can be dropped without breaking the invariant. */
  lemma DisconnectKeepsConsistent(rooms: map<string, Room>, sessions: map<ConnId, Session>, c: ConnId)
    requires Consistent(rooms, sessions) && c in sessions && sessions[c].room.None?
    ensures Consistent(rooms, sessions - {c})
  {
    var sessions' := sessions - {c};
    forall name, n | name in rooms && n in rooms[name].names ensures NameHeld(rooms[name], sessions', n) {
      var w :| w in rooms[name].conns && w in sessions && sessions[w].username == n;
      assert w != c;
      assert w in sessions' && sessions'[w].username == n;
    }
  }

  /** `create_room` under a fresh name keeps the invariant. */
  lemma CreateKeepsConsistent(rooms: map<string, Room>, sessions: map<ConnId, Session>, name: string)
    requires Consistent(rooms, sessions) && name !in rooms
    ensures Consistent(rooms[name := EMPTY_ROOM], sessions)
  {
    var rooms' := rooms[name := EMPTY_ROOM];
    forall n, u | n in rooms' && u in rooms'[n].names ensures NameHeld(rooms'[n], sessions, u) {
      assert n != name && rooms'[n] == rooms[n];
    }
  }

  /** Recording a message in a room's history keeps the invariant. */
  lemma PostKeepsConsistent(rooms: map<string, Room>, sessions: map<ConnId, Session>, name: string, m: Message)
    requires Consistent(rooms, sessions) && name in rooms
    ensures Consistent(rooms[name := rooms[name].Post(m)], sessions)
  {
    var rooms' := rooms[name := rooms[name].Post(m)];
    forall n, u | n in rooms' && u in rooms'[n].names ensures NameHeld(rooms'[n], sessions, u) {
      assert NameHeld(rooms[n], sessions, u);
    }
  }

  /**
   * A join by a session in no room keeps the invariant: the session's current
   * room becomes `name` and it is counted there once.
   */
  lemma JoinKeepsConsistent(rooms: map<string, Room>, sessions: map<ConnId, Session>, name: string, c: ConnId, user: string)
    requires Consistent(rooms, sessions)
    requires c in sessions && sessions[c].room.None?
    ensures Consistent(Joined(rooms, name, c, user), sessions[c := Session(user, Some(name))])
  {
    var rooms' := Joined(rooms, name, c, user);
    var sessions' := sessions[c := Session(user, Some(name))];
    var base := if name in rooms then rooms[name] else EMPTY_ROOM;
    EnterContents(base, c, user);
    assert c !in base.conns;
    assert rooms'[name] == base.Enter(c, user);
    assert AllValid(rooms');
    JoinMembers(rooms, sessions, name, c, user);
    JoinSessions(rooms, sessions, name, c, user);
    JoinNames(rooms, sessions, name, c, user);
  }

  /** After a join, every member of every room is a session seated in that room. */
  lemma JoinMembers(rooms: map<string, Room>, sessions: map<ConnId, Session>, name: string, c: ConnId, user: string)
    requires MembersInRoom(rooms, sessions)
    requires c in sessions && sessions[c].room.None?
    ensures MembersInRoom(Joined(rooms, name, c, user), sessions[c := Session(user, Some(name))])
  {
    var base := if name in rooms then rooms[name] else EMPTY_ROOM;
    var rooms' := Joined(rooms, name, c, user);
    var sessions' := sessions[c := Session(user, Some(name))];
    forall n, x | n in rooms' && x in rooms'[n].conns ensures x in sessions' && sessions'[x].room == Some(n) {
      if n != name {
        assert rooms'[n] == rooms[n];
        assert x in sessions && sessions[x].room == Some(n);
        assert sessions'[x] == sessions[x];
      } else if x != c {
        EnterContents(base, c, user);
        assert rooms'[name] == base.Enter(c, user);
        assert name in rooms && x in rooms[name].conns;
        assert sessions'[x] == sessions[x];
      }
    }
  }

  /** After a join, every seated session is a member of its room. */
  lemma JoinSessions(rooms: map<string, Room>, sessions: map<ConnId, Session>, name: string, c: ConnId, user: string)
    requires SessionsAreMembers(rooms, sessions)
    requires c in sessions
    ensures SessionsAreMembers(Joined(rooms, name, c, user), sessions[c := Session(user, Some(name))])
  {
    var base := if name in rooms then rooms[name] else EMPTY_ROOM;
    EnterContents(base, c, user);
    var rooms' := Joined(rooms, name, c, user);
    var sessions' := sessions[c := Session(user, Some(name))];
    forall x | x in sessions' && sessions'[x].room.Some?
      ensures sessions'[x].room.value in rooms' && x in rooms'[sessions'[x].room.value].conns
    {
      if x != c {
        var n := sessions[x].room.value;
        assert n in rooms && x in rooms[n].conns;
      }
    }
  }

  /** After a join, every listed name still belongs to a member. */
  lemma JoinNames(rooms: map<string, Room>, sessions: map<ConnId, Session>, name: string, c: ConnId, user: string)
    requires NamesHeld(rooms, sessions) && MembersInRoom(rooms, sessions)
    requires c in sessions && sessions[c].room.None?
    ensures NamesHeld(Joined(rooms, name, c, user), sessions[c := Session(user, Some(name))])
  {
    var base := if name in rooms then rooms[name] else EMPTY_ROOM;
    EnterContents(base, c, user);
    var rooms' := Joined(rooms, name, c, user);
    var sessions' := sessions[c := Session(user, Some(name))];
    forall n, u | n in rooms' && u in rooms'[n].names ensures NameHeld(rooms'[n], sessions', u) {
      if n == name && u == user {
        assert c in rooms'[n].conns && sessions'[c].username == u;
      } else {
        assert n in rooms && u in rooms[n].names;
        var w :| w in rooms[n].conns && w in sessions && sessions[w].username == u;
        assert w != c;
        assert w in rooms'[n].conns && sessions'[w].username == u;
      }
    }
  }

  /**
   * A leave keeps the invariant: the session ends up in no room, and a room
   * deleted by the leave had no other member.
   */
  lemma LeaveKeepsConsistent(rooms: map<string, Room>, sessions: map<ConnId, Session>, c: ConnId)
    requires Consistent(rooms, sessions)
    requires c in sessions && sessions[c].room.Some?
    ensures var s := sessions[c];
      Consistent(Left(rooms, s.room.value, c, s.username), sessions[c := Session(s.username, None)])
  {
    var s := sessions[c];
    var name := s.room.value;
    var rooms' := Left(rooms, name, c, s.username);
    assert c in rooms[name].conns;
    ExitContents(rooms[name], c, s.username);
    assert AllValid(rooms');
    LeaveMembers(rooms, sessions, c);
    LeaveSessions(rooms, sessions, c);
    LeaveNames(rooms, sessions, c);
  }

  /** After a leave, every remaining member of every room is a session seated in that room. */
  lemma LeaveMembers(rooms: map<string, Room>, sessions: map<ConnId, Session>, c: ConnId)
    requires MembersInRoom(rooms, sessions)
    requires c in sessions && sessions[c].room.Some? && sessions[c].room.value in rooms
    ensures var s := sessions[c];
      MembersInRoom(Left(rooms, s.room.value, c, s.username), sessions[c := Session(s.username, None)])
  {
    ExitContents(rooms[sessions[c].room.value], c, sessions[c].username);
    var s := sessions[c];
    var rooms' := Left(rooms, s.room.value, c, s.username);
    var sessions' := sessions[c := Session(s.username, None)];
    forall n, x | n in rooms' && x in rooms'[n].conns ensures x in sessions' && sessions'[x].room == Some(n) {
      assert x in rooms[n].conns && x != c;
    }
  }

  /** After a leave, every seated session is still a member of its room, which still exists. */
  lemma LeaveSessions(rooms: map<string, Room>, sessions: map<ConnId, Session>, c: ConnId)
    requires SessionsAreMembers(rooms, sessions) && MembersInRoom(rooms, sessions) && AllValid(rooms)
    requires c in sessions && sessions[c].room.Some?
    ensures var s := sessions[c];
      SessionsAreMembers(Left(rooms, s.room.value, c, s.username), sessions[c := Session(s.username, None)])
  {
    ExitContents(rooms[sessions[c].room.value], c, sessions[c].username);
    var s := sessions[c];
    var name := s.room.value;
    var rooms' := Left(rooms, name, c, s.username);
    var sessions' := sessions[c := Session(s.username, None)];
    var room := rooms[name].Exit(c, s.username);
    assert c in rooms[name].conns;
    assert room.Valid();
    forall x | x in sessions' && sessions'[x].room.Some?
      ensures sessions'[x].room.value in rooms' && x in rooms'[sessions'[x].room.value].conns
    {
      var n := sessions[x].room.value;
      assert x != c && n in rooms && x in rooms[n].conns;
      if n == name {
        assert x in room.conns;
        assert room.userCount != 0;
      }
    }
  }

  /** After a leave, every listed name still belongs to a member: the leaver's name is gone from its room's list. */
  lemma LeaveNames(rooms: map<string, Room>, sessions: map<ConnId, Session>, c: ConnId)
    requires NamesHeld(rooms, sessions) && MembersInRoom(rooms, sessions)
    requires c in sessions && sessions[c].room.Some? && sessions[c].room.value in rooms
    ensures var s := sessions[c];
      NamesHeld(Left(rooms, s.room.value, c, s.username), sessions[c := Session(s.username, None)])
  {
    ExitContents(rooms[sessions[c].room.value], c, sessions[c].username);
    var s := sessions[c];
    var name := s.room.value;
    var rooms' := Left(rooms, name, c, s.username);
    var sessions' := sessions[c := Session(s.username, None)];
    forall n, u | n in rooms' && u in rooms'[n].names ensures NameHeld(rooms'[n], sessions', u) {
      assert u in rooms[n].names;
      var w :| w in rooms[n].conns && w in sessions && sessions[w].username == u;
      if n == name {
        assert u != s.username;
      }
      assert w != c;
      assert w in rooms'[n].conns && sessions'[w].username == u;
    }
  }

  /**
   * The user list can drop a name while a member with that name is still in
   * the room: two connections join as "bob" and one of them leaves.
   */
  lemma NameListCanDropPresentMember()
    ensures var r := EMPTY_ROOM.Enter(1, "bob").Enter(2, "bob").Exit(1, "bob");
      2 in r.conns && r.userCount == 1 && "bob" !in r.names
  {
  }
}
