/**
 * The wire protocol, already decoded: inbound frames, outbound messages,
 * and the fan-out of one message to an audience of connections.
 */
module Protocol {
  import opened Wrappers
  import opened OrderedSets
  import opened History

  /** A connection (a `ws` socket), identified by the order in which it was accepted. */
  type ConnId = nat

  /**
   * An inbound frame, one case per `type` the dispatcher knows, plus the
   * frames whose `type` it does not know. A field the client left out is `None`.
   */
  datatype Frame =
    | Join(username: Option<string>, room: Option<string>)
    | Chat(message: Option<string>)
    | Upload(kind: MediaKind, fileData: Option<string>, fileName: Option<string>)
    | CreateRoom(room: Option<string>)
    | Typing(payload: string)
    | Unrecognized(tag: string)

  /** An outbound frame. `RoomList` carries the registry's keys, whose order is not modelled. */
  datatype OutMsg =
    | RoomList(rooms: set<string>)
    | UserList(users: seq<string>)
    | Notification(text: string, room: Option<string>)
    | HistoryReplay(historyRoom: string, messages: seq<Message>)
    | Relay(message: Message)
    | TypingRelay(payload: string)
    | Error(text: string)

  /** One `send` of a message to a connection. */
  datatype Send = Send(to: ConnId, msg: OutMsg)

  /** JavaScript truthiness of a string field: present and not empty. */
  predicate Truthy(field: Option<string>) {
    field.Some? && field.value != ""
  }

  /** `field || fallback` for a string field. */
  function OrElse(field: Option<string>, fallback: string): string {
    if Truthy(field) then field.value else fallback
  }

  /**
   * The sends of `audience.forEach(client => { if (client is OPEN) client.send(m) })`,
   * in iteration order.
   */
  function Fanout(audience: seq<ConnId>, open: set<ConnId>, m: OutMsg): (out: seq<Send>)
    ensures |out| <= |audience|
  {
    if audience == [] then []
    else
      var last := audience[|audience| - 1];
      Fanout(audience[..|audience| - 1], open, m) + (if last in open then [Send(last, m)] else [])
  }

  /** Every send of a fan-out carries `m` to an open member of the audience. */
  lemma {:induction false} FanoutSound(audience: seq<ConnId>, open: set<ConnId>, m: OutMsg)
    ensures forall x :: x in Fanout(audience, open, m) ==> x.to in audience && x.to in open && x.msg == m
  {
    if audience != [] {
      var front := audience[..|audience| - 1];
      var last := audience[|audience| - 1];
      FanoutSound(front, open, m);
      assert Fanout(audience, open, m) == Fanout(front, open, m) + (if last in open then [Send(last, m)] else []);
    }
  }

  /** A connection receives the fan-out exactly when it is an open member of the audience. */
  lemma {:induction false} FanoutReaches(audience: seq<ConnId>, open: set<ConnId>, m: OutMsg, c: ConnId)
    ensures Send(c, m) in Fanout(audience, open, m) <==> c in audience && c in open
  {
    if audience != [] {
      var front := audience[..|audience| - 1];
      FanoutReaches(front, open, m, c);
      assert c in audience <==> c in front || c == audience[|audience| - 1];
    }
  }

  /** Over an audience without duplicates, nobody receives the fan-out twice. */
  lemma {:induction false} FanoutOnce(audience: seq<ConnId>, open: set<ConnId>, m: OutMsg)
    requires NoDup(audience)
    ensures NoDup(Fanout(audience, open, m))
  {
    if audience != [] {
      var front := audience[..|audience| - 1];
      var last := audience[|audience| - 1];
      FanoutOnce(front, open, m);
      FanoutSound(front, open, m);
      assert last !in front;
      var early := Fanout(front, open, m);
      if last in open {
        var out := early + [Send(last, m)];
        forall i, j | 0 <= i < j < |out| ensures out[i] != out[j] {
          if j == |early| {
            assert out[i] == early[i] && early[i] in early;
          } else {
            assert out[i] == early[i] && out[j] == early[j];
          }
        }
      }
    }
  }
}
