/**
 * The room-scoped signalling relay of the `/ws` endpoint (backend/app/main.py:90-116).
 *
 * The server keeps one registry, `rooms`, from room id to the connections of
 * that room keyed by client id.  A connection joins the room named in its
 * query string, every text message it sends is forwarded to every other
 * connection of the same room, and on disconnect it is removed, the room
 * record disappearing with its last member.  The websocket I/O is stripped:
 * the connection handle is the type parameter `W`, a send yields the set of
 * recipient ids, and the transport's send failures are a parameter.
 */
module SignalingRelay {

  /** The `room` query parameter. */
  type RoomId = string

  /** `str(id(ws))`: the identity of the socket object, as text. */
  type ClientId = string

  /** `rooms`: room id to (client id to connection). */
  type Registry<W> = map<RoomId, map<ClientId, W>>

  /** The room a connection joins when it names none. */
  const DefaultRoom: RoomId := "default"

  /** `rooms.get(room, {})`: the members of a room, none when the room is unknown. */
  function Members<W>(rooms: Registry<W>, room: RoomId): map<ClientId, W>
  {
    if room in rooms then rooms[room] else map[]
  }

  /**
   * A connection joins `room` (lines 97-99): the room is created when it is
   * missing, then the client is stored in it.
   */
  function Join<W>(rooms: Registry<W>, room: RoomId, cid: ClientId, ws: W): (r: Registry<W>)
    ensures r.Keys == rooms.Keys + {room}
    ensures cid in r[room] && r[room][cid] == ws
    ensures r[room].Keys == Members(rooms, room).Keys + {cid}
    ensures forall c :: c in Members(rooms, room) && c != cid ==> r[room][c] == rooms[room][c]
    ensures forall other :: other in rooms && other != room ==> r[other] == rooms[other]
  {
    var created := if room in rooms then rooms else rooms[room := map[]];
    created[room := created[room][cid := ws]]
  }

  /** The clients a message from `sender` in `room` is addressed to: every other member. */
  function Recipients<W>(rooms: Registry<W>, room: RoomId, sender: ClientId): set<ClientId>
  {
    set c | c in Members(rooms, room) && c != sender
  }

  /**
   * One received message is forwarded (lines 103-109): the handler takes a
   * snapshot of the room's members and tries each one but the sender; a
   * recipient whose send raises is skipped and the loop carries on.  Sends to
   * the clients in `failing` raise.  The registry is a value and is not an
   * output: a failed send leaves it as it was.
   */
  method Broadcast<W>(rooms: Registry<W>, room: RoomId, sender: ClientId, failing: set<ClientId>)
    returns (delivered: set<ClientId>, dropped: set<ClientId>)
    ensures delivered == Recipients(rooms, room, sender) - failing
    ensures dropped == Recipients(rooms, room, sender) * failing
    ensures sender !in delivered && sender !in dropped
  {
    var pending := Members(rooms, room).Keys;
    delivered, dropped := {}, {};
    while pending != {}
      invariant pending <= Members(rooms, room).Keys
      invariant delivered == (Members(rooms, room).Keys - pending - {sender}) - failing
      invariant dropped == (Members(rooms, room).Keys - pending - {sender}) * failing
      decreases pending
    {
      var cid :| cid in pending;
      pending := pending - {cid};
      if cid == sender {
        continue;
      }
      if cid in failing {
        dropped := dropped + {cid};
      } else {
        delivered := delivered + {cid};
      }
    }
  }

  /**
   * The client disconnects (lines 111-116): it is popped from its room and an
   * empty room is deleted.  When the room is already gone the `KeyError` is
   * swallowed and nothing changes.
   */
  function Leave<W>(rooms: Registry<W>, room: RoomId, cid: ClientId): (r: Registry<W>)
    ensures room !in rooms ==> r == rooms
    ensures room in rooms ==> (room in r <==> rooms[room].Keys - {cid} != {})
    ensures room in r ==> r[room].Keys == rooms[room].Keys - {cid}
    ensures room in r ==> forall c :: c in r[room] ==> r[room][c] == rooms[room][c]
    ensures r.Keys <= rooms.Keys
    ensures forall other :: other in rooms && other != room ==> other in r && r[other] == rooms[other]
  {
    if room !in rooms then rooms
    else
      var remaining := rooms[room] - {cid};
      if remaining == map[] then rooms - {room} else rooms[room := remaining]
  }

  /**
   * What the handlers keep true of the registry: no room record is empty, and
   * a client id (the identity of a live socket) is in at most one room.
   */
  ghost predicate WellFormed<W>(rooms: Registry<W>)
  {
    NoEmptyRoom(rooms) && UniqueMembership(rooms)
  }

  /** Every room record has a member. */
  ghost predicate NoEmptyRoom<W>(rooms: Registry<W>)
  {
    forall room :: room in rooms ==> rooms[room] != map[]
  }

  /** No client id is in two rooms. */
  ghost predicate UniqueMembership<W>(rooms: Registry<W>)
  {
    forall r1, r2, c :: r1 in rooms && r2 in rooms && c in rooms[r1] && c in rooms[r2] ==> r1 == r2
  }

  /** No room holds `cid`: the socket is new. */
  ghost predicate Fresh<W>(rooms: Registry<W>, cid: ClientId)
  {
    forall room :: room in rooms ==> cid !in rooms[room]
  }

  /** A fresh connection joining keeps the registry well formed. */
  lemma JoinPreservesWellFormed<W>(rooms: Registry<W>, room: RoomId, cid: ClientId, ws: W)
    requires WellFormed(rooms)
    requires Fresh(rooms, cid)
    ensures WellFormed(Join(rooms, room, cid, ws))
  {
  }

  /** A disconnect keeps the registry well formed: the emptied room is deleted. */
  lemma LeavePreservesWellFormed<W>(rooms: Registry<W>, room: RoomId, cid: ClientId)
    requires WellFormed(rooms)
    ensures WellFormed(Leave(rooms, room, cid))
  {
  }

  /** Room isolation: no member of another room is a recipient. */
  lemma RoomIsolation<W>(rooms: Registry<W>, room: RoomId, other: RoomId, sender: ClientId, c: ClientId)
    requires WellFormed(rooms)
    requires other in rooms && other != room && c in rooms[other]
    ensures c !in Recipients(rooms, room, sender)
  {
  }

  /**
   * A connection that joins and then leaves restores the registry it found,
   * whether its join created the room or not.
   */
  lemma LeaveUndoesJoin<W>(rooms: Registry<W>, room: RoomId, cid: ClientId, ws: W)
    requires NoEmptyRoom(rooms)
    requires cid !in Members(rooms, room)
    ensures Leave(Join(rooms, room, cid, ws), room, cid) == rooms
  {
    var left := Leave(Join(rooms, room, cid, ws), room, cid);
    if room in rooms {
      assert left[room] == rooms[room];
    }
    assert left.Keys == rooms.Keys;
  }

  /**
   * What one handler of the endpoint reacts to.  `Aborted` is a handler that
   * ends with an exception other than `WebSocketDisconnect` (lines 101-116
   * catch only that one): its cleanup never runs.
   */
  datatype Event<W> =
    | Connected(room: RoomId, cid: ClientId, ws: W)
    | Received(room: RoomId, cid: ClientId, failing: set<ClientId>)
    | Disconnected(room: RoomId, cid: ClientId)
    | Aborted(room: RoomId, cid: ClientId)

  /** The registry after an event and the clients a message reached. */
  datatype StepResult<W> = StepResult(rooms: Registry<W>, delivered: set<ClientId>)

  /** The relay's transition function over the events of all its handlers. */
  function Step<W>(rooms: Registry<W>, e: Event<W>): (r: StepResult<W>)
    ensures e.Received? || e.Aborted? ==> r.rooms == rooms
    ensures e.Received? ==> e.cid !in r.delivered && r.delivered <= Members(rooms, e.room).Keys
    ensures e.Received? ==> r.delivered !! e.failing
    ensures e.Received? ==> forall c :: c in Members(rooms, e.room) && c != e.cid && c !in e.failing ==> c in r.delivered
    ensures e.Aborted? ==> e.cid in Members(rooms, e.room) ==> e.cid in Members(r.rooms, e.room)
    ensures !e.Received? ==> r.delivered == {}
  {
    match e
    case Connected(room, cid, ws) => StepResult(Join(rooms, room, cid, ws), {})
    case Received(room, cid, failing) => StepResult(rooms, Recipients(rooms, room, cid) - failing)
    case Disconnected(room, cid) => StepResult(Leave(rooms, room, cid), {})
    case Aborted(_, _) => StepResult(rooms, {})
  }

  /**
   * Events the server can see: a new socket has an identity no room holds,
   * and a handler only receives or disconnects while its client is in the
   * room it joined.
   */
  ghost predicate ValidEvent<W>(rooms: Registry<W>, e: Event<W>)
  {
    match e
    case Connected(_, cid, _) => Fresh(rooms, cid)
    case Received(room, cid, _) => cid in Members(rooms, room)
    case Disconnected(room, cid) => cid in Members(rooms, room)
    case Aborted(room, cid) => cid in Members(rooms, room)
  }

  /** The registry after a sequence of events. */
  function Run<W>(rooms: Registry<W>, trace: seq<Event<W>>): Registry<W>
    decreases |trace|
  {
    if |trace| == 0 then rooms else Run(Step(rooms, trace[0]).rooms, trace[1..])
  }

  /** Every event of the trace is valid in the registry it meets. */
  ghost predicate ValidTrace<W>(rooms: Registry<W>, trace: seq<Event<W>>)
    decreases |trace|
  {
    |trace| == 0 || (ValidEvent(rooms, trace[0]) && ValidTrace(Step(rooms, trace[0]).rooms, trace[1..]))
  }

  /** Every valid event keeps a well-formed registry well formed. */
  lemma StepPreservesWellFormed<W>(rooms: Registry<W>, e: Event<W>)
    requires WellFormed(rooms)
    requires ValidEvent(rooms, e)
    ensures WellFormed(Step(rooms, e).rooms)
  {
    match e {
      case Connected(room, cid, ws) => JoinPreservesWellFormed(rooms, room, cid, ws);
      case Received(_, _, _) =>
      case Disconnected(room, cid) => LeavePreservesWellFormed(rooms, room, cid);
      case Aborted(_, _) =>
    }
  }

  /** From any well-formed registry, every valid run keeps the registry well formed. */
  lemma {:induction false} RunPreservesWellFormed<W>(rooms: Registry<W>, trace: seq<Event<W>>)
    requires WellFormed(rooms)
    requires ValidTrace(rooms, trace)
    ensures WellFormed(Run(rooms, trace))
    decreases |trace|
  {
    if |trace| > 0 {
      StepPreservesWellFormed(rooms, trace[0]);
      RunPreservesWellFormed(Step(rooms, trace[0]).rooms, trace[1..]);
    }
  }

  /**
   * Two connections that name no room meet in the default room, and each
   * one's messages reach exactly the other.
   */
  lemma TwoPeersInDefaultRoom<W>(a: ClientId, b: ClientId, wa: W, wb: W)
    requires a != b
    ensures var rooms := Join(Join(map[], DefaultRoom, a, wa), DefaultRoom, b, wb);
      && Recipients(rooms, DefaultRoom, a) == {b}
      && Recipients(rooms, DefaultRoom, b) == {a}
  {
    var rooms := Join(Join(map[], DefaultRoom, a, wa), DefaultRoom, b, wb);
    assert Members(rooms, DefaultRoom).Keys == {a, b};
  }

  /**
   * A handler that aborts leaves its client registered: later messages of
   * the room are still addressed to it.
   */
  lemma AbortedClientStaysAddressed<W>(rooms: Registry<W>, room: RoomId, cid: ClientId, sender: ClientId)
    requires cid in Members(rooms, room) && sender != cid
    ensures cid in Recipients(Step(rooms, Aborted(room, cid)).rooms, room, sender)
  {
  }
}
