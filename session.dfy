/** One WebSocket session (handleWS): validate the join parameters, register the client,
    relay every inbound text through the log and the room broadcast, and deregister when
    reading fails. */
module Session {
  import opened Base
  import opened Text
  import opened Messages
  import opened Rooms

  datatype JoinParams = JoinParams(username: string, room: string)

  /** The check of `?username=` and `?room=`: both are trimmed, and the request is rejected
      (None) when either is then empty, that is, when either is absent or all white space. */
  function ValidateParams(usernameArg: string, roomArg: string): (r: Option<JoinParams>)
    ensures r.None? <==> AllSpace(usernameArg) || AllSpace(roomArg)
    ensures r.Some? ==> r.value == JoinParams(TrimSpace(usernameArg), TrimSpace(roomArg))
    ensures r.Some? ==> r.value.username != "" && !IsSpace(r.value.username[0])
    ensures r.Some? ==> r.value.room != "" && !IsSpace(r.value.room[0])
  {
    var username := TrimSpace(usernameArg);
    var room := TrimSpace(roomArg);
    if username == "" || room == "" then None else Some(JoinParams(username, room))
  }

  /** One text frame read from the connection, with the time it was read and whether the
      storage fails when the session saves it. */
  datatype Incoming = Incoming(content: string, ts: int, storageFails: bool)

  /** The message events for `ms`, in order. */
  function Events(ms: seq<Message>): seq<Frame> {
    if ms == [] then [] else Events(ms[..|ms| - 1]) + [MessageEvent(ms[|ms| - 1])]
  }

  /** The relayed messages the log kept: those that were given an id. */
  function Persisted(ms: seq<Message>): seq<Message> {
    if ms == [] then []
    else Persisted(ms[..|ms| - 1]) + (if ms[|ms| - 1].id != 0 then [ms[|ms| - 1]] else [])
  }

  /** One event per message, in the same order. */
  lemma {:induction false} EventsAreInOrder(ms: seq<Message>)
    ensures |Events(ms)| == |ms|
    ensures forall i :: 0 <= i < |ms| ==> Events(ms)[i] == MessageEvent(ms[i])
  {
    if ms != [] {
      EventsAreInOrder(ms[..|ms| - 1]);
    }
  }

  /** The log keeps exactly the relayed messages that were given an id. */
  lemma {:induction false} PersistedAreTheSaved(ms: seq<Message>)
    ensures |Persisted(ms)| <= |ms|
    ensures forall m :: m in Persisted(ms) <==> m in ms && m.id != 0
  {
    if ms != [] {
      var init := ms[..|ms| - 1];
      PersistedAreTheSaved(init);
      assert ms == init + [ms[|ms| - 1]];
    }
  }

  lemma EventsSnoc(ms: seq<Message>, m: Message)
    ensures Events(ms + [m]) == Events(ms) + [MessageEvent(m)]
  {
    assert (ms + [m])[..|ms|] == ms;
  }

  lemma PersistedSnoc(ms: seq<Message>, m: Message)
    ensures Persisted(ms + [m]) == Persisted(ms) + (if m.id != 0 then [m] else [])
  {
    assert (ms + [m])[..|ms|] == ms;
  }

  /** The id saveMessage gives a frame's message when the log's last id is `lastId`: the next id,
      unless the storage fails or the ids are used up, in which case the message keeps id 0. */
  function AssignedId(lastId: int, incoming: Incoming): int {
    if !incoming.storageFails && lastId < MaxInt64 then lastId + 1 else 0
  }

  /** The log's last id after saving the messages of the first `n` frames in turn, starting from `lastId0`. */
  function LastIdAfter(lastId0: int, frames: seq<Incoming>, n: nat): int
    requires n <= |frames|
  {
    if n == 0 then lastId0
    else
      var before := LastIdAfter(lastId0, frames, n - 1);
      if AssignedId(before, frames[n - 1]) != 0 then before + 1 else before
  }

  /** Each frame moves the last id up by at most one. */
  lemma {:induction false} LastIdAfterBounds(lastId0: int, frames: seq<Incoming>, n: nat)
    requires n <= |frames|
    ensures lastId0 <= LastIdAfter(lastId0, frames, n) <= lastId0 + n
  {
    if n > 0 {
      LastIdAfterBounds(lastId0, frames, n - 1);
    }
  }

  /** While ids remain, frame j's message is saved exactly when its storage does not fail. */
  lemma SavedUnlessStorageFails(lastId0: int, inbound: seq<Incoming>, j: nat)
    requires j < |inbound| && 0 <= lastId0 && lastId0 + j < MaxInt64
    ensures AssignedId(LastIdAfter(lastId0, inbound, j), inbound[j]) != 0 <==> !inbound[j].storageFails
  {
    LastIdAfterBounds(lastId0, inbound, j);
  }

  /** The body of the read loop for one frame: build the message with the session's room and
      sender, try to save it, and broadcast it to the room whether or not the save succeeded.
      A saved message carries its new id; an unsaved one keeps id 0. */
  method Relay(reg: Registry, log: MessageLog, client: Client, incoming: Incoming, writeFails: Client -> bool)
    returns (m: Message)
    requires log.Valid()
    modifies reg, log, Members(reg.rooms, client.roomID)
    ensures log.Valid()
    ensures m.room == client.roomID && m.sender == client.username
    ensures m.content == incoming.content && m.ts == incoming.ts
    ensures incoming.storageFails ==> m.id == 0
    ensures m.id == AssignedId(old(log.lastId), incoming)
    ensures log.lastId == if m.id != 0 then m.id else old(log.lastId)
    ensures log.rows == old(log.rows) + (if m.id != 0 then [m] else [])
    ensures m.id != 0 ==> forall i :: 0 <= i < |old(log.rows)| ==> old(log.rows)[i].id < m.id
    ensures reg.rooms == AfterBroadcast(old(reg.rooms), client.roomID, writeFails)
    ensures forall c :: c in old(Members(reg.rooms, client.roomID)) ==>
      && c.closed == (old(c.closed) || writeFails(c))
      && c.received == if writeFails(c) then old(c.received) else old(c.received) + [MessageEvent(m)]
  {
    var draft := Message(0, client.roomID, client.username, incoming.content, incoming.ts);
    var ok;
    m, ok := log.SaveMessage(draft, incoming.storageFails);
    reg.BroadcastToRoom(client.roomID, MessageEvent(m), writeFails);
  }

  /** How a session ends: rejected before the upgrade, failed upgrade, or closed after reading. */
  datatype Outcome = BadRequest | UpgradeFailed | Disconnected

  /** handleWS. A blank username or room is a bad request and a failed upgrade ends the session;
      neither touches the registry or the log. Otherwise the session runs as Serve describes, in
      the trimmed room under the trimmed name. */
  method HandleWS(reg: Registry, log: MessageLog, usernameArg: string, roomArg: string, upgradeFails: bool,
                  joinTs: int, inbound: seq<Incoming>, writeFails: Client -> bool)
    returns (outcome: Outcome, client: Client?, relayed: seq<Message>)
    requires log.Valid()
    modifies reg, log, Members(reg.rooms, TrimSpace(roomArg))
    ensures log.Valid()
    ensures outcome == BadRequest <==> ValidateParams(usernameArg, roomArg).None?
    ensures outcome == UpgradeFailed <==> ValidateParams(usernameArg, roomArg).Some? && upgradeFails
    ensures outcome != Disconnected ==>
      && client == null && relayed == []
      && reg.rooms == old(reg.rooms) && log.rows == old(log.rows) && log.lastId == old(log.lastId)
      && forall c :: c in old(Members(reg.rooms, TrimSpace(roomArg))) ==> unchanged(c)
    ensures outcome == Disconnected ==>
      var room := TrimSpace(roomArg);
      var members := old(Members(reg.rooms, room));
      && client != null && fresh(client)
      && client.username == TrimSpace(usernameArg) && client.roomID == room
      && client.closed && client !in Members(reg.rooms, room)
      && reg.rooms.Keys == old(reg.rooms).Keys + {room}
      && Members(reg.rooms, room) == (if relayed == [] then members else members - Dropped(members, writeFails))
      && (forall k :: k in old(reg.rooms) && k != room ==> reg.rooms[k] == old(reg.rooms)[k])
      && |relayed| == (if writeFails(client) then (if inbound == [] then 0 else 1) else |inbound|)
      && RelayedFrom(relayed, inbound, room, client.username, old(log.lastId))
      && log.rows == old(log.rows) + Persisted(relayed)
      && log.lastId == LastIdAfter(old(log.lastId), inbound, |relayed|)
      && client.received == (if writeFails(client) then [] else [Welcome(room, client.username, joinTs)] + Events(relayed))
      && (forall c :: c in members ==> SeenBy(c) == AfterRelays(old(SeenBy(c)), writeFails(c), relayed))
  {
    var params := ValidateParams(usernameArg, roomArg);
    if params.None? {
      return BadRequest, null, [];
    }
    if upgradeFails {
      return UpgradeFailed, null, [];
    }
    var c;
    c, relayed := Serve(reg, log, params.value.username, params.value.room, joinTs, inbound, writeFails);
    client := c;
    outcome := Disconnected;
  }

  /** handleWS after a successful upgrade. A new client joins `room` and is sent a welcome notice;
      it then relays the inbound frames in order until reading fails: when the input runs out, or
      when its own connection was closed after a failed write. It then leaves the room. `relayed`
      is the sequence of messages the session broadcast. */
  method Serve(reg: Registry, log: MessageLog, username: string, room: string,
               joinTs: int, inbound: seq<Incoming>, writeFails: Client -> bool)
    returns (client: Client, relayed: seq<Message>)
    requires log.Valid()
    modifies reg, log, Members(reg.rooms, room)
    ensures log.Valid()
    ensures fresh(client) && client.username == username && client.roomID == room
    // the registry: the client has left, the room lost exactly its failed members, nothing else moved
    ensures client.closed && client !in Members(reg.rooms, room)
    ensures reg.rooms.Keys == old(reg.rooms).Keys + {room}
    ensures var members := old(Members(reg.rooms, room));
      Members(reg.rooms, room) == if relayed == [] then members else members - Dropped(members, writeFails)
    ensures forall k :: k in old(reg.rooms) && k != room ==> reg.rooms[k] == old(reg.rooms)[k]
    // what was relayed: every inbound frame, unless the session's own write failed first
    ensures |relayed| == (if writeFails(client) then (if inbound == [] then 0 else 1) else |inbound|)
    ensures RelayedFrom(relayed, inbound, room, username, old(log.lastId))
    ensures log.rows == old(log.rows) + Persisted(relayed)
    ensures log.lastId == LastIdAfter(old(log.lastId), inbound, |relayed|)
    // what was delivered
    ensures client.received == if writeFails(client) then [] else [Welcome(room, username, joinTs)] + Events(relayed)
    ensures forall c :: c in old(Members(reg.rooms, room)) ==> SeenBy(c) == AfterRelays(old(SeenBy(c)), writeFails(c), relayed)
  {
    ghost var rooms0 := reg.rooms;
    ghost var members := Members(rooms0, room);
    client := Enter(reg, username, room, joinTs, writeFails);
    relayed := ReadLoop(reg, log, client, inbound, writeFails, members, client.received);
    ghost var roomsRead := reg.rooms;
    Exit(reg, client);
    LeftAfterSession(rooms0, roomsRead, room, members, client, writeFails, relayed != []);
  }

  /** The registration block of handleWS and the welcome notice: a new client for the connection
      joins the room and is sent the notice, which it receives unless its write fails. */
  method Enter(reg: Registry, username: string, room: string, joinTs: int, writeFails: Client -> bool)
    returns (client: Client)
    modifies reg
    ensures fresh(client) && client.username == username && client.roomID == room && !client.closed
    ensures client.received == if writeFails(client) then [] else [Welcome(room, username, joinTs)]
    ensures reg.rooms == Joined(old(reg.rooms), room, client)
  {
    client := new Client(username, room);
    reg.Join(room, client);
    var _ := client.Write(Welcome(room, username, joinTs), writeFails(client));
  }

  /** The deferred cleanup of handleWS: the client leaves its room and its connection is closed. */
  method Exit(reg: Registry, client: Client)
    modifies reg, client
    ensures reg.rooms == Left(old(reg.rooms), client.roomID, client)
    ensures client.closed && client.received == old(client.received)
  {
    reg.Leave(client.roomID, client);
    client.Close();
  }

  /** The registry once the session has left: its own join is undone, and the room keeps the
      members it had before the session, less those dropped by a broadcast if there was one. */
  lemma LeftAfterSession(rooms0: Rooms, rooms: Rooms, room: string, members: set<Client>, client: Client,
                         writeFails: Client -> bool, broadcast: bool)
    requires client !in members && Members(rooms0, room) == members
    requires RoomDuring(rooms, Joined(rooms0, room, client), room, members + {client}, writeFails, broadcast)
    ensures var r := Left(rooms, room, client);
      && client !in Members(r, room)
      && r.Keys == rooms0.Keys + {room}
      && Members(r, room) == (if broadcast then members - Dropped(members, writeFails) else members)
      && forall k :: k in rooms0 && k != room ==> r[k] == rooms0[k]
  {
    var everyone := members + {client};
    if broadcast {
      assert (everyone - Dropped(everyone, writeFails)) - {client} == members - Dropped(members, writeFails);
    } else {
      assert everyone - {client} == members;
    }
  }

  /** The relayed messages are built from the first |relayed| inbound frames, with the session's room and
      sender, and each carries the id saveMessage gave it, counting on from `lastId0`. */
  ghost predicate RelayedFrom(relayed: seq<Message>, inbound: seq<Incoming>, room: string, sender: string, lastId0: int) {
    && |relayed| <= |inbound|
    && forall j :: 0 <= j < |relayed| ==>
      && relayed[j].room == room && relayed[j].sender == sender
      && relayed[j].content == inbound[j].content && relayed[j].ts == inbound[j].ts
      && relayed[j].id == AssignedId(LastIdAfter(lastId0, inbound, j), inbound[j])
  }

  /** The log and the relayed messages while a session reads, against the log's rows `rows0` and last
      id `lastId0` from before the read loop: the log holds its earlier rows and the saved messages,
      and its last id has moved on by one per saved message. */
  ghost predicate Logged(log: MessageLog, rows0: seq<Message>, lastId0: int, relayed: seq<Message>,
                         inbound: seq<Incoming>, room: string, sender: string)
    reads log
  {
    && log.Valid()
    && RelayedFrom(relayed, inbound, room, sender, lastId0)
    && log.rows == rows0 + Persisted(relayed)
    && log.lastId == LastIdAfter(lastId0, inbound, |relayed|)
  }

  /** The bookkeeping of one read-loop turn: once the next frame's message `m` has been saved (or
      not), the relayed messages, the log's rows and its last id are again described from the start. */
  lemma Recorded(relayed: seq<Message>, m: Message, inbound: seq<Incoming>, room: string, sender: string,
                 lastId0: int, rows0: seq<Message>, rows: seq<Message>, rows': seq<Message>, lastId: int, lastId': int)
    requires RelayedFrom(relayed, inbound, room, sender, lastId0) && |relayed| < |inbound|
    requires rows == rows0 + Persisted(relayed) && lastId == LastIdAfter(lastId0, inbound, |relayed|)
    requires m.room == room && m.sender == sender
    requires m.content == inbound[|relayed|].content && m.ts == inbound[|relayed|].ts
    requires m.id == AssignedId(lastId, inbound[|relayed|])
    requires rows' == rows + (if m.id != 0 then [m] else [])
    requires lastId' == if m.id != 0 then m.id else lastId
    ensures RelayedFrom(relayed + [m], inbound, room, sender, lastId0)
    ensures rows' == rows0 + Persisted(relayed + [m])
    ensures lastId' == LastIdAfter(lastId0, inbound, |relayed| + 1)
  {
    PersistedSnoc(relayed, m);
    RelayedFromSnoc(relayed, m, inbound, room, sender, lastId0);
  }

  lemma RelayedFromSnoc(relayed: seq<Message>, m: Message, inbound: seq<Incoming>, room: string, sender: string, lastId0: int)
    requires RelayedFrom(relayed, inbound, room, sender, lastId0) && |relayed| < |inbound|
    requires m.room == room && m.sender == sender
    requires m.content == inbound[|relayed|].content && m.ts == inbound[|relayed|].ts
    requires m.id == AssignedId(LastIdAfter(lastId0, inbound, |relayed|), inbound[|relayed|])
    ensures RelayedFrom(relayed + [m], inbound, room, sender, lastId0)
  {
  }

  lemma EventsAppend(prefix: seq<Frame>, ms: seq<Message>, m: Message)
    ensures prefix + Events(ms + [m]) == prefix + Events(ms) + [MessageEvent(m)]
  {
    EventsSnoc(ms, m);
  }

  /** The registry while a session is in `room`, compared with `rooms0` from before the read loop:
      no key and no other room changed, and the room holds `everyone`, less the members whose
      write fails once a broadcast has happened. */
  ghost predicate RoomDuring(rooms: Rooms, rooms0: Rooms, room: string, everyone: set<Client>,
                             writeFails: Client -> bool, broadcast: bool) {
    && rooms.Keys == rooms0.Keys
    && (forall k :: k in rooms0 && k != room ==> rooms[k] == rooms0[k])
    && Members(rooms, room) == if broadcast then everyone - Dropped(everyone, writeFails) else everyone
  }

  lemma BroadcastDuring(rooms: Rooms, rooms0: Rooms, room: string, everyone: set<Client>,
                        writeFails: Client -> bool, broadcast: bool)
    requires RoomDuring(rooms, rooms0, room, everyone, writeFails, broadcast)
    ensures RoomDuring(AfterBroadcast(rooms, room, writeFails), rooms0, room, everyone, writeFails, true)
  {
    var now := Members(rooms, room);
    var after := Members(AfterBroadcast(rooms, room, writeFails), room);
    assert after == now - Dropped(now, writeFails);
    assert now - Dropped(now, writeFails) == everyone - Dropped(everyone, writeFails);
  }

  /** What a connection has seen: whether it is closed, and the frames written to it. */
  datatype Seen = Seen(closed: bool, received: seq<Frame>)

  function SeenBy(c: Client): Seen
    reads c
  {
    Seen(c.closed, c.received)
  }

  /** What another member of the room has seen after the session broadcast `relayed`, starting
      from `s`: a member whose writes fail is closed by the first broadcast and gets nothing, any
      other member gets every event in order. */
  function AfterRelays(s: Seen, fails: bool, relayed: seq<Message>): Seen {
    if fails then Seen(s.closed || relayed != [], s.received) else Seen(s.closed, s.received + Events(relayed))
  }

  /** One more relay: a failing member is closed and gets nothing more, and a member that has
      already failed is left as it is; any other member gets the new event. */
  lemma RelayStep(s: Seen, fails: bool, relayed: seq<Message>, m: Message)
    ensures var mid := AfterRelays(s, fails, relayed);
      AfterRelays(s, fails, relayed + [m])
        == Seen(mid.closed || fails, if fails then mid.received else mid.received + [MessageEvent(m)])
    ensures fails && relayed != [] ==> AfterRelays(s, fails, relayed + [m]) == AfterRelays(s, fails, relayed)
  {
    EventsAppend(s.received, relayed, m);
  }

  /** Every member is where AfterRelays puts it, from its state in `before`. */
  ghost predicate Delivered(members: set<Client>, before: map<Client, Seen>, writeFails: Client -> bool,
                            relayed: seq<Message>)
    reads members
  {
    forall c :: c in members ==> c in before && SeenBy(c) == AfterRelays(before[c], writeFails(c), relayed)
  }

  /** One turn of the read loop: relay the next inbound frame. The state before and after is
      described against the state when the loop started (`rooms0`, `rows0`, `before`, `greeting`). */
  method ReadOne(reg: Registry, log: MessageLog, client: Client, inbound: seq<Incoming>, writeFails: Client -> bool,
                 ghost members: set<Client>, ghost before: map<Client, Seen>, relayed: seq<Message>,
                 ghost greeting: seq<Frame>, ghost rooms0: Rooms, ghost rows0: seq<Message>, ghost lastId0: int)
    returns (m: Message)
    requires |relayed| < |inbound| && Logged(log, rows0, lastId0, relayed, inbound, client.roomID, client.username)
    requires !client.closed && client !in members && (relayed != [] ==> !writeFails(client))
    requires RoomDuring(reg.rooms, rooms0, client.roomID, members + {client}, writeFails, relayed != [])
    requires client.received == if writeFails(client) then greeting else greeting + Events(relayed)
    requires Delivered(members, before, writeFails, relayed)
    modifies reg, log, members, client
    ensures Logged(log, rows0, lastId0, relayed + [m], inbound, client.roomID, client.username)
    ensures client.closed == writeFails(client)
    ensures RoomDuring(reg.rooms, rooms0, client.roomID, members + {client}, writeFails, true)
    ensures client.received == if writeFails(client) then greeting else greeting + Events(relayed + [m])
    ensures Delivered(members, before, writeFails, relayed + [m])
  {
    var room := client.roomID;
    ghost var roomNow := Members(reg.rooms, room);
    assert client in roomNow;
    label Before:
    m := Relay(reg, log, client, inbound[|relayed|], writeFails);
    Recorded(relayed, m, inbound, room, client.username, lastId0, rows0,
             old@Before(log.rows), log.rows, old@Before(log.lastId), log.lastId);
    EventsAppend(greeting, relayed, m);
    BroadcastDuring(old@Before(reg.rooms), rooms0, room, members + {client}, writeFails, relayed != []);
    forall c | c in members
      ensures SeenBy(c) == AfterRelays(before[c], writeFails(c), relayed + [m])
    {
      RelayStep(before[c], writeFails(c), relayed, m);
      if c !in roomNow {
        assert SeenBy(c) == old@Before(SeenBy(c));
      }
    }
  }

  /** The read loop of handleWS, from the moment the client is registered until reading fails. */
  method ReadLoop(reg: Registry, log: MessageLog, client: Client, inbound: seq<Incoming>,
                  writeFails: Client -> bool, ghost members: set<Client>, ghost greeting: seq<Frame>)
    returns (relayed: seq<Message>)
    requires log.Valid() && !client.closed && client !in members
    requires Members(reg.rooms, client.roomID) == members + {client}
    requires client.received == greeting
    modifies reg, log, members, client
    ensures Logged(log, old(log.rows), old(log.lastId), relayed, inbound, client.roomID, client.username)
    ensures |relayed| == (if writeFails(client) then (if inbound == [] then 0 else 1) else |inbound|)
    ensures client.closed <==> relayed != [] && writeFails(client)
    ensures RoomDuring(reg.rooms, old(reg.rooms), client.roomID, members + {client}, writeFails, relayed != [])
    ensures client.received == if writeFails(client) then greeting else greeting + Events(relayed)
    ensures forall c :: c in members ==> SeenBy(c) == AfterRelays(old(SeenBy(c)), writeFails(c), relayed)
  {
    var room := client.roomID;
    ghost var before := map c | c in members :: SeenBy(c);
    relayed := [];
    var i := 0;
    while i < |inbound| && !client.closed
      invariant 0 <= i <= |inbound| && |relayed| == i
      invariant writeFails(client) ==> i <= 1
      invariant client.closed <==> i > 0 && writeFails(client)
      invariant Logged(log, old(log.rows), old(log.lastId), relayed, inbound, room, client.username)
      invariant RoomDuring(reg.rooms, old(reg.rooms), room, members + {client}, writeFails, i > 0)
      invariant client.received == if writeFails(client) then greeting else greeting + Events(relayed)
      invariant Delivered(members, before, writeFails, relayed)
    {
      var m := ReadOne(reg, log, client, inbound, writeFails, members, before, relayed, greeting, old(reg.rooms), old(log.rows), old(log.lastId));
      relayed := relayed + [m];
      i := i + 1;
    }
    forall c | c in members
      ensures SeenBy(c) == AfterRelays(old(SeenBy(c)), writeFails(c), relayed)
    {
      assert before[c] == old(SeenBy(c));
    }
  }
}
