/** The live side of the relay: connected clients, the `rooms` registry that maps a room id to
    the set of its clients, and `broadcastToRoom`, which fans one frame out to a room. */
module Rooms {
  import opened Messages

  /** An outbound frame: the welcome notice a client gets on joining, or a chat message event. */
  datatype Frame = Welcome(room: string, username: string, ts: int) | MessageEvent(message: Message)

  /** A connected client (`*Client`). Its identity is the object itself; `closed` and `received`
      stand for the connection: whether it has been closed, and the frames written to it so far. */
  class Client {
    const username: string
    const roomID: string
    var closed: bool
    var received: seq<Frame>

    constructor (username: string, roomID: string)
      ensures this.username == username && this.roomID == roomID
      ensures !closed && received == []
    {
      this.username := username;
      this.roomID := roomID;
      closed := false;
      received := [];
    }

    /** `conn.WriteMessage` / `conn.WriteJSON`. Whether the transport fails is decided outside
        (`fails`); a successful write delivers the frame, a failed one delivers nothing. */
    method Write(f: Frame, fails: bool) returns (ok: bool)
      modifies this
      ensures ok == !fails
      ensures received == if ok then old(received) + [f] else old(received)
      ensures closed == old(closed)
    {
      ok := !fails;
      if ok {
        received := received + [f];
      }
    }

    /** `conn.Close`; closing twice is harmless. */
    method Close()
      modifies this
      ensures closed && received == old(received)
    {
      closed := true;
    }
  }

  type Rooms = map<string, set<Client>>

  /** `rooms[room]`, where a room without an entry has no members. */
  function Members(rooms: Rooms, room: string): set<Client> {
    if room in rooms then rooms[room] else {}
  }

  /** The registration block of handleWS: creates the room's set on first use and adds `c`. */
  function Joined(rooms: Rooms, room: string, c: Client): (r: Rooms)
    ensures r.Keys == rooms.Keys + {room}
    ensures Members(r, room) == Members(rooms, room) + {c}
    ensures forall k :: k in rooms && k != room ==> r[k] == rooms[k]
  {
    rooms[room := Members(rooms, room) + {c}]
  }

  /** `delete(rooms[room], c)`: takes `c` out of the room's set. The room keeps its entry even
      when its set becomes empty; deleting from a room without an entry, or a client that is not
      there, changes nothing. */
  function Left(rooms: Rooms, room: string, c: Client): (r: Rooms)
    ensures r.Keys == rooms.Keys
    ensures Members(r, room) == Members(rooms, room) - {c}
    ensures forall k :: k in rooms && k != room ==> r[k] == rooms[k]
    ensures c !in Members(rooms, room) ==> r == rooms
  {
    if room in rooms then
      assert c !in rooms[room] ==> rooms[room := rooms[room] - {c}] == rooms by {
        if c !in rooms[room] {
          assert rooms[room] - {c} == rooms[room];
        }
      }
      rooms[room := rooms[room] - {c}]
    else rooms
  }

  /** Leaving twice is the same as leaving once, so the cleanup after a broadcast has
      already removed a client is safe. */
  lemma LeaveIsIdempotent(rooms: Rooms, room: string, c: Client)
    ensures Left(Left(rooms, room, c), room, c) == Left(rooms, room, c)
  {
    assert c !in Members(Left(rooms, room, c), room);
  }

  /** The members whose write fails. */
  function Dropped(members: set<Client>, writeFails: Client -> bool): set<Client> {
    set c | c in members && writeFails(c)
  }

  /** The registry after broadcastToRoom: the room has lost exactly the members whose write
      failed; a room without an entry is not created; every other room is untouched. */
  function AfterBroadcast(rooms: Rooms, room: string, writeFails: Client -> bool): (r: Rooms)
    ensures r.Keys == rooms.Keys
    ensures Members(r, room) + Dropped(Members(rooms, room), writeFails) == Members(rooms, room)
    ensures Members(r, room) !! Dropped(Members(rooms, room), writeFails)
    ensures forall k :: k in rooms && k != room ==> r[k] == rooms[k]
  {
    if room in rooms then rooms[room := rooms[room] - Dropped(rooms[room], writeFails)] else rooms
  }

  /** A registry operation issued by some session. */
  datatype Op = JoinOp(room: string, client: Client) | LeaveOp(room: string, client: Client)

  function Apply(rooms: Rooms, op: Op): Rooms {
    match op
    case JoinOp(room, c) => Joined(rooms, room, c)
    case LeaveOp(room, c) => Left(rooms, room, c)
  }

  /** The registry after the operations, applied one at a time in the order given. */
  function Replay(rooms: Rooms, ops: seq<Op>): Rooms {
    if ops == [] then rooms else Apply(Replay(rooms, ops[..|ops| - 1]), ops[|ops| - 1])
  }

  /** Whether `c`'s last operation on `room` was a join (or, with none, whether it was there at the start). */
  ghost predicate JoinedLast(rooms: Rooms, ops: seq<Op>, room: string, c: Client) {
    if ops == [] then c in Members(rooms, room)
    else
      var op := ops[|ops| - 1];
      if op.room == room && op.client == c then op.JoinOp? else JoinedLast(rooms, ops[..|ops| - 1], room, c)
  }

  /** Membership is linearizable: after any sequence of joins and leaves, a room holds exactly
      the clients whose last operation on it was a join. */
  lemma {:induction false} ReplayMembership(rooms: Rooms, ops: seq<Op>, room: string, c: Client)
    ensures c in Members(Replay(rooms, ops), room) <==> JoinedLast(rooms, ops, room, c)
  {
    if ops != [] {
      ReplayMembership(rooms, ops[..|ops| - 1], room, c);
    }
  }

  /** Operations of two different clients commute, so the interleaving of sessions does not
      change the final registry. */
  lemma DistinctClientsCommute(rooms: Rooms, a: Op, b: Op)
    requires a.client != b.client
    ensures Replay(rooms, [a, b]) == Replay(rooms, [b, a])
  {
    ReplayTwo(rooms, a, b);
    ReplayTwo(rooms, b, a);
    ApplyCommutes(rooms, a, b);
  }

  lemma ReplayTwo(rooms: Rooms, a: Op, b: Op)
    ensures Replay(rooms, [a, b]) == Apply(Apply(rooms, a), b)
  {
    assert [a, b][..1] == [a] && [a][..0] == [];
    assert Replay(rooms, [a]) == Apply(Replay(rooms, []), a);
    assert Replay(rooms, [a, b]) == Apply(Replay(rooms, [a]), b);
  }

  lemma ApplyCommutes(rooms: Rooms, a: Op, b: Op)
    requires a.client != b.client
    ensures Apply(Apply(rooms, a), b) == Apply(Apply(rooms, b), a)
  {
    var ab, ba := Apply(Apply(rooms, a), b), Apply(Apply(rooms, b), a);
    assert ab.Keys == ba.Keys;
    forall k | k in ab.Keys ensures ab[k] == ba[k] {
      ApplyCommutesAt(rooms, a, b, k);
      assert Members(ab, k) == ab[k] && Members(ba, k) == ba[k];
    }
  }

  lemma ApplyCommutesAt(rooms: Rooms, a: Op, b: Op, k: string)
    requires a.client != b.client
    ensures Members(Apply(Apply(rooms, a), b), k) == Members(Apply(Apply(rooms, b), a), k)
  {
    ApplyAt(rooms, a, k);
    ApplyAt(Apply(rooms, a), b, k);
    ApplyAt(rooms, b, k);
    ApplyAt(Apply(rooms, b), a, k);
    EditsCommute(Members(rooms, k), Adds(a, k), Removes(a, k), Adds(b, k), Removes(b, k));
  }

  /** The client an operation adds to room `k`, if any. */
  function Adds(op: Op, k: string): set<Client> {
    if op.JoinOp? && op.room == k then {op.client} else {}
  }

  /** The client an operation removes from room `k`, if any. */
  function Removes(op: Op, k: string): set<Client> {
    if op.LeaveOp? && op.room == k then {op.client} else {}
  }

  lemma ApplyAt(rooms: Rooms, op: Op, k: string)
    ensures Members(Apply(rooms, op), k) == Members(rooms, k) + Adds(op, k) - Removes(op, k)
  {
  }

  lemma EditsCommute(m: set<Client>, addA: set<Client>, remA: set<Client>, addB: set<Client>, remB: set<Client>)
    requires (addA + remA) !! (addB + remB)
    ensures m + addA - remA + addB - remB == m + addB - remB + addA - remA
  {
  }

  /** The global `rooms` map. */
  class Registry {
    var rooms: Rooms

    constructor ()
      ensures rooms == map[]
    {
      rooms := map[];
    }

    method Join(room: string, c: Client)
      modifies this
      ensures rooms == Joined(old(rooms), room, c)
    {
      if room !in rooms {
        rooms := rooms[room := {}];
      }
      rooms := rooms[room := rooms[room] + {c}];
    }

    method Leave(room: string, c: Client)
      modifies this
      ensures rooms == Left(old(rooms), room, c)
    {
      if room in rooms {
        rooms := rooms[room := rooms[room] - {c}];
      }
    }

    /** broadcastToRoom: a room without an entry gets nothing. Otherwise the frame is written to
        every member in turn; a member whose write fails is closed and deleted from the room, and
        the loop goes on with the rest. Members whose write succeeds receive the frame exactly once. */
    method BroadcastToRoom(room: string, f: Frame, writeFails: Client -> bool)
      modifies this, Members(rooms, room)
      ensures rooms == AfterBroadcast(old(rooms), room, writeFails)
      ensures forall c :: c in old(Members(rooms, room)) ==>
        && c.closed == (old(c.closed) || writeFails(c))
        && c.received == if writeFails(c) then old(c.received) else old(c.received) + [f]
    {
      if room !in rooms {
        return;
      }
      var clients := rooms[room];
      var pending := clients;
      ghost var dropped: set<Client> := {};
      assert clients - dropped == clients;
      assert old(rooms)[room := clients - dropped] == old(rooms);
      while pending != {}
        invariant pending <= clients
        invariant forall c :: c in dropped <==> c in clients && c !in pending && writeFails(c)
        invariant rooms == old(rooms)[room := clients - dropped]
        invariant forall c :: c in clients - pending ==>
          && c.closed == (old(c.closed) || writeFails(c))
          && c.received == if writeFails(c) then old(c.received) else old(c.received) + [f]
        invariant forall c :: c in pending ==> c.closed == old(c.closed) && c.received == old(c.received)
        decreases pending
      {
        var c :| c in pending;
        var ok := c.Write(f, writeFails(c));
        if !ok {
          c.Close();
          Leave(room, c);
          assert (clients - dropped) - {c} == clients - (dropped + {c});
          dropped := dropped + {c};
        }
        pending := pending - {c};
      }
      assert dropped == Dropped(clients, writeFails);
    }
  }
}
